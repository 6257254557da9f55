/** Runs of the Trickle timer itself: what its callbacks and events make of it, on its wrapping clock. */
module TrickleLive {
  import opened Numbers
  import opened Bits
  import opened TrickleLimits
  import opened TrickleRuns
  import opened TrickleTimer

  /**
   * What happens to a running timer: a consistent message, an inconsistent one some time after what was last, or
   * its ctimer expiring and its callback being called so many ticks late.
   */
  datatype Happening = Heard | Clash(wait: nat, rand: nat) | Expired(late: nat, rand: nat)

  function Clashes(hs: seq<Happening>): bool { exists i :: 0 <= i < |hs| && hs[i].Clash? }

  /**
   * A call of the ctimer's callback on a clock that never wraps: when the ctimer expired, when the algorithm wanted it,
   * when it came, when the algorithm wants the next one, and the wait that the timer was set to. `begun` says that it
   * is the first of a run or after a reset.
   */
  datatype Callback = Callback(begun: bool, due: nat, aim: nat, now: nat, next: nat, waited: nat) {
    predicate Ordered() { aim <= due <= now && aim <= next }

    /** How late it is. */
    function Late(): nat
      requires Ordered()
    {
      now - due
    }

    /** How late it is for the algorithm. */
    function Lag(): nat
      requires Ordered()
    {
      now - aim
    }

    function Gap(): nat
      requires Ordered()
    {
      next - aim
    }

    /** The next one is waited for, or called at once if it is past. */
    predicate Right() { waited == Until(next, now) }
  }

  /** How much too late a callback is for the next one. */
  function Behind(lag: nat, gap: nat): nat { if lag > gap then lag - gap else 0 }

  /** It is at most half of the clock's range, up to whole ranges. */
  ghost predicate Tolerable(w: nat, lag: nat, gap: nat)
    requires w > 0
  {
    Behind(lag, gap) % Pow2(w) <= Half(w)
  }

  /** The callbacks of a run: each is set by the one before, to what its wrapping clock makes of the wait. */
  ghost predicate Chained(w: nat, cs: seq<Callback>)
    requires w > 0
  {
    forall k: nat | k < |cs| :: Linked(w, cs, k)
  }

  ghost predicate Linked(w: nat, cs: seq<Callback>, k: nat)
    requires w > 0 && k < |cs|
  {
    && cs[k].Ordered() && cs[k].waited == Waited(w, cs[k].next, cs[k].now)
    && if cs[k].begun then cs[k].due == cs[k].aim
       else k > 0 && cs[k].due == cs[k - 1].now + cs[k - 1].waited && cs[k].aim == cs[k - 1].next
  }

  lemma ChainedMore(w: nat, cs: seq<Callback>, c: Callback)
    requires w > 0 && Chained(w, cs) && Linked(w, cs + [c], |cs|)
    ensures Chained(w, cs + [c])
  {
    hide Waited;
    var more := cs + [c];
    forall k: nat | k < |cs| ensures Linked(w, more, k) {
      assert Linked(w, cs, k) && more[k] == cs[k];
    }
  }

  lemma ChainedAt(w: nat, cs: seq<Callback>, k: nat)
    requires w > 0 && Chained(w, cs) && k < |cs|
    ensures cs[k].Ordered() && (cs[k].Right() <==> Tolerable(w, cs[k].Lag(), cs[k].Gap()))
    ensures cs[k].begun ==> cs[k].Lag() == cs[k].Late()
    ensures !cs[k].begun ==> k > 0 && cs[k - 1].Ordered()
    ensures !cs[k].begun && cs[k - 1].Right() ==>
      cs[k].Lag() == Behind(cs[k - 1].Lag(), cs[k - 1].Gap()) + cs[k].Late()
  {
    hide Waited, OnTime, Tolerable;
    assert Linked(w, cs, k) && (k > 0 ==> Linked(w, cs, k - 1));
    WaitExactly(w, cs[k].next, cs[k].now);
    TolerableIs(w, cs[k].aim, cs[k].now, cs[k].next);
  }

  /** The delays that have added up. */
  ghost function LagOf(w: nat, cs: seq<Callback>, k: nat): nat
    requires w > 0 && Chained(w, cs) && k < |cs|
  {
    assert Linked(w, cs, k) && (k > 0 ==> Linked(w, cs, k - 1));
    if k == 0 || cs[k].begun then cs[k].Late() else Behind(LagOf(w, cs, k - 1), cs[k - 1].Gap()) + cs[k].Late()
  }

  /** Every wait of a run is right if and only if the delays never add up to too much. */
  lemma {:induction false} AllRight(w: nat, cs: seq<Callback>)
    requires w > 0 && Chained(w, cs)
    ensures (forall k | 0 <= k < |cs| :: cs[k].Right()) <==>
      (forall k | 0 <= k < |cs| :: cs[k].Ordered() && Tolerable(w, LagOf(w, cs, k), cs[k].Gap()))
  {
    hide Tolerable, Behind;
    if forall k | 0 <= k < |cs| :: cs[k].Right() {
      forall k | 0 <= k < |cs| ensures cs[k].Ordered() && Tolerable(w, LagOf(w, cs, k), cs[k].Gap()) {
        LagIs(w, cs, k);
        ChainedAt(w, cs, k);
      }
    } else {
      var j :| 0 <= j < |cs| && !cs[j].Right();
      var k := FirstWrong(cs, j);
      LagIs(w, cs, k);
      ChainedAt(w, cs, k);
    }
  }

  lemma {:induction false} FirstWrong(cs: seq<Callback>, j: nat) returns (k: nat)
    requires j < |cs| && !cs[j].Right()
    ensures k < |cs| && !cs[k].Right() && forall i | 0 <= i < k :: cs[i].Right()
  {
    k := j;
    if i: nat :| i < j && !cs[i].Right() { k := FirstWrong(cs, i); }
  }

  lemma {:induction false} LagIs(w: nat, cs: seq<Callback>, k: nat)
    requires w > 0 && Chained(w, cs) && k < |cs| && forall i | 0 <= i < k :: cs[i].Right()
    ensures cs[k].Ordered() && cs[k].Lag() == LagOf(w, cs, k)
  {
    hide Tolerable, Behind;
    ChainedAt(w, cs, k);
    if !cs[k].begun { LagIs(w, cs, k - 1); }
  }

  /** The delays since the run began, or since the last reset. */
  ghost function LateSince(w: nat, cs: seq<Callback>, k: nat): nat
    requires w > 0 && Chained(w, cs) && k < |cs|
  {
    assert Linked(w, cs, k);
    cs[k].Late() + if k == 0 || cs[k].begun then 0 else LateSince(w, cs, k - 1)
  }

  /** So they are all right if these delays never make more than half of the clock's range. */
  lemma SmallDelays(w: nat, cs: seq<Callback>)
    requires w > 0 && Chained(w, cs) && forall k | 0 <= k < |cs| :: LateSince(w, cs, k) <= Half(w)
    ensures forall k | 0 <= k < |cs| :: cs[k].Right()
  {
    hide Tolerable, Half;
    forall k | 0 <= k < |cs| ensures cs[k].Ordered() && Tolerable(w, LagOf(w, cs, k), cs[k].Gap()) {
      ChainedAt(w, cs, k);
      LagWithin(w, cs, k);
      SmallTolerable(w, LagOf(w, cs, k), cs[k].Gap());
    }
    AllRight(w, cs);
  }

  lemma {:induction false} LagWithin(w: nat, cs: seq<Callback>, k: nat)
    requires w > 0 && Chained(w, cs) && k < |cs|
    ensures LagOf(w, cs, k) <= LateSince(w, cs, k)
  {
    hide Waited;
    assert Linked(w, cs, k) && (k > 0 ==> Linked(w, cs, k - 1));
    if k > 0 && !cs[k].begun { LagWithin(w, cs, k - 1); }
  }

  lemma SmallTolerable(w: nat, lag: nat, gap: nat)
    requires w > 0
    ensures lag <= Half(w) + gap ==> Tolerable(w, lag, gap)
  {
    PowUp(w);
    if lag <= Half(w) + gap { DivMod(Behind(lag, gap), 0, Behind(lag, gap), Pow2(w)); }
  }

  /** When the algorithm wants the next callback. */
  ghost function AimOf(s: Interval): nat { s.begin + if s.fired then s.size else s.t }

  ghost function Aim(tm: Timer): nat
    reads tm
  {
    AimOf(tm.live)
  }

  /** The timer waits for the callback that it began with, or for the one that the last one set. */
  ghost predicate Aimed(tm: Timer, cs: seq<Callback>, begun: bool)
    reads tm
  {
    && tm.due >= Aim(tm)
    && (if begun then tm.due == Aim(tm) && tm.ctInterval == tm.live.t
        else
          && cs != [] && tm.ctInterval == cs[|cs| - 1].waited
          && tm.due == cs[|cs| - 1].now + cs[|cs| - 1].waited && Aim(tm) == cs[|cs| - 1].next)
    && (!tm.compensate && !tm.live.fired ==> tm.due == Aim(tm))
  }

  /** What a run starts from. */
  datatype Setup = Setup(w: nat, compensate: bool, p: Params, first: Interval)

  /**
   * How far a run has come: when its last happening was, when the ctimer expires, and whether there was no callback
   * since the start or the last reset that was one.
   */
  datatype Moment = Moment(clock: nat, due: nat, begun: bool)

  ghost predicate Drawn(t: nat, size: nat, rand: nat) { size >= 2 && t == GetT(size, rand) }

  /** The event that a call of the callback is for the algorithm. */
  ghost predicate Comes(compensate: bool, p: Params, s: Interval, now: nat, rand: nat, e: Event) {
    if s.fired then
      && e.Expire? && e.begin == (if compensate then s.begin + s.size else now)
      && Drawn(e.t, Min(2 * s.size, p.max), rand)
    else e.Transmit?
  }

  /** The event that a happening at this time is for the algorithm. */
  ghost predicate Means(q: Setup, s: Interval, now: nat, h: Happening, e: Event) {
    match h
    case Heard => e.Hear?
    case Clash(_, rand) => e.Reset? && e.now == now && Drawn(e.t, q.p.iMin, rand)
    case Expired(_, rand) => Comes(q.compensate, q.p, s, now, rand, e)
  }

  /** One happening more, which takes the interval from s to s'. */
  ghost function Goes(q: Setup, m: Moment, s: Interval, s': Interval, h: Happening): Moment
    requires q.w > 0
  {
    match h
    case Heard => m
    case Clash(wait, _) =>
      var now := m.clock + wait;
      if s.size == q.p.iMin then m.(clock := now) else Moment(now, now + s'.t, true)
    case Expired(late, _) =>
      var now := (if m.clock <= m.due then m.due else m.clock) + late;
      Moment(now, now + Waited(q.w, AimOf(s'), now), false)
  }

  ghost function After(q: Setup, hs: seq<Happening>, es: seq<Event>): Moment
    requires q.w > 0 && |es| == |hs|
    decreases |hs|
  {
    if hs == [] then Moment(q.first.begin, AimOf(q.first), true)
    else
      var n := |hs| - 1;
      Goes(q, After(q, hs[..n], es[..n]), Run(q.p, q.first, es[..n]), Run(q.p, q.first, es), hs[n])
  }

  /** A callback, between two moments and two intervals. */
  ghost function Called(w: nat, m: Moment, m': Moment, s: Interval, s': Interval): Callback
    requires w > 0
  {
    Callback(m.begun, m.due, AimOf(s), m'.clock, AimOf(s'), Waited(w, AimOf(s'), m'.clock))
  }

  function Calls(hs: seq<Happening>): nat {
    if hs == [] then 0 else Calls(hs[..|hs| - 1]) + if hs[|hs| - 1].Expired? then 1 else 0
  }

  lemma CallsMore(hs: seq<Happening>, h: Happening)
    ensures Calls(hs + [h]) == Calls(hs) + (if h.Expired? then 1 else 0) && Calls([]) == 0
  {
    assert (hs + [h])[..|hs|] == hs;
  }

  /**
   * The events and the callbacks of a run are those of its happenings, one event for each and one callback for each
   * that is the ctimer's.
   */
  ghost predicate Traced(q: Setup, hs: seq<Happening>, es: seq<Event>, cs: seq<Callback>)
    requires q.w > 0
  {
    |es| == |hs| && |cs| == Calls(hs) && forall i: nat | i < |hs| :: TracedAt(q, hs, es, cs, i)
  }

  ghost predicate TracedAt(q: Setup, hs: seq<Happening>, es: seq<Event>, cs: seq<Callback>, i: nat)
    requires q.w > 0 && i < |hs| == |es|
  {
    var before, after := After(q, hs[..i], es[..i]), After(q, hs[..i + 1], es[..i + 1]);
    var s, s' := Run(q.p, q.first, es[..i]), Run(q.p, q.first, es[..i + 1]);
    && Means(q, s, after.clock, hs[i], es[i])
    && (hs[i].Expired? ==> Calls(hs[..i]) < |cs| && cs[Calls(hs[..i])] == Called(q.w, before, after, s, s'))
  }

  /** The timer has come through a run, and waits for what comes after it. */
  ghost predicate Through(tm: Timer, first: Interval, hs: seq<Happening>, es: seq<Event>, cs: seq<Callback>)
    reads tm
  {
    var q := Setup(tm.w, tm.compensate, tm.Limits(), first);
    && q.w > 0 && Traced(q, hs, es, cs)
    && tm.due == After(q, hs, es).due && Aimed(tm, cs, After(q, hs, es).begun)
  }

  lemma Passed(tm: Timer, first: Interval, hs: seq<Happening>, es: seq<Event>, cs: seq<Callback>)
    requires tm.w > 0 && Traced(Setup(tm.w, tm.compensate, tm.Limits(), first), hs, es, cs)
    requires var m := After(Setup(tm.w, tm.compensate, tm.Limits(), first), hs, es);
      tm.due == m.due && Aimed(tm, cs, m.begun)
    ensures Through(tm, first, hs, es, cs)
  {}

  /** One happening more. */
  lemma TracedMore(q: Setup, hs: seq<Happening>, es: seq<Event>, cs: seq<Callback>, h: Happening, e: Event,
                   cs': seq<Callback>)
    requires q.w > 0 && Traced(q, hs, es, cs)
    requires var s, s' := Run(q.p, q.first, es), Run(q.p, q.first, es + [e]);
      var m, m' := After(q, hs, es), Goes(q, After(q, hs, es), s, s', h);
      && Means(q, s, m'.clock, h, e)
      && cs' == (if h.Expired? then cs + [Called(q.w, m, m', s, s')] else cs)
    ensures Traced(q, hs + [h], es + [e], cs')
    ensures After(q, hs + [h], es + [e]) ==
      Goes(q, After(q, hs, es), Run(q.p, q.first, es), Run(q.p, q.first, es + [e]), h)
  {
    hide Run, Means, Goes, Waited, Calls, Called;
    var n, hs', es' := |hs|, hs + [h], es + [e];
    assert hs'[..n] == hs && es'[..n] == es && hs'[..n + 1] == hs' && es'[..n + 1] == es';
    CallsMore(hs, h);
    forall i: nat | i <= n ensures TracedAt(q, hs', es', cs', i) {
      if i < n {
        assert TracedAt(q, hs, es, cs, i);
        assert hs'[..i] == hs[..i] && es'[..i] == es[..i] && hs'[..i + 1] == hs[..i + 1] && es'[..i + 1] == es[..i + 1];
      }
    }
  }

  /** One call of the callback. */
  method Call(tm: Timer, now: nat, r: nat, ghost cs: seq<Callback>, ghost begun: bool)
      returns (sends: seq<bool>, ghost e: Event, ghost c: Callback)
    requires tm.Running() && tm.due <= now && Aimed(tm, cs, begun) && Chained(tm.w, cs)
    modifies tm
    ensures tm.Running() && tm.Limits() == old(tm.Limits()) && tm.k == old(tm.k) && tm.due == now + tm.ctInterval
    ensures sends == if e.Transmit? then [old(tm.live).heard < tm.k] else []
    ensures Allowed(tm.Limits(), old(tm.live), e) && tm.live == Next(tm.Limits(), old(tm.live), e) && !e.Reset?
    ensures Comes(tm.compensate, tm.Limits(), old(tm.live), now, r, e)
    ensures c == Callback(begun, old(tm.due), old(Aim(tm)), now, Aim(tm), tm.ctInterval)
    ensures tm.ctInterval == Waited(tm.w, Aim(tm), now)
    ensures Chained(tm.w, cs + [c]) && Aimed(tm, cs + [c], false)
    ensures c.Ordered() && (!tm.compensate && c.Late() < Half(tm.w) ==> c.Right())
  {
    hide Pow2, Wrap, Waited, OnTime, Half, IMinIsBad, Shift, Tolerable, GetT;
    var fires := tm.pending == Firing;
    if fires {
      var transmit := tm.Fire(now, false);
      sends, e := [transmit], Transmit;
    } else {
      tm.DoubleInterval(now, r);
      sends := [];
      e := Expire(if tm.compensate then old(tm.live).begin + old(tm.live).size else now, tm.live.t);
    }
    c := Callback(begun, old(tm.due), old(Aim(tm)), now, Aim(tm), tm.ctInterval);
    WaitComing(tm.w, Aim(tm), now);
    WaitExactly(tm.w, Aim(tm), now);
    TolerableIs(tm.w, old(Aim(tm)), now, Aim(tm));
    SmallTolerable(tm.w, c.Lag(), c.Gap());
    ChainedMore(tm.w, cs, c);
  }

  /** A consistent message. */
  method Listen(tm: Timer, ghost cs: seq<Callback>, ghost begun: bool) returns (ghost e: Event)
    requires tm.Running() && Aimed(tm, cs, begun)
    modifies tm`c, tm`live
    ensures tm.Running() && Aimed(tm, cs, begun) && e == Hear && tm.live == Next(tm.Limits(), old(tm.live), Hear)
  {
    tm.Consistency();
    e := Hear;
  }

  /** An inconsistent message. */
  method Disturb(tm: Timer, now: nat, r: nat, due: nat, ghost cs: seq<Callback>, ghost begun: bool)
      returns (due': nat, ghost begun': bool)
    requires tm.Running() && tm.due == due && Aimed(tm, cs, begun)
    modifies tm
    ensures tm.Running() && tm.Limits() == old(tm.Limits()) && tm.k == old(tm.k)
    ensures tm.due == due' && Aimed(tm, cs, begun')
    ensures if old(tm.live).size == tm.iMin then due' == due && begun' == begun && tm.ctInterval == old(tm.ctInterval)
      else due' == now + tm.live.t && begun' && tm.ctInterval == tm.live.t
    ensures var e := Reset(now, GetT(old(tm.iMin), r));
      Allowed(tm.Limits(), old(tm.live), e) && tm.live == Next(tm.Limits(), old(tm.live), e)
  {
    hide Pow2, Wrap, Half, IMinIsBad, Shift, GetT;
    var atMinimum := tm.iCur == tm.iMin;
    tm.Inconsistency(now, r);
    due', begun' := if atMinimum then due else now + tm.ctInterval, begun || !atMinimum;
  }

  lemma WaitComing(w: nat, at: nat, now: nat)
    requires w > 0
    ensures now <= at ==> Waited(w, at, now) == at - now
  {}

  lemma TolerableIs(w: nat, aim: nat, now: nat, at: nat)
    requires w > 0 && aim <= now && aim <= at
    ensures Tolerable(w, now - aim, at - aim) <==> OnTime(w, at, now)
    ensures Until(at, now) == at - now + Behind(now - aim, at - aim)
  {
    PowUp(w);
    hide Pow2;
    DivMod(0, 0, 0, Pow2(w));
  }

  /** One decision for each transmission that is due: it is sent exactly if fewer messages than k were heard. */
  ghost predicate Suppressed(p: Params, s: Interval, k: nat, es: seq<Event>, sent: seq<bool>) {
    && |sent| == Transmissions(es)
    && forall i: nat | i < |es| && es[i].Transmit? :: SuppressedAt(p, s, k, es, sent, i)
  }

  ghost predicate SuppressedAt(p: Params, s: Interval, k: nat, es: seq<Event>, sent: seq<bool>, i: nat)
    requires i < |es|
  {
    var j := Transmissions(es[..i]);
    j < |sent| && (sent[j] <==> HeardSince(p, s, es[..i]) < k)
  }

  lemma NoneSuppressed(p: Params, s: Interval, k: nat)
    ensures Suppressed(p, s, k, [], [])
  {}

  lemma SuppressedMore(p: Params, s: Interval, k: nat, es: seq<Event>, sent: seq<bool>, e: Event, sends: seq<bool>)
    requires Suppressed(p, s, k, es, sent)
    requires sends == if e.Transmit? then [HeardSince(p, s, es) < k] else []
    ensures Suppressed(p, s, k, es + [e], sent + sends)
  {
    hide HeardSince, Transmissions;
    var more := es + [e];
    TransmissionsMore(es, e);
    forall i: nat | i < |more| && more[i].Transmit? ensures SuppressedAt(p, s, k, more, sent + sends, i) {
      assert more[..i] == es[..i];
      if i < |es| {
        assert SuppressedAt(p, s, k, es, sent, i);
      } else {
        assert es[..i] == es;
      }
    }
  }

  /** One happening. */
  method Happen(tm: Timer, ghost q: Setup, h: Happening, now: nat, due: nat, ghost cs: seq<Callback>,
                ghost begun: bool)
      returns (now': nat, due': nat, sends: seq<bool>, ghost e: Event, ghost cs': seq<Callback>, ghost begun': bool)
    requires tm.Running() && tm.due == due && Aimed(tm, cs, begun) && Chained(tm.w, cs)
    requires q == Setup(tm.w, tm.compensate, tm.Limits(), q.first)
    modifies tm
    ensures tm.Running() && tm.Limits() == old(tm.Limits()) && tm.k == old(tm.k) && tm.due == due'
    ensures sends == if e.Transmit? then [old(tm.live).heard < tm.k] else []
    ensures Allowed(q.p, old(tm.live), e) && tm.live == Next(q.p, old(tm.live), e)
    ensures e.Reset? <==> h.Clash?
    ensures tm.compensate && e.Expire? ==> e.begin == old(tm.live).begin + old(tm.live).size
    ensures var m, m' := Moment(now, due, begun), Moment(now', due', begun');
      && m' == Goes(q, m, old(tm.live), tm.live, h) && Means(q, old(tm.live), now', h, e)
      && cs' == (if h.Expired? then cs + [Called(q.w, m, m', old(tm.live), tm.live)] else cs)
    ensures Aimed(tm, cs', begun') && Chained(tm.w, cs')
    ensures !tm.compensate && h.Expired? && cs'[|cs|].now < cs'[|cs|].due + Half(tm.w) ==> cs'[|cs|].Right()
  {
    hide Pow2, Wrap, Waited, OnTime, Half, IMinIsBad, Shift, Chained, Aimed, Next, GetT, SecondHalf;
    now', due', sends, cs', begun' := now, due, [], cs, begun;
    match h {
      case Heard =>
        e := Listen(tm, cs, begun);
      case Clash(wait, r) =>
        now' := now + wait;
        e := Reset(now', GetT(tm.iMin, r));
        due', begun' := Disturb(tm, now', r, due, cs, begun);
      case Expired(late, r) =>
        now' := (if now <= due then due else now) + late;
        ghost var c;
        sends, e, c := Call(tm, now', r, cs, begun);
        due', cs', begun' := now' + tm.ctInterval, cs + [c], false;
    }
  }

  /**
   * The timer goes through the steps of the algorithm and nothing else: its interval is the one that a run of RFC 6206
   * gives, each of its steps allowed; without inconsistencies it has doubled once per expiry up to the maximum, and
   * with compensation each interval began where the one before ended. Its events and callbacks are those of what
   * happened, and it waits for what they leave it to wait for. The callbacks are chained, so that AllRight tells when
   * all of their waits are right; without compensation, each is right that comes less than half of the clock's range
   * late. Its counter is the number of consistent messages in the interval, up to what a byte holds, and what is due is
   * transmitted exactly if fewer than k were heard.
   */
  method RunTimer(tm: Timer, now0: nat, rand: nat, rand2: nat, hs: seq<Happening>)
      returns (sent: seq<bool>, ghost first: Interval, ghost es: seq<Event>, ghost cs: seq<Callback>)
    requires tm.Configured()
    modifies tm
    ensures tm.Running() && tm.Limits() == old(tm.Limits()) && tm.k == old(tm.k)
    ensures Sound(tm.Limits(), first)
    ensures var p := tm.Limits();
      first == Interval(now0, p.iMin + rand % (p.max - p.iMin + 1), first.t, 0, false)
    ensures Drawn(first.t, first.size, rand2)
    ensures AllAllowed(tm.Limits(), first, es) && tm.live == Run(tm.Limits(), first, es)
    ensures !Clashes(hs) ==> NoReset(es) && tm.iCur == Min(first.size * Pow2(Expiries(es)), tm.iMaxAbs)
    ensures !Clashes(hs) && tm.compensate ==>
      && Seamless(tm.Limits(), first, es)
      && tm.iStart == Wrap(tm.w, now0 + Elapsed(tm.Limits(), first.size, Expiries(es)))
    ensures tm.c == Min(HeardSince(tm.Limits(), first, es), 255) && Suppressed(tm.Limits(), first, tm.k, es, sent)
    ensures Through(tm, first, hs, es, cs) && Chained(tm.w, cs)
    ensures !tm.compensate ==> forall k | 0 <= k < |cs| && cs[k].now < cs[k].due + Half(tm.w) :: cs[k].Right()
  {
    hide *;
    first := Start(tm, now0, rand, rand2);
    ghost var p, q := tm.Limits(), Setup(tm.w, tm.compensate, tm.Limits(), tm.live);
    var now, due := now0, now0 + tm.ctInterval;
    sent, es, cs := [], [], [];
    ghost var begun := true;
    RunEmpty(p, first);
    NoneSuppressed(p, first, tm.k);
    var i := 0;
    while i < |hs|
      invariant 0 <= i <= |hs| && |es| == i && tm.Running() && tm.Limits() == p && tm.k == old(tm.k) && due == tm.due
      invariant Suppressed(p, first, tm.k, es, sent)
      invariant AllAllowed(p, first, es) && tm.live == Run(p, first, es)
      invariant !Clashes(hs[..i]) ==> NoReset(es) && (tm.compensate ==> Seamless(p, first, es))
      invariant Traced(q, hs[..i], es, cs) && After(q, hs[..i], es) == Moment(now, due, begun)
      invariant Chained(tm.w, cs) && Aimed(tm, cs, begun)
      invariant !tm.compensate ==> forall k | 0 <= k < |cs| && cs[k].now < cs[k].due + Half(tm.w) :: cs[k].Right()
    {
      assert hs[..i + 1] == hs[..i] + [hs[i]];
      ClashesMore(hs[..i], hs[i]);
      ghost var e, cs0 := Hear, cs;
      CountsSince(p, first, es);
      var sends;
      now, due, sends, e, cs, begun := Happen(tm, q, hs[i], now, due, cs, begun);
      RunMore(p, first, es, e);
      TracedMore(q, hs[..i], es, cs0, hs[i], e, cs);
      SuppressedMore(p, first, tm.k, es, sent, e, sends);
      sent, es := sent + sends, es + [e];
      i := i + 1;
    }
    assert hs[..i] == hs;
    CountsSince(p, first, es);
    Passed(tm, first, hs, es, cs);
    Fields(tm);
    if !Clashes(hs) {
      Doubles(p, first, es);
      if tm.compensate { SeamlessBegin(p, first, es); }
    }
  }

  /** The fields of a running timer are those of its interval. */
  lemma Fields(tm: Timer)
    requires tm.Running()
    ensures tm.w > 0 && tm.iCur == tm.live.size && tm.iStart == Wrap(tm.w, tm.live.begin)
    ensures tm.c == Min(tm.live.heard, 255)
    ensures tm.Limits() == Params(tm.iMin, tm.iMaxAbs) && tm.iMin <= tm.live.size <= tm.iMaxAbs
  {}

  method Start(tm: Timer, now: nat, rand: nat, rand2: nat) returns (ghost first: Interval)
    requires tm.Configured()
    modifies tm
    ensures tm.Running() && tm.Limits() == old(tm.Limits()) && tm.k == old(tm.k)
    ensures first == tm.live && Sound(tm.Limits(), first)
    ensures var p := tm.Limits();
      && p.iMin <= first.size <= p.max
      && first == Interval(now, p.iMin + rand % (p.max - p.iMin + 1), first.t, 0, false)
      && Drawn(first.t, first.size, rand2)
    ensures tm.due == now + tm.ctInterval && tm.w > 0
    ensures var q := Setup(tm.w, tm.compensate, tm.Limits(), first);
      && Aimed(tm, [], true) && Chained(tm.w, []) && Traced(q, [], [], [])
      && After(q, [], []) == Moment(now, tm.due, true)
  {
    hide Pow2, Wrap, Half, IMinIsBad, Shift;
    tm.Set(now, rand, rand2);
    first := tm.live;
    assert Calls([]) == 0;
  }

  lemma RunEmpty(p: Params, s: Interval)
    ensures Run(p, s, []) == s && AllAllowed(p, s, []) && Seamless(p, s, []) && NoReset([])
  {}

  lemma ClashesMore(hs: seq<Happening>, h: Happening)
    ensures Clashes(hs + [h]) <==> Clashes(hs) || h.Clash?
  {
    assert (hs + [h])[|hs|] == h;
    assert forall i :: 0 <= i < |hs| ==> (hs + [h])[i] == hs[i];
  }

  /** One event more. */
  lemma {:induction false} RunMore(p: Params, s: Interval, es: seq<Event>, e: Event)
    ensures Run(p, s, es + [e]) == Next(p, Run(p, s, es), e)
    ensures AllAllowed(p, s, es + [e]) <==> AllAllowed(p, s, es) && Allowed(p, Run(p, s, es), e)
    ensures Seamless(p, s, es + [e]) <==>
      && Seamless(p, s, es)
      && (e.Expire? ==> e.begin == Run(p, s, es).begin + Run(p, s, es).size)
    ensures NoReset(es + [e]) <==> NoReset(es) && !e.Reset?
    decreases |es|
  {
    var more := es + [e];
    assert more[|es|] == e && forall i :: 0 <= i < |es| ==> more[i] == es[i];
    if es == [] {
      assert more[1..] == [];
      RunEmpty(p, Next(p, s, e));
    } else {
      assert more[0] == es[0] && more[1..] == es[1..] + [e];
      RunMore(p, Next(p, s, es[0]), es[1..], e);
    }
  }

  /**
   * Delays add up. On a clock of 16 bits with compensation, both callbacks of an interval are less than half of the
   * clock's range (32768 ticks) late; the transmission of the next interval, due 200 ticks after the start, is past
   * then, and is scheduled at once if and only if the two delays are at most 32918 ticks together.
   */
  method LateTwice(late1: nat, late2: nat) returns (tm: Timer, now: nat)
    requires 150 <= late1 < 0x8000 && late2 < 0x8000
    ensures tm.Running() && !tm.live.fired && tm.live.begin + tm.live.t == 200
    ensures now == 50 + late1 + late2 && now >= 200 && tm.due == now + tm.ctInterval
    ensures tm.ctInterval == Until(200, now) <==> late1 + late2 <= 0x8000 + 150
  {
    hide Waited, IMinIsBad, IPairIsBad, Shift;
    Powers();
    tm := new Timer(16, true);
    SmallPair();
    var ok := tm.Config(Generic, 100, 1, 1);
    assert tm.iMaxAbs == 200;
    tm.Set(0, 0, 0);
    var transmit := tm.Fire(50 + late1, false);
    assert tm.due == 50 + late1;
    now := 50 + late1 + late2;
    tm.DoubleInterval(now, 0);
    assert tm.live.size == 200;
    WaitExactly(16, 200, now);
  }

  lemma SmallPair()
    ensures !IMinIsBad(16, 100) && !IPairIsBad(16, 100, 1) && Shift(100, 1) == 200
  {
    Powers();
    assert Shift(100, 1) == 2 * Shift(100, 0);
  }
}
