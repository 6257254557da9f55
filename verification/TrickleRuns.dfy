/**
 * The Trickle algorithm as section 4.2 of RFC 6206 describes it, on a clock that never wraps,
 * and what holds over all its runs.
 */
module TrickleRuns {
  import opened Numbers
  import opened Bits

  datatype Params = Params(iMin: nat, max: nat)
  {
    ghost predicate Valid() { 2 <= iMin <= max }
  }

  /** One interval: it begins at `begin`, lasts `size`, and its transmission is due t after its begin. */
  datatype Interval = Interval(begin: nat, size: nat, t: nat, heard: nat, fired: bool)

  datatype Event =
    | Hear
    | Reset(now: nat, t: nat)
    | Transmit
    | Expire(begin: nat, t: nat)

  function Next(p: Params, s: Interval, e: Event): Interval {
    match e
    case Hear => s.(heard := s.heard + 1)
    case Reset(now, t) => if s.size == p.iMin then s else Interval(now, p.iMin, t, 0, false)
    case Transmit => s.(fired := true)
    case Expire(begin, t) => Interval(begin, Min(2 * s.size, p.max), t, 0, false)
  }

  /** t is drawn from the second half of an interval of the given size. */
  ghost predicate SecondHalf(t: nat, size: nat) { size / 2 <= t < size }

  ghost predicate Allowed(p: Params, s: Interval, e: Event) {
    match e
    case Hear => true
    case Reset(now, t) => SecondHalf(t, p.iMin)
    case Transmit => !s.fired
    case Expire(begin, t) => s.fired && SecondHalf(t, Min(2 * s.size, p.max))
  }

  ghost predicate Sound(p: Params, s: Interval) {
    p.iMin <= s.size <= p.max && SecondHalf(s.t, s.size)
  }

  ghost function Run(p: Params, s: Interval, es: seq<Event>): Interval
    decreases es
  {
    if es == [] then s else Run(p, Next(p, s, es[0]), es[1..])
  }

  ghost predicate AllAllowed(p: Params, s: Interval, es: seq<Event>)
    decreases es
  {
    es == [] || (Allowed(p, s, es[0]) && AllAllowed(p, Next(p, s, es[0]), es[1..]))
  }

  ghost function Expiries(es: seq<Event>): nat {
    if es == [] then 0 else (if es[0].Expire? then 1 else 0) + Expiries(es[1..])
  }

  ghost function Transmissions(es: seq<Event>): nat {
    if es == [] then 0 else (if es[0].Transmit? then 1 else 0) + Transmissions(es[1..])
  }

  ghost function Heard(es: seq<Event>): nat {
    if es == [] then 0 else (if es[0].Hear? then 1 else 0) + Heard(es[1..])
  }

  ghost predicate NoReset(es: seq<Event>) { forall i :: 0 <= i < |es| ==> !es[i].Reset? }

  ghost predicate Quiet(es: seq<Event>) { NoReset(es) && Expiries(es) == 0 }

  /** Every interval begins where the one before ended. */
  ghost predicate Seamless(p: Params, s: Interval, es: seq<Event>)
    decreases es
  {
    es == [] ||
    ((es[0].Expire? ==> es[0].begin == s.begin + s.size) && Seamless(p, Next(p, s, es[0]), es[1..]))
  }

  /** The time taken by n intervals that start at the given size. */
  ghost function Elapsed(p: Params, size: nat, n: nat): nat
    decreases n
  {
    if n == 0 then 0 else size + Elapsed(p, Min(2 * size, p.max), n - 1)
  }

  /** Over every run the interval stays between its bounds and t in its second half. */
  lemma {:induction false} RunsStaySound(p: Params, s: Interval, es: seq<Event>)
    requires p.Valid() && Sound(p, s) && AllAllowed(p, s, es)
    ensures Sound(p, Run(p, s, es))
    decreases es
  {
    if es != [] {
      RunsStaySound(p, Next(p, s, es[0]), es[1..]);
    }
  }

  /** n expiries without a reset double the interval n times, up to its maximum. */
  lemma {:induction false} Doubles(p: Params, s: Interval, es: seq<Event>)
    requires s.size <= p.max && NoReset(es)
    ensures Run(p, s, es).size == Min(s.size * Pow2(Expiries(es)), p.max)
    decreases es
  {
    var n := Expiries(es);
    if es == [] {
      assert Pow2(0) == 1;
    } else {
      var s' := Next(p, s, es[0]);
      assert NoReset(es[1..]);
      hide NoReset;
      Doubles(p, s', es[1..]);
      if es[0].Expire? {
        var q := Pow2(n - 1);
        assert Pow2(n) == 2 * q;
        hide Pow2, Run, Expiries;
        DoubledCap(s.size, p.max, q);
      }
    }
  }

  lemma DoubledCap(size: nat, max: nat, q: nat)
    requires q > 0
    ensures Min(Min(2 * size, max) * q, max) == Min(size * (2 * q), max)
  {
    assert 2 * size * q == size * (2 * q);
    if 2 * size > max {
      MulMono(1, q, max);
      MulMono(max, 2 * size, q);
    }
  }

  lemma {:induction false} RunSplit(p: Params, s: Interval, a: seq<Event>, b: seq<Event>)
    ensures Run(p, s, a + b) == Run(p, Run(p, s, a), b)
    decreases a
  {
    if a == [] {
      assert a + b == b;
    } else {
      assert (a + b)[0] == a[0] && (a + b)[1..] == a[1..] + b;
      RunSplit(p, Next(p, s, a[0]), a[1..], b);
    }
  }

  /** After a reset the interval is the smallest one, doubled once for every expiry since. */
  lemma SizeSinceReset(p: Params, s: Interval, before: seq<Event>, r: Event, after: seq<Event>)
    requires p.Valid() && r.Reset? && NoReset(after)
    ensures Run(p, s, before + [r] + after).size == Min(p.iMin * Pow2(Expiries(after)), p.max)
  {
    RunSplit(p, s, before + [r], after);
    RunSplit(p, s, before, [r]);
    var m := Run(p, s, before);
    assert Run(p, m, [r]) == Next(p, m, r) by {
      assert [r][1..] == [];
      assert Run(p, Next(p, m, r), []) == Next(p, m, r);
    }
    hide Run;
    Doubles(p, Next(p, m, r), after);
  }

  /** With compensation nothing is lost: after n expiries the interval begins exactly n lengths later. */
  lemma {:induction false} SeamlessBegin(p: Params, s: Interval, es: seq<Event>)
    requires NoReset(es) && Seamless(p, s, es)
    ensures Run(p, s, es).begin == s.begin + Elapsed(p, s.size, Expiries(es))
    decreases es
  {
    if es != [] {
      assert NoReset(es[1..]);
      SeamlessBegin(p, Next(p, s, es[0]), es[1..]);
    }
  }

  /** Exactly one transmission falls into every interval that runs to its end. */
  lemma {:induction false} OnePerInterval(p: Params, s: Interval, es: seq<Event>)
    requires NoReset(es) && AllAllowed(p, s, es)
    ensures Transmissions(es) + (if s.fired then 1 else 0) == Expiries(es) + (if Run(p, s, es).fired then 1 else 0)
    decreases es
  {
    if es != [] {
      assert NoReset(es[1..]);
      OnePerInterval(p, Next(p, s, es[0]), es[1..]);
    }
  }

  /** Within an interval the counter is the number of consistent transmissions heard in it. */
  lemma {:induction false} CountsThisInterval(p: Params, s: Interval, es: seq<Event>)
    requires Quiet(es)
    ensures Run(p, s, es).heard == s.heard + Heard(es)
    ensures Run(p, s, es).begin == s.begin && Run(p, s, es).t == s.t && Run(p, s, es).size == s.size
    decreases es
  {
    if es != [] {
      assert NoReset(es[1..]);
      CountsThisInterval(p, Next(p, s, es[0]), es[1..]);
    }
  }

  /** The interval goes on: it does not expire, and no message resets it, as it is the smallest one already. */
  ghost predicate Stays(p: Params, size: nat, e: Event) { !e.Expire? && (e.Reset? ==> size == p.iMin) }

  /** The consistent messages since the last expiry, or the last reset that was one, or the start. */
  ghost function HeardSince(p: Params, s: Interval, es: seq<Event>): nat
    decreases |es|
  {
    if es == [] then s.heard
    else
      var n := |es| - 1;
      if Stays(p, Run(p, s, es[..n]).size, es[n]) then HeardSince(p, s, es[..n]) + if es[n].Hear? then 1 else 0
      else 0
  }

  lemma RunLast(p: Params, s: Interval, es: seq<Event>, e: Event)
    ensures Run(p, s, es + [e]) == Next(p, Run(p, s, es), e)
  {
    RunSplit(p, s, es, [e]);
    var m := Run(p, s, es);
    assert [e][1..] == [] && Run(p, Next(p, m, e), []) == Next(p, m, e);
    assert Run(p, m, [e]) == Run(p, Next(p, m, e), [e][1..]);
  }

  /** So much is the counter after every run: each interval starts to count at zero. */
  lemma {:induction false} CountsSince(p: Params, s: Interval, es: seq<Event>)
    ensures Run(p, s, es).heard == HeardSince(p, s, es)
    decreases |es|
  {
    if es != [] {
      var n := |es| - 1;
      assert es == es[..n] + [es[n]];
      CountsSince(p, s, es[..n]);
      RunLast(p, s, es[..n], es[n]);
      hide Run;
    }
  }

  /** Whatever came before an expiry, or a reset that was one, only what is heard behind it counts. */
  lemma CountsAnew(p: Params, s: Interval, before: seq<Event>, e: Event, after: seq<Event>)
    requires !Stays(p, Run(p, s, before).size, e)
    requires forall i | 0 <= i < |after| :: Stays(p, Run(p, s, before + [e]).size, after[i])
    ensures Run(p, s, before + [e] + after).heard == Heard(after)
  {
    var m := Run(p, s, before + [e]);
    RunLast(p, s, before, e);
    RunSplit(p, s, before + [e], after);
    hide Run;
    CountsInside(p, m, after);
  }

  lemma {:induction false} CountsInside(p: Params, s: Interval, es: seq<Event>)
    requires forall i | 0 <= i < |es| :: Stays(p, s.size, es[i])
    ensures Run(p, s, es).heard == s.heard + Heard(es) && Run(p, s, es).size == s.size
    decreases es
  {
    if es != [] { CountsInside(p, Next(p, s, es[0]), es[1..]); }
  }

  lemma {:induction false} TransmissionsMore(es: seq<Event>, e: Event)
    ensures Transmissions(es + [e]) == Transmissions(es) + if e.Transmit? then 1 else 0
    decreases |es|
  {
    var more := es + [e];
    if es == [] {
      assert more[1..] == [];
    } else {
      assert more[1..] == es[1..] + [e];
      TransmissionsMore(es[1..], e);
    }
  }

  /**
   * The listen-only half: between the times due in an interval and in the seamless one after it
   * lies at least half of the later interval.
   */
  lemma ListenOnly(p: Params, s: Interval, begin: nat, t: nat)
    requires Sound(p, s) && s.fired && begin == s.begin + s.size && Allowed(p, s, Expire(begin, t))
    ensures var n := Next(p, s, Expire(begin, t));
      n.begin + n.t > s.begin + s.t + n.size / 2
  {
  }
}
