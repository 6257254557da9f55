/** The table of neighbour phases of MiCMAC (mcphase.c), and why its predictions can be trusted. */
module PhaseLock {
  import opened Numbers
  import opened Bits
  import opened Channels
  import opened Wrappers

  const MAX_NOACKS: nat := 16

  /** struct mcphase, without drift and with the timer as an oracle. */
  datatype Phase = Phase(time: nat, noacks: nat, channelseed: nat)

  datatype Status = TxOk | TxNoAck | TxOther

  /** One call of mcphase_update for a neighbour, or its eviction for the sake of another. `room` says whether the
      neighbour table has a slot for a new entry, after an eviction if need be, and `expired` whether the timer that the
      first missing ACK started has expired. */
  datatype Event = Update(time: nat, status: Status, seed: nat, room: bool, expired: bool) | Evicted {
    predicate Acked() { Update? && status == TxOk }

    predicate Missed() { Update? && status == TxNoAck }
  }

  /** What an event does to the entry of its neighbour. */
  function Updated(e: Option<Phase>, ev: Event): Option<Phase> {
    match ev
    case Evicted => None
    case Update(time, TxOk, seed, room, _) =>
      if e.None? && !room then None else Some(Phase(time, 0, seed))
    case Update(_, TxNoAck, _, _, expired) =>
      if e.None? then None
      else if U8(e.value.noacks + 1) >= MAX_NOACKS || expired then None
      else Some(e.value.(noacks := U8(e.value.noacks + 1)))
    case Update(_, TxOther, _, _, _) => e
  }

  datatype WaitResult = PhaseUnknown | PhaseKnown(p: Prediction)

  class PhaseTable {
    var phases: map<nat, Phase>

    constructor ()
      ensures phases == map[]
    {
      phases := map[];
    }

    function Entry(neighbor: nat): Option<Phase>
      reads this
    {
      if neighbor in phases then Some(phases[neighbor]) else None
    }

    /** mcphase_update */
    method Update(neighbor: nat, ev: Event)
      requires ev.Update?
      modifies this
      ensures Entry(neighbor) == Updated(old(Entry(neighbor)), ev)
      // an ACK is recorded if there is room or an entry; a missing one is counted, and the sixteenth in a row or one
      // behind the timer drops the entry; nothing else does anything
      ensures ev.Acked() ==>
        if ev.room || old(neighbor in phases) then neighbor in phases && phases[neighbor] == Phase(ev.time, 0, ev.seed)
        else neighbor !in phases
      ensures ev.Missed() && old(neighbor in phases) && old(phases[neighbor]).noacks < MAX_NOACKS ==>
        var e := old(phases[neighbor]);
        if ev.expired || e.noacks == 15 then neighbor !in phases
        else neighbor in phases && phases[neighbor] == e.(noacks := e.noacks + 1)
      ensures ev.Missed() && old(neighbor !in phases) ==> neighbor !in phases
      ensures !ev.Acked() && !ev.Missed() ==> Entry(neighbor) == old(Entry(neighbor))
      ensures forall n | n != neighbor :: Entry(n) == old(Entry(n))
    {
      if neighbor in phases {
        var e := phases[neighbor];
        if ev.status == TxOk {
          e := e.(time := ev.time, channelseed := ev.seed);
        }
        if ev.status == TxNoAck {
          e := e.(noacks := U8(e.noacks + 1));
          if e.noacks >= MAX_NOACKS || ev.expired {
            phases := phases - {neighbor};
            return;
          }
        } else if ev.status == TxOk {
          e := e.(noacks := 0);
        }
        phases := phases[neighbor := e];
      } else {
        if ev.status == TxOk && ev.room {
          phases := phases[neighbor := Phase(ev.time, 0, ev.seed)];
        }
      }
    }

    /** The neighbour table gives the slot of this one to another neighbour. */
    method Evict(neighbor: nat)
      modifies this
      ensures Entry(neighbor) == Updated(old(Entry(neighbor)), Evicted) && neighbor !in phases
      ensures forall n | n != neighbor :: Entry(n) == old(Entry(n))
    {
      phases := phases - {neighbor};
    }

    /** The search and the arithmetic of mcphase_wait. */
    method Wait(neighbor: nat, now: nat, cycle: pos, guardTime: nat) returns (r: WaitResult)
      ensures r == if neighbor in phases
        then PhaseKnown(Predict(phases[neighbor].time, now, cycle, guardTime, phases[neighbor].channelseed))
        else PhaseUnknown
    {
      if neighbor !in phases {
        return PhaseUnknown;
      }
      var e := phases[neighbor];
      var sync := e.time;
      var wait;
      if And(cycle, cycle - 1) == 0 {
        wait := And(U32(sync - now), cycle - 1);
      } else {
        wait := cycle - U32(now - sync) % cycle;
      }
      var channeldiff := U8(U32(now - sync) / cycle);
      if wait < guardTime {
        wait := U32(wait + cycle);
        channeldiff := U8(channeldiff + 1);
      }
      r := PhaseKnown(Prediction(wait, U8(e.channelseed + channeldiff)));
    }
  }

  /** A receiver: its row, its hop counter and the time at wake-up 0, and its cycle of 2^k ticks. */
  datatype Receiver = Receiver(table: HopTable, a: nat, start: nat, first: nat, k: nat) {
    ghost predicate Ok() {
      table.Valid() && 0x100 % table.cols == 0 && k <= 24
    }

    function Time(m: nat): nat {
      first + m * Pow2(k)
    }
  }

  /** The sender was acknowledged at a wake-up of the receiver: it recorded its time, and the place of its
      channel in the row. */
  ghost predicate Locked(r: Receiver, time: nat, seed: nat, m: nat)
    requires r.Ok()
  {
    time == U32(r.Time(m)) && SeedOf(r.table, r.a, r.start, m, seed)
  }

  /** Every ACK up to now comes from a wake-up of the receiver: wakes[i] is the one of event i. */
  ghost predicate Truthful(r: Receiver, evs: seq<Event>, wakes: seq<nat>, now: nat)
    requires r.Ok()
  {
    && |wakes| == |evs|
    && forall i | 0 <= i < |evs| && evs[i].Acked() ::
         Locked(r, evs[i].time, evs[i].seed, wakes[i]) && r.Time(wakes[i]) <= now
  }

  /** The entry after a run. */
  function After(evs: seq<Event>): Option<Phase> {
    if evs == [] then None else Updated(After(evs[..|evs| - 1]), evs[|evs| - 1])
  }

  /** Missing ACKs since the last good one. */
  function Missing(evs: seq<Event>): nat {
    if evs == [] || evs[|evs| - 1].Acked() then 0
    else Missing(evs[..|evs| - 1]) + if evs[|evs| - 1].Missed() then 1 else 0
  }

  /** Event k is an ACK that finds room. */
  predicate Enters(evs: seq<Event>, k: nat)
    requires k < |evs|
  {
    evs[k].Acked() && evs[k].room
  }

  /** Event k is an eviction, or a missing ACK behind the timer, or the sixteenth since the last good one. */
  predicate Drops(evs: seq<Event>, k: nat)
    requires k < |evs|
  {
    evs[k].Evicted? || (evs[k].Missed() && (evs[k].expired || Missing(evs[..k + 1]) >= 16))
  }

  /** Event j has brought an entry that no event since has dropped. */
  ghost predicate Kept(evs: seq<Event>, j: nat)
    requires j < |evs|
  {
    Enters(evs, j) && forall k: nat | j < k < |evs| :: !Drops(evs, k)
  }

  ghost predicate Known(evs: seq<Event>) { exists j: nat | j < |evs| :: Kept(evs, j) }

  /**
   * When there is an entry can be told from the events alone: an ACK has found room, and nothing has dropped the entry
   * since. Everything else leaves it alone, ACKs without room and other statuses among them.
   */
  lemma {:induction false} KnownExactly(evs: seq<Event>)
    ensures After(evs).Some? <==> Known(evs)
    ensures After(evs).Some? ==> After(evs).value.noacks == Missing(evs) < 16
  {
    if evs != [] {
      var n := |evs| - 1;
      assert evs == evs[..n] + [evs[n]] && evs[..n + 1] == evs;
      KnownExactly(evs[..n]);
      KnownMore(evs[..n], evs[n]);
      hide Known;
    }
  }

  lemma KnownMore(before: seq<Event>, ev: Event)
    ensures var evs, n := before + [ev], |before|;
      Known(evs) <==> (ev.Acked() && ev.room) || (Known(before) && !Drops(evs, n))
  {
    hide Drops;
    var evs, n := before + [ev], |before|;
    forall j: nat | j < n ensures Kept(evs, j) <==> Kept(before, j) && !Drops(evs, n) {
      KeptMore(before, ev, j);
    }
    assert Kept(evs, n) <==> Enters(evs, n);
    if j: nat :| j < n && Kept(before, j) { assert Kept(evs, j) <==> !Drops(evs, n); }
  }

  lemma KeptMore(before: seq<Event>, ev: Event, j: nat)
    requires j < |before|
    ensures Kept(before + [ev], j) <==> Kept(before, j) && !Drops(before + [ev], |before|)
  {
    var evs, n := before + [ev], |before|;
    forall k: nat | k < n ensures Drops(evs, k) <==> Drops(before, k) {
      assert evs[..k + 1] == before[..k + 1];
    }
    hide Drops;
    if Kept(before, j) && !Drops(evs, n) {
      forall k: nat | j < k < |evs| ensures !Drops(evs, k) {
        if k < n { assert !Drops(before, k); }
      }
    }
    if Kept(evs, j) {
      forall k: nat | j < k < n ensures !Drops(before, k) { assert !Drops(evs, k); }
    }
  }

  /** The wake-up of the last ACK. */
  function LastWake(evs: seq<Event>, wakes: seq<nat>): nat
    requires |wakes| == |evs|
  {
    if evs == [] then 0
    else if evs[|evs| - 1].Acked() then wakes[|evs| - 1]
    else LastWake(evs[..|evs| - 1], wakes[..|evs| - 1])
  }

  /** In every run the entry, if there is one, is locked to the wake-up of the last ACK, and fewer than 16
      ACKs have been missing since. */
  lemma {:induction false} StaysLocked(r: Receiver, evs: seq<Event>, wakes: seq<nat>, now: nat)
    requires r.Ok() && Truthful(r, evs, wakes, now) && After(evs).Some?
    ensures After(evs).value.noacks == Missing(evs) < MAX_NOACKS
    ensures Locked(r, After(evs).value.time, After(evs).value.channelseed, LastWake(evs, wakes))
    ensures r.Time(LastWake(evs, wakes)) <= now
  {
    var n := |evs| - 1;
    if !evs[n].Acked() {
      StaysLocked(r, evs[..n], wakes[..n], now);
    }
  }

  /** Whatever wake-up an entry is locked to, a prediction from it is right exactly as often as one that knows
      the unwrapped time of that wake-up. */
  lemma LockedPredicts(r: Receiver, time: nat, seed: nat, m: nat, now: nat, guardTime: nat)
    requires r.Ok() && DistinctRow(r.table, r.a) && Locked(r, time, seed, m) && r.Time(m) <= now
      && guardTime <= Pow2(r.k)
    ensures Meets(r.table, r.a, r.start, m, now - r.Time(m), Pow2(r.k), guardTime,
                  Predict(time, U32(now), Pow2(r.k), guardTime, seed))
      <==> ((now - r.Time(m)) % Pow2(r.k) != 0 || r.table.cols == 1)
  {
    hide Predict, Meets, U32, Pow2, DistinctRow;
    PredictsExactly(r.table, r.a, r.start, m, seed, r.Time(m), now - r.Time(m), r.k, guardTime);
  }

  /** So in every run a prediction from the table meets the receiver, counted from the wake-up of the last ACK,
      if and only if it is not made a whole number of cycles after that (or there is one channel only). */
  lemma RunPredicts(r: Receiver, evs: seq<Event>, wakes: seq<nat>, now: nat, guardTime: nat)
    requires r.Ok() && DistinctRow(r.table, r.a) && guardTime <= Pow2(r.k)
    requires Truthful(r, evs, wakes, now) && After(evs).Some?
    ensures var e, m := After(evs).value, LastWake(evs, wakes);
      && r.Time(m) <= now
      && (Meets(r.table, r.a, r.start, m, now - r.Time(m), Pow2(r.k), guardTime,
                Predict(e.time, U32(now), Pow2(r.k), guardTime, e.channelseed))
          <==> ((now - r.Time(m)) % Pow2(r.k) != 0 || r.table.cols == 1))
  {
    hide Predict, Meets, U32, After, Pow2, LastWake, DistinctRow, Locked;
    StaysLocked(r, evs, wakes, now);
    var e := After(evs).value;
    LockedPredicts(r, e.time, e.channelseed, LastWake(evs, wakes), now, guardTime);
  }

  /** What happens to the table: an event of one neighbour. */
  datatype Happening = Happening(neighbor: nat, ev: Event)

  /** The events of one neighbour. */
  function Of(neighbor: nat, hs: seq<Happening>): seq<Event> {
    if hs == [] then []
    else Of(neighbor, hs[..|hs| - 1]) + if hs[|hs| - 1].neighbor == neighbor then [hs[|hs| - 1].ev] else []
  }

  /** The entries that a run of mcphase_update and of evictions leaves in the table are those the lemmas speak of. */
  method RunTable(hs: seq<Happening>) returns (table: PhaseTable)
    ensures forall n: nat :: table.Entry(n) == After(Of(n, hs))
    ensures forall n: nat :: n in table.phases <==> Known(Of(n, hs))
  {
    table := new PhaseTable();
    var i := 0;
    while i < |hs|
      invariant 0 <= i <= |hs| && fresh(table) && forall n: nat :: table.Entry(n) == After(Of(n, hs[..i]))
    {
      var h := hs[i];
      ghost var before := hs[..i];
      assert hs[..i + 1] == before + [h];
      if h.ev.Evicted? {
        table.Evict(h.neighbor);
      } else {
        table.Update(h.neighbor, h.ev);
      }
      i := i + 1;
      forall n: nat ensures table.Entry(n) == After(Of(n, hs[..i])) { OfMore(n, before, h); }
    }
    assert hs[..i] == hs;
    forall n: nat ensures n in table.phases <==> Known(Of(n, hs)) {
      KnownExactly(Of(n, hs));
      assert table.Entry(n) == After(Of(n, hs));
    }
  }

  lemma OfMore(neighbor: nat, hs: seq<Happening>, h: Happening)
    ensures After(Of(neighbor, hs + [h])) ==
      if h.neighbor == neighbor then Updated(After(Of(neighbor, hs)), h.ev) else After(Of(neighbor, hs))
  {
    assert (hs + [h])[..|hs|] == hs;
    var evs := Of(neighbor, hs);
    assert (evs + [h.ev])[..|evs|] == evs && evs + [] == evs;
  }
}
