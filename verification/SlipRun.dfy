/** Runs of the SLIP driver: bytes arriving between and during polls. */
module SlipRun {
  import opened Numbers
  import opened Cyclic
  import opened Streams
  import opened SlipCode
  import opened SlipRing
  import opened SlipDriver
  import opened SlipLossless

  /** At most one packet ends in the gap of the poll. */
  ghost predicate OneEnd(e: Event) { e.Polled? ==> Ends(e.arrivals(2)) < 2 }

  /**
   * Over any run in which no byte is given up, the packets handed out and those waiting are the packets of
   * the bytes received, in order, exactly when no two of them were run together; and none are if at most one
   * packet ends in the gap of every poll. If the packets are small enough and there is room for those handed out, no
   * byte is dropped and no two packets are run together exactly if the events are spaced, and then nothing is given up.
   */
  method Serve(d: Driver, es: seq<Event>, out: array<byte>)
      returns (got: seq<Packet>, ghost copies: seq<seq<byte>>, ghost ms: seq<Snapshot>)
    requires d.Valid() && out != d.rxbuf && d.past == History([], [], {}, 0)
    modifies d, d.rxbuf, out
    ensures d.Valid() && d.past.delivered == got
    ensures Trace(es, copies, ms, out.Length) && ms[0] == old(d.Now()) && ms[|es|] == d.Now()
    ensures forall i: nat | i < |es| ::
      ms[i].past.input <= ms[i + 1].past.input && Received(es[i], copies[i], Since(ms[i], ms[i + 1]))
    ensures d.past.lost == {} ==>
      && (got + d.View().Waiting() == Receive(d.past.input, []) <==> d.past.merged == 0)
      && Flat(got + d.View().Waiting()) == Flat(Receive(d.past.input, []))
    ensures (forall i :: 0 <= i < |es| ==> OneEnd(es[i])) ==> d.past.merged == 0
    ensures d.past.lost == {} && d.past.merged == 0 && d.View().Waiting() == [] ==>
      forall ps :: d.past.input == Stream(ps) ==> got == NonEmpty(ps)
    ensures out.Length >= d.rxbuf.Length ==> TooLong !in d.past.lost
    ensures Smooth(d.past.input, d.rxbuf.Length) && out.Length >= d.rxbuf.Length ==>
      && (AllSpaced(es, copies, ms, |es|) <==> Dropped !in d.past.lost && d.past.merged == 0)
      && (AllSpaced(es, copies, ms, |es|) ==>
            d.past.lost == {} && got + d.View().Waiting() == Receive(d.past.input, []))
  {
    hide *;
    AtFirst(d);
    got, copies, ms := [], [], [d.Now()];
    ghost var n := d.rxbuf.Length;
    var i := 0;
    while i < |es|
      invariant 0 <= i <= |es| && |copies| == i && |ms| == i + 1
      invariant d.Valid() && d.Sane() && d.past.delivered == got && ms[0] == old(d.Now()) && ms[i] == d.Now()
      invariant forall j: nat | j < i :: Happened(es[j], copies[j], ms[j], ms[j + 1], out.Length)
      invariant forall j: nat | j <= i :: Steady(ms[j])
      invariant (forall j :: 0 <= j < i ==> OneEnd(es[j])) ==> d.past.merged == 0
      invariant out.Length >= n ==> TooLong !in d.past.lost
    {
      ghost var copied;
      got, copied := Next(d, es[i], out, got);
      copies, ms := copies + [copied], ms + [d.Now()];
      i := i + 1;
    }
    TraceIs(es, copies, ms, out.Length);
    Concludes(d, got);
    if Smooth(d.past.input, n) && out.Length >= n {
      SpacedSoFar(es, copies, ms, out.Length, |es|);
      ConcludesSpaced(d.Now(), TakenBy(es, ms, |es|));
    }
  }

  lemma AtFirst(d: Driver)
    requires d.Valid() && d.past == History([], [], {}, 0)
    ensures d.Sane() && d.Now().view == View([], [], Ok) && d.Now().size == d.rxbuf.Length
    ensures d.Now().past == d.past && Steady(d.Now())
  {
    hide Slice;
    assert Scan([]) == Scanner([], [], Reading);
    assert d.past.delivered + d.View().Waiting() == d.View().Waiting();
  }

  lemma TraceIs(es: seq<Event>, copies: seq<seq<byte>>, ms: seq<Snapshot>, blen: nat)
    requires |ms| == |es| + 1 == |copies| + 1
    requires ms[0].view == View([], [], Ok) && ms[0].past == History([], [], {}, 0)
    requires forall i: nat | i < |es| :: Happened(es[i], copies[i], ms[i], ms[i + 1], blen)
    ensures Trace(es, copies, ms, blen)
    ensures forall i: nat | i < |es| ::
      ms[i].past.input <= ms[i + 1].past.input && Received(es[i], copies[i], Since(ms[i], ms[i + 1]))
  {
    hide Happened, Received;
    forall i: nat | i < |es|
      ensures ms[i].past.input <= ms[i + 1].past.input && Received(es[i], copies[i], Since(ms[i], ms[i + 1]))
    {
      Brings(es[i], copies[i], ms[i], ms[i + 1], blen);
    }
  }

  /** What is known of the driver after any run. */
  lemma Concludes(d: Driver, got: seq<Packet>)
    requires d.Valid() && d.past.delivered == got
    ensures d.Sane() && d.Now().past == d.past && d.Now().size == d.rxbuf.Length
    ensures d.past.lost == {} ==>
      && (got + d.View().Waiting() == Receive(d.past.input, []) <==> d.past.merged == 0)
      && Flat(got + d.View().Waiting()) == Flat(Receive(d.past.input, []))
    ensures d.past.lost == {} && d.past.merged == 0 && d.View().Waiting() == [] ==>
      forall ps :: d.past.input == Stream(ps) ==> got == NonEmpty(ps)
  {
    hide Receive, Scan, Tracks, Stream, NonEmpty, Slice, Flat;
    if d.past.lost == {} {
      DeliversExactly(d.View(), d.past);
      forall ps | d.past.merged == 0 && d.View().Waiting() == [] && d.past.input == Stream(ps)
        ensures got == NonEmpty(ps)
      {
        RoundTrip(ps);
        assert got + d.View().Waiting() == got;
      }
    }
  }

  lemma ConcludesSpaced(t: Snapshot, taken: nat)
    ensures Calm(t, taken) ==> t.past.lost == {} && t.past.merged == 0
    ensures Upset(t) ==> Dropped in t.past.lost || t.past.merged > 0
  {}

  /** One event of a run. */
  method Next(d: Driver, e: Event, out: array<byte>, got: seq<Packet>)
      returns (got': seq<Packet>, ghost copied: seq<byte>)
    requires d.Valid() && out != d.rxbuf && d.past.delivered == got
    modifies d, d.rxbuf, out
    ensures d.Valid() && d.Sane() && d.past.delivered == got' && Steady(d.Now())
    ensures old(d.Sane()) && Happened(e, copied, old(d.Now()), d.Now(), out.Length)
    ensures OneEnd(e) ==> d.past.merged == old(d.past.merged)
    ensures out.Length >= d.rxbuf.Length && TooLong !in old(d.past.lost) ==> TooLong !in d.past.lost
  {
    hide Scan, Tracks, Matches, AcceptAll, MarkAll, LossAll, Slice, Ends, OnlyInterrupts, WhileCopying, LateLoss, Left,
      Merges, SaysClient;
    got', copied := got, [];
    ghost var s := d.Now();
    match e {
      case Arrives(c) =>
        MarkKeeps(s.past, s.view, [c], s.size);
        d.Interrupts([c]);
      case Polled(arrivals) =>
        var len;
        ghost var took;
        len, took, copied := d.PollHandler(out, out.Length, arrivals);
        PollGives(s, d.Now(), arrivals, copied, out.Length, out[..len], took);
        if len > 0 { got' := got' + [out[..len]]; }
    }
  }

  /** One poll in which nothing arrives but in its gap. */
  method Poll(d: Driver, out: array<byte>, gap: seq<byte>) returns (got: seq<Packet>)
    requires d.Valid() && out != d.rxbuf && out.Length >= d.rxbuf.Length
    modifies d, d.rxbuf, out
    ensures d.Valid()
    ensures var v, n := old(d.View()), d.rxbuf.Length;
      if SaysClient(v, old(d.begin), n) then
        && got == [] && d.View() == View([], [], Ok) && d.past.input == old(d.past.input)
        && d.past.lost == old(d.past.lost) + {ClientHack} && d.past.merged == old(d.past.merged)
        && d.wire == old(d.wire) + CLIENTSERVER
      else if v.first == [] then
        got == [] && d.View() == v && d.past == old(d.past) && d.wire == old(d.wire)
      else
        && got == [v.first] && d.View() == Followed(AcceptAll(v.(first := []), gap, n))
        && d.past.input == old(d.past.input) + gap
        && d.past.lost == old(d.past.lost) + LossAll(v.(first := []), gap, n)
        && d.past.merged == old(d.past.merged) + (if Merges(v, gap, n) then 1 else 0) && d.wire == old(d.wire)
    ensures d.past.delivered == old(d.past.delivered) + got
  {
    hide Scan, Tracks, Matches, AcceptAll, MarkAll, LossAll, Slice, Ends, OnlyInterrupts, Merges, SaysClient, Polls;
    ghost var s := d.Now();
    var arrivals: Arrivals := k => if k == 2 then gap else [];
    var len;
    ghost var took, copied;
    len, took, copied := d.PollHandler(out, out.Length, arrivals);
    GapOnly(s, d.Now(), arrivals, copied, out.Length, out[..len], took);
    got := if len == 0 then [] else [out[..len]];
  }

  /** Packet x waits, and y and z arrive in the gap behind it: they are delivered as one packet. */
  method MergedRun(x: Packet, y: Packet, z: Packet, size: nat) returns (got: seq<Packet>)
    requires x != [] && y != [] && z != [] && |x| < size && |y| + |z| < size
    requires !(CLIENT <= x) && !(CLIENT <= y + z)
    ensures got == [x, y + z] && Receive(Framed(x) + Framed(y) + Framed(z), []) == [x, y, z]
  {
    hide Scan, Tracks, Matches, AcceptAll, MarkAll, LossAll, Slice, Ends, OnlyInterrupts, Merges, Receive;
    var d := new Driver(size);
    var out := new byte[size];
    d.Interrupts(Framed(x));
    AcceptFramed(View([], [], Ok), x, size);
    MergeHappens(View(x, [], Ok), y, z, size);
    var first := Poll(d, out, Framed(y) + Framed(z));
    var second := Poll(d, out, []);
    got := first + second;
    ThreeFramed(x, y, z);
  }

  lemma ThreeFramed(x: Packet, y: Packet, z: Packet)
    requires x != [] && y != [] && z != []
    ensures Receive(Framed(x) + Framed(y) + Framed(z), []) == [x, y, z]
  {
    var ps := [x, y, z];
    assert ps[1..] == [y, z] && ps[1..][1..] == [z] && [z][1..] == [];
    assert Stream([z]) == Framed(z) + Stream([]);
    assert Stream([y, z]) == Framed(y) + Stream([z]);
    assert Stream(ps) == Framed(x) + (Framed(y) + (Framed(z) + [])) == Framed(x) + Framed(y) + Framed(z);
    assert NonEmpty([z]) == [z] + NonEmpty([]) == [z];
    assert NonEmpty([y, z]) == [y] + NonEmpty([z]);
    assert NonEmpty(ps) == [x] + NonEmpty([y, z]);
    RoundTrip(ps);
  }

  /** Two packets that say CLIENT only together are both forgotten. */
  method ClientRun(x: Packet, y: Packet, size: nat) returns (got: seq<Packet>, d: Driver)
    requires x != [] && y != [] && CLIENT <= x + y && |x| + |y| < size
    ensures d.Valid() && d.past.input == Framed(x) + Framed(y) && Receive(d.past.input, []) == [x, y]
    ensures got == [] && d.View().Waiting() == [] && d.past.lost == {ClientHack} && d.wire == CLIENTSERVER
  {
    hide Scan, Tracks, Matches, AcceptAll, MarkAll, LossAll, Slice, Ends, OnlyInterrupts, Merges, Receive;
    d := new Driver(size);
    var out := new byte[size];
    AcceptFramed(View([], [], Ok), x, size);
    AcceptFramed(View(x, [], Ok), y, size);
    AcceptJoin(View([], [], Ok), Framed(x), Framed(y), size);
    LossJoin(View([], [], Ok), Framed(x), Framed(y), size);
    d.Interrupts(Framed(x) + Framed(y));
    got := Poll(d, out, []);
    TwoFramed(x, y);
  }

  lemma TwoFramed(x: Packet, y: Packet)
    requires x != [] && y != []
    ensures Receive(Framed(x) + Framed(y), []) == [x, y]
  {
    var ps := [x, y];
    assert ps[1..] == [y] && [y][1..] == [];
    assert Stream([y]) == Framed(y) + Stream([]);
    assert Stream(ps) == Framed(x) + (Framed(y) + []) == Framed(x) + Framed(y);
    assert NonEmpty([y]) == [y] + NonEmpty([]) == [y];
    assert NonEmpty(ps) == [x] + NonEmpty([y]);
    RoundTrip(ps);
  }
}
