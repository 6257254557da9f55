/** When the SLIP driver gives up no byte and runs no packets together. */
module SlipLossless {
  import opened Numbers
  import opened Streams
  import opened SlipCode
  import opened SlipRing
  import opened SlipDriver

  datatype Event = Arrives(c: byte) | Polled(arrivals: Arrivals)

  /** What an event does to the driver; `copied` arrives while a poll copies a packet. */
  ghost predicate Happened(e: Event, copied: seq<byte>, s: Snapshot, t: Snapshot, blen: nat) {
    match e
    case Arrives(c) => Untouched(s, t, [c]) && copied == []
    case Polled(arrivals) => exists got, took :: Polls(s, t, arrivals, copied, blen, got, took)
  }

  /** The moments of a run, before its events and behind the last one. */
  ghost predicate Trace(es: seq<Event>, copies: seq<seq<byte>>, ms: seq<Snapshot>, blen: nat) {
    && |ms| == |es| + 1 == |copies| + 1
    && ms[0].view == View([], [], Ok) && ms[0].past == History([], [], {}, 0)
    && forall i: nat | i < |es| :: Happened(es[i], copies[i], ms[i], ms[i + 1], blen)
  }

  /** How many packets are complete in these bytes. */
  ghost function Complete(input: seq<byte>): nat { |Scan(input).packets| }

  /** Each of these bytes arrives when fewer packets than that are complete. */
  ghost predicate Room(input: seq<byte>, bytes: seq<byte>, most: nat) {
    forall k: nat | k < |bytes| :: Complete(input + bytes[..k]) < most
  }

  /** A packet and the bytes received of the next fit into a buffer of n bytes, and do not say CLIENT. */
  ghost predicate Small(s: Scanner, n: nat) {
    var last := if s.packets == [] then [] else s.packets[|s.packets| - 1];
    && |last| + |s.partial| < n && !(CLIENT <= s.partial) && !(CLIENT <= last + s.partial)
    && (|s.packets| >= 2 ==> !(CLIENT <= s.packets[|s.packets| - 2] + last))
  }

  /** At any time. */
  ghost predicate Smooth(input: seq<byte>, n: nat) {
    forall k: nat | k <= |input| :: Small(Scan(input[..k]), n)
  }

  /** How many packets the polls before event i take: each one takes one if there is one. */
  ghost function TakenBy(es: seq<Event>, ms: seq<Snapshot>, i: nat): nat
    requires i <= |es| <= |ms|
  {
    if i == 0 then 0
    else
      var taken := TakenBy(es, ms, i - 1);
      taken + if es[i - 1].Polled? && Finds(es[i - 1].arrivals, ms[i - 1].past.input, taken) then 1 else 0
  }

  /** A packet is there when the poll tests for one. */
  ghost predicate Finds(arrivals: Arrivals, input: seq<byte>, taken: nat) {
    Complete(input + (arrivals(0) + arrivals(1))) > taken
  }

  /**
   * No byte arrives while two packets are waiting, `taken` being those that have left the buffer; and if only one is
   * when it is taken, the next two are not both completed in the gap.
   */
  ghost predicate Spaced(e: Event, copied: seq<byte>, input: seq<byte>, taken: nat) {
    match e
    case Arrives(c) => Room(input, [c], taken + 2)
    case Polled(arrivals) =>
      var early := arrivals(0) + arrivals(1) + copied;
      && Room(input, early, taken + 2)
      && (Finds(arrivals, input, taken) ==>
            if Complete(input + early) == taken + 1 then Complete(input + early + arrivals(2)) <= taken + 2
            else
              && arrivals(2) == arrivals(3) == arrivals(4) == []
              && Room(input + early, arrivals(5), taken + 3))
  }

  /** Nothing was given up or run together, and the packets handed out are counted. */
  ghost predicate Calm(s: Snapshot, taken: nat) {
    s.past.lost == {} && s.past.merged == 0 && |s.past.delivered| == taken
  }

  /** What holds between two events. */
  ghost predicate Steady(s: Snapshot) { s.view.Settled() && Tracks(s.view, s.past) }

  lemma {:induction false} CompleteGrows(a: seq<byte>, b: seq<byte>)
    ensures Complete(a) <= Complete(a + b)
    decreases |b|
  {
    if b == [] {
      assert a + b == a;
    } else {
      var before, c := b[..|b| - 1], b[|b| - 1];
      assert a + b == (a + before) + [c];
      ScanOne(a + before, c);
      hide Scan;
      CompleteGrows(a, before);
    }
  }

  lemma SmoothBefore(a: seq<byte>, b: seq<byte>, n: nat)
    requires a <= b && Smooth(b, n)
    ensures Smooth(a, n) && Small(Scan(a), n)
  {
    hide Small, Scan;
    forall k: nat | k <= |a| ensures Small(Scan(a[..k]), n) {
      assert a[..k] == b[..k];
    }
    assert a[..|a|] == a;
  }

  /** What the packets waiting are, as long as nothing is given up or run together. */
  lemma WaitingIs(v: View, h: History)
    requires v.Settled() && Tracks(v, h) && h.lost == {} && h.merged == 0
    ensures Complete(h.input) == |h.delivered| + |v.Waiting()|
    ensures v.state == TwoPackets <==> |v.Waiting()| == 2
    ensures v.first != [] <==> v.Waiting() != []
    ensures var s := Scan(h.input);
      && (v.state != TwoPackets ==>
            && s.partial == v.rest && s.mode == ModeOf(v.state)
            && (v.first != [] ==> s.packets != [] && Last(s) == v.first))
      && (v.state == TwoPackets ==>
            |s.packets| >= 2 && s.packets[|s.packets| - 2] == v.first && Last(s) == v.rest)
  {
    hide Scan, Flat;
    var s := Scan(h.input);
    assert s.packets == h.delivered + v.Waiting();
  }

  ghost function Last(s: Scanner): Packet
    requires s.packets != []
  {
    s.packets[|s.packets| - 1]
  }

  /** Bytes that find room are all accepted. */
  lemma {:induction false} RoomAccepts(v: View, h: History, bytes: seq<byte>, n: nat)
    requires v.Settled() && Tracks(v, h) && h.lost == {} && h.merged == 0
    requires Smooth(h.input + bytes, n) && Room(h.input, bytes, |h.delivered| + 2)
    ensures LossAll(v, bytes, n) == {}
    ensures MarkAll(h, v, bytes, n) == h.(input := h.input + bytes)
    ensures AcceptAll(v, bytes, n).Settled() && Tracks(AcceptAll(v, bytes, n), h.(input := h.input + bytes))
    decreases |bytes|
  {
    hide Tracks, Smooth, Scan, Small, Accept, LossOf;
    if bytes == [] {
      assert h.input + bytes == h.input;
    } else {
      var before, c := bytes[..|bytes| - 1], bytes[|bytes| - 1];
      assert h.input + bytes == (h.input + before) + [c];
      SmoothBefore(h.input + before, h.input + bytes, n);
      SmoothBefore(h.input + bytes, h.input + bytes, n);
      assert bytes == before + [c];
      RoomBefore(h.input, before, c, |h.delivered| + 2);
      RoomAccepts(v, h, before, n);
      OneAccepted(AcceptAll(v, before, n), h.(input := h.input + before), c, n);
    }
  }

  lemma RoomBefore(input: seq<byte>, before: seq<byte>, c: byte, most: nat)
    ensures Room(input, before + [c], most) <==> Room(input, before, most) && Complete(input + before) < most
  {
    hide Complete;
    var bytes := before + [c];
    assert bytes[..|before|] == before;
    assert forall k: nat | k < |before| :: before[..k] == bytes[..k];
  }

  lemma OneAccepted(v: View, h: History, c: byte, n: nat)
    requires v.Settled() && Tracks(v, h) && h.lost == {} && h.merged == 0
    requires Complete(h.input) < |h.delivered| + 2 && Small(Scan(h.input + [c]), n)
    ensures LossOf(v, c, n) == {} && Mark(h, v, c, n) == h.(input := h.input + [c])
    ensures Accept(v, c, n).Settled() && Tracks(Accept(v, c, n), h.(input := h.input + [c]))
  {
    hide *;
    WaitingIs(v, h);
    ScanOne(h.input, c);
    Means(v);
    AcceptTracks(v, h, c, n);
    OneFits(v, Scan(h.input), c, n);
    Unlost(v, h, c, n);
    CompleteIs(h.input);
  }

  lemma CompleteIs(input: seq<byte>)
    ensures Complete(input) == |Scan(input).packets|
  {}

  lemma Means(v: View)
    ensures v.Settled() ==> v.Meaningful()
  {}

  lemma Unlost(v: View, h: History, c: byte, n: nat)
    requires LossOf(v, c, n) == {}
    ensures Mark(h, v, c, n) == h.(input := h.input + [c])
  {}

  /** The next byte does not overflow the buffer. */
  lemma OneFits(v: View, s: Scanner, c: byte, n: nat)
    requires v.Settled() && v.state != TwoPackets && s.mode == ModeOf(v.state) && s.partial == v.rest
    requires v.first != [] ==> s.packets != [] && Last(s) == v.first
    requires Small(Step(s, c), n)
    ensures LossOf(v, c, n) == {} && Accept(v, c, n).Settled()
  {
    var s' := Step(s, c);
    if Adds(v, c) { assert s'.packets == s.packets && |s'.partial| == |v.rest| + 1; }
  }

  /** A byte that finds no room is dropped. */
  lemma {:induction false} NoRoomDrops(v: View, h: History, bytes: seq<byte>, n: nat)
    requires v.Settled() && Tracks(v, h) && h.lost == {} && h.merged == 0
    requires Smooth(h.input + bytes, n) && !Room(h.input, bytes, |h.delivered| + 2)
    ensures Dropped in LossAll(v, bytes, n)
    decreases |bytes|
  {
    hide Tracks, Smooth, Scan, Small, Accept, Complete;
    var most := |h.delivered| + 2;
    assert bytes != [];
    var before, c := bytes[..|bytes| - 1], bytes[|bytes| - 1];
    assert bytes == before + [c];
    RoomBefore(h.input, before, c, most);
    hide Room;
    SmoothBefore(h.input + before, h.input + bytes, n);
    if Room(h.input, before, most) {
      RoomAccepts(v, h, before, n);
      WaitingIs(AcceptAll(v, before, n), h.(input := h.input + before));
    } else {
      NoRoomDrops(v, h, before, n);
    }
  }

  lemma RoomPart(input: seq<byte>, a: seq<byte>, b: seq<byte>, most: nat)
    requires Room(input, a + b, most)
    ensures Room(input, a, most) && Room(input + a, b, most)
  {
    hide Complete;
    forall k: nat | k < |a| ensures Complete(input + a[..k]) < most {
      assert a[..k] == (a + b)[..k];
    }
    forall k: nat | k < |b| ensures Complete(input + a + b[..k]) < most {
      assert (a + b)[..|a| + k] == a + b[..k];
      assert input + (a + b[..k]) == input + a + b[..k];
    }
  }

  lemma NoClient(v: View, h: History, begin: nat, n: nat)
    requires v.Settled() && Tracks(v, h) && h.lost == {} && h.merged == 0 && Small(Scan(h.input), n)
    ensures !SaysClient(v, begin, n)
  {
    WaitingIs(v, h);
    hide Scan, Tracks;
    assert v.first == [] ==> v.first + v.rest == v.rest;
  }

  lemma SomeRoom(v: View, h: History, bytes: seq<byte>, n: nat)
    requires v.Settled() && Tracks(v, h) && h.lost == {} && h.merged == 0 && Smooth(h.input + bytes, n)
    ensures Room(h.input, bytes, |h.delivered| + 2) <==> Dropped !in LossAll(v, bytes, n)
  {
    hide Tracks, Smooth, Room;
    if Room(h.input, bytes, |h.delivered| + 2) {
      RoomAccepts(v, h, bytes, n);
    } else {
      NoRoomDrops(v, h, bytes, n);
    }
  }

  /** The part of a poll behind its test, of a packet that waits at the moment s with view v and history h. */
  lemma GapExactly(v: View, h: History, gap: seq<byte>, held: seq<byte>, after: seq<byte>, n: nat)
    requires v.Settled() && Tracks(v, h) && h.lost == {} && h.merged == 0 && v.first != []
    requires var w := AcceptAll(v.(first := []), gap, n);
      Smooth(h.input + gap + (if w.state == TwoPackets then held + after else []), n)
    ensures var u, taken := v.(first := []), |h.delivered|;
      var w := AcceptAll(u, gap, n);
      var lost := LossAll(u, gap, n) + LateLoss(w, held, after, n);
      var spaced :=
        if Complete(h.input) == taken + 1 then Complete(h.input + gap) <= taken + 2
        else gap == held == [] && Room(h.input, after, taken + 3);
      && (spaced ==> lost == {} && !Merges(v, gap, n))
      && (!spaced ==> Dropped in lost || Merges(v, gap, n))
  {
    hide Scan, Tracks, Small, Smooth, Accept, AcceptAll, LossAll;
    WaitingIs(v, h);
    var u, h' := v.(first := []), h.(delivered := h.delivered + [v.first]);
    var w := AcceptAll(u, gap, n);
    TakeTracks(v, h);
    SmoothBefore(h.input + gap, h.input + gap + (if w.state == TwoPackets then held + after else []), n);
    if v.state != TwoPackets {
      GapOfOne(u, h', gap, n);
    } else {
      TwoDrop(u, gap, n);
      if gap == held == [] {
        var x := Followed(u);
        MoveTracks(u, h');
        OneTracks(u.first + u.rest, h');
        assert h.input + gap + (held + after) == h'.input + after;
        SomeRoom(x, h', after, n);
        if Room(h.input, after, |h.delivered| + 3) { RoomAccepts(x, h', after, n); }
      }
    }
  }

  lemma GapOfOne(u: View, h: History, gap: seq<byte>, n: nat)
    requires u.Settled() && Tracks(u, h) && h.lost == {} && h.merged == 0 && u.first == []
    requires Smooth(h.input + gap, n)
    ensures var w := AcceptAll(u, gap, n);
      && (Complete(h.input + gap) <= |h.delivered| + 1 ==> LossAll(u, gap, n) == {} && w.state != TwoPackets)
      && (Complete(h.input + gap) > |h.delivered| + 1 ==>
            Dropped in LossAll(u, gap, n) || (w.state == TwoPackets && w.first != []))
  {
    hide Scan, Tracks, Small, Smooth, Accept, AcceptAll, LossAll, Room, Complete;
    var most := |h.delivered| + 2;
    if Complete(h.input + gap) < most { RoomBelow(h.input, gap, most); }
    SomeRoom(u, h, gap, n);
    if Room(h.input, gap, most) {
      RoomAccepts(u, h, gap, n);
      WaitingIs(AcceptAll(u, gap, n), h.(input := h.input + gap));
    }
  }

  lemma RoomBelow(input: seq<byte>, bytes: seq<byte>, most: nat)
    requires Complete(input + bytes) < most
    ensures Room(input, bytes, most)
  {
    hide Complete;
    forall k: nat | k < |bytes| ensures Complete(input + bytes[..k]) < most {
      assert input + bytes == (input + bytes[..k]) + bytes[k..];
      CompleteGrows(input + bytes[..k], bytes[k..]);
    }
  }

  /** A byte was dropped, or two packets were run together. */
  ghost predicate Upset(t: Snapshot) { Dropped in t.past.lost || t.past.merged > 0 }

  /** Somebody says CLIENT only behind a byte that was dropped. */
  lemma AnsweredUpset(s: Snapshot, t: Snapshot, arrivals: Arrivals, copied: seq<byte>, taken: nat)
    requires Steady(s) && Calm(s, taken) && Smooth(t.past.input, s.size) && Answered(s, t, arrivals)
    requires SaysClient(AcceptAll(s.view, arrivals(0), s.size), s.begin, s.size)
    ensures Upset(t) && !Spaced(Polled(arrivals), copied, s.past.input, taken)
  {
    hide AcceptAll, LossAll, MarkAll, Tracks, Small, Smooth, SaysClient, Room;
    var h, rest := s.past, arrivals(1) + copied;
    SmoothBefore(h.input + arrivals(0), t.past.input, s.size);
    SomeRoom(s.view, h, arrivals(0), s.size);
    if Room(h.input, arrivals(0), taken + 2) {
      RoomAccepts(s.view, h, arrivals(0), s.size);
      NoClient(AcceptAll(s.view, arrivals(0), s.size), h.(input := h.input + arrivals(0)), s.begin, s.size);
    }
    if Spaced(Polled(arrivals), copied, h.input, taken) {
      assert arrivals(0) + arrivals(1) + copied == arrivals(0) + rest;
      RoomPart(h.input, arrivals(0), rest, taken + 2);
    }
  }

  /** The poll handler finds a packet exactly if one more is complete than those that it has taken. */
  lemma FindsExactly(s: Snapshot, arrivals: Arrivals, taken: nat)
    requires Steady(s) && Calm(s, taken) && Smooth(s.past.input + (arrivals(0) + arrivals(1)), s.size)
    requires Room(s.past.input, arrivals(0) + arrivals(1), taken + 2)
    ensures AcceptAll(s.view, arrivals(0) + arrivals(1), s.size).first != [] <==>
      Finds(arrivals, s.past.input, taken)
  {
    hide AcceptAll, LossAll, MarkAll, Tracks, Small, Smooth, Room;
    var h, before := s.past, arrivals(0) + arrivals(1);
    RoomAccepts(s.view, h, before, s.size);
    WaitingIs(AcceptAll(s.view, before, s.size), h.(input := h.input + before));
  }

  lemma UntouchedExactly(s: Snapshot, t: Snapshot, arrivals: Arrivals, taken: nat)
    requires Steady(s) && Calm(s, taken) && Smooth(t.past.input, s.size)
    requires var before := arrivals(0) + arrivals(1);
      Untouched(s, t, before) && AcceptAll(s.view, before, s.size).first == []
    ensures if Spaced(Polled(arrivals), [], s.past.input, taken) then
        Calm(t, taken) && !Finds(arrivals, s.past.input, taken)
      else Upset(t)
  {
    hide AcceptAll, LossAll, MarkAll, Tracks, Small, Smooth, Room, Finds;
    var before := arrivals(0) + arrivals(1);
    assert before + [] == before;
    MarkKeeps(s.past, s.view, before, s.size);
    SomeRoom(s.view, s.past, before, s.size);
    if Room(s.past.input, before, taken + 2) {
      RoomAccepts(s.view, s.past, before, s.size);
      FindsExactly(s, arrivals, taken);
    }
  }

  lemma TakenExactly(s: Snapshot, t: Snapshot, arrivals: Arrivals, copied: seq<byte>, blen: nat, got: Packet,
                     taken: nat)
    requires Steady(s) && Calm(s, taken) && Smooth(t.past.input, s.size) && s.size <= blen
    requires var before := arrivals(0) + arrivals(1);
      && AcceptAll(s.view, before, s.size).first != []
      && Taken(s, t, before + copied, arrivals(2), arrivals(3) + arrivals(4), arrivals(5), blen, got)
    ensures if Spaced(Polled(arrivals), copied, s.past.input, taken) then
        Calm(t, taken + 1) && Finds(arrivals, s.past.input, taken)
      else Upset(t)
  {
    hide AcceptAll, LossAll, MarkAll, Tracks, Small, Smooth, Room, Finds, LateLoss, Left, Merges, Complete;
    var before, n := arrivals(0) + arrivals(1), s.size;
    var early, h := before + copied, s.past;
    var input := h.input + early;
    SmoothBefore(input, t.past.input, n);
    SmoothBefore(h.input + before, input, n);
    SomeRoom(s.view, h, early, n);
    if Room(h.input, early, taken + 2) {
      RoomPart(h.input, before, copied, taken + 2);
      FindsExactly(s, arrivals, taken);
      RoomAccepts(s.view, h, early, n);
      var v := AcceptAll(s.view, early, n);
      GapExactly(v, h.(input := input), arrivals(2), arrivals(3) + arrivals(4), arrivals(5), n);
    }
  }

  lemma PollExactly(s: Snapshot, t: Snapshot, arrivals: Arrivals, copied: seq<byte>, blen: nat, got: Packet,
                    took: bool, taken: nat)
    requires Polls(s, t, arrivals, copied, blen, got, took) && Steady(s) && Calm(s, taken)
    requires Smooth(t.past.input, s.size) && s.size <= blen
    ensures if Spaced(Polled(arrivals), copied, s.past.input, taken) then
        Calm(t, taken + if Finds(arrivals, s.past.input, taken) then 1 else 0)
      else Upset(t)
  {
    hide AcceptAll, Tracks, Smooth, Finds, Taken, Untouched, SaysClient, WhileCopying, Spaced, Calm, Upset, Answered;
    if SaysClient(AcceptAll(s.view, arrivals(0), s.size), s.begin, s.size) {
      AnsweredUpset(s, t, arrivals, copied, taken);
    } else if took {
      TakenExactly(s, t, arrivals, copied, blen, got, taken);
    } else {
      UntouchedExactly(s, t, arrivals, taken);
    }
  }

  lemma ArrivalExactly(s: Snapshot, t: Snapshot, c: byte, taken: nat)
    requires Untouched(s, t, [c]) && Steady(s) && Calm(s, taken) && Smooth(t.past.input, s.size)
    ensures if Spaced(Arrives(c), [], s.past.input, taken) then Calm(t, taken) else Upset(t)
  {
    hide AcceptAll, LossAll, MarkAll, Tracks, Small, Smooth, Room;
    MarkKeeps(s.past, s.view, [c], s.size);
    SomeRoom(s.view, s.past, [c], s.size);
    if Room(s.past.input, [c], taken + 2) { RoomAccepts(s.view, s.past, [c], s.size); }
  }

  /** Nothing that was lost comes back. */
  lemma Onward(e: Event, copied: seq<byte>, s: Snapshot, t: Snapshot, blen: nat)
    requires Happened(e, copied, s, t, blen)
    ensures s.past.input <= t.past.input && t.size == s.size && (Upset(s) ==> Upset(t))
  {
    hide AcceptAll, LossAll, MarkAll, LateLoss, Left, Merges, SaysClient, WhileCopying;
    match e {
      case Arrives(c) => MarkKeeps(s.past, s.view, [c], s.size);
      case Polled(arrivals) => MarkKeeps(s.past, s.view, arrivals(0) + arrivals(1), s.size);
    }
  }

  /**
   * What an event adds to the bytes received: a poll adds what arrives at the statements that it goes through, in
   * order. They depend on what it finds.
   */
  ghost predicate Received(e: Event, copied: seq<byte>, piece: seq<byte>) {
    match e
    case Arrives(c) => piece == [c]
    case Polled(arrivals) =>
      var answer := arrivals(0) + arrivals(3) + (arrivals(4) + arrivals(5) + arrivals(6));
      var test := arrivals(0) + arrivals(1);
      var taken := test + copied + arrivals(2);
      var followed := taken + (arrivals(3) + arrivals(4) + arrivals(5));
      && (copied == [] || WhileCopying(copied, arrivals))
      && (piece == answer || piece == test || piece == taken || piece == followed)
  }

  lemma Brings(e: Event, copied: seq<byte>, s: Snapshot, t: Snapshot, blen: nat)
    requires Happened(e, copied, s, t, blen)
    ensures s.past.input <= t.past.input && Received(e, copied, Since(s, t))
  {
    hide AcceptAll, LossAll, MarkAll, LateLoss, Left, Merges, SaysClient, WhileCopying;
    Onward(e, copied, s, t, blen);
    match e {
      case Arrives(c) => MarkKeeps(s.past, s.view, [c], s.size);
      case Polled(arrivals) => MarkKeeps(s.past, s.view, arrivals(0) + arrivals(1), s.size);
    }
  }

  function Bytes(es: seq<Event>): seq<byte> {
    if es == [] then []
    else Bytes(es[..|es| - 1]) + match es[|es| - 1] { case Arrives(c) => [c] case Polled(_) => [] }
  }

  /** If nothing arrives during the polls, the bytes received are those of the other events. */
  lemma {:induction false} QuietInput(es: seq<Event>, copies: seq<seq<byte>>, ms: seq<Snapshot>, blen: nat, n: nat)
    requires Trace(es, copies, ms, blen) && n <= |es|
    requires forall i: nat, k: nat | i < |es| && es[i].Polled? :: es[i].arrivals(k) == []
    ensures ms[n].past.input == Bytes(es[..n])
  {
    hide Received, Happened;
    if n > 0 {
      var k := n - 1;
      QuietInput(es, copies, ms, blen, k);
      assert Happened(es[k], copies[k], ms[k], ms[n], blen);
      Brings(es[k], copies[k], ms[k], ms[n], blen);
      QuietReceived(es[k], copies[k], Since(ms[k], ms[n]));
      assert ms[n].past.input == ms[k].past.input + Since(ms[k], ms[n]);
      assert es[..n][..k] == es[..k];
    }
  }

  lemma QuietReceived(e: Event, copied: seq<byte>, piece: seq<byte>)
    requires Received(e, copied, piece) && (e.Polled? ==> forall k: nat :: e.arrivals(k) == [])
    ensures piece == if e.Arrives? then [e.c] else []
  {
    hide WhileCopying;
    if e.Polled? && copied != [] { NoneCopying(copied, e.arrivals); }
  }

  ghost predicate AllSpaced(es: seq<Event>, copies: seq<seq<byte>>, ms: seq<Snapshot>, n: nat)
    requires n <= |es| < |ms| && n <= |copies|
  {
    forall i: nat | i < n :: Spaced(es[i], copies[i], ms[i].past.input, TakenBy(es, ms, i))
  }

  lemma {:induction false} SpacedSoFar(es: seq<Event>, copies: seq<seq<byte>>, ms: seq<Snapshot>, blen: nat, n: nat)
    requires Trace(es, copies, ms, blen) && n <= |es| && ms[0].size <= blen
    requires forall i: nat | i <= n :: Steady(ms[i])
    requires Smooth(ms[n].past.input, ms[0].size)
    ensures ms[n].size == ms[0].size
    ensures if AllSpaced(es, copies, ms, n) then Calm(ms[n], TakenBy(es, ms, n)) else Upset(ms[n])
  {
    hide Smooth, Steady, Spaced, Happened, Upset, Finds;
    if n == 0 {
    } else {
      var k := n - 1;
      var s, t, e, taken := ms[k], ms[n], es[k], TakenBy(es, ms, k);
      assert Happened(e, copies[k], s, t, blen);
      Onward(e, copies[k], s, t, blen);
      SmoothBefore(s.past.input, t.past.input, ms[0].size);
      SpacedSoFar(es, copies, ms, blen, k);
      hide Trace;
      if AllSpaced(es, copies, ms, k) { EventExactly(e, copies[k], s, t, blen, taken); }
    }
  }

  lemma EventExactly(e: Event, copied: seq<byte>, s: Snapshot, t: Snapshot, blen: nat, taken: nat)
    requires Happened(e, copied, s, t, blen) && Steady(s) && Calm(s, taken)
    requires Smooth(t.past.input, s.size) && s.size <= blen
    ensures if Spaced(e, copied, s.past.input, taken) then
        Calm(t, taken + if e.Polled? && Finds(e.arrivals, s.past.input, taken) then 1 else 0)
      else Upset(t)
  {
    hide Smooth, Steady, Spaced, Calm, Upset, Finds, Polls, Untouched;
    match e {
      case Arrives(c) => ArrivalExactly(s, t, c, taken);
      case Polled(arrivals) =>
        var got, took :| Polls(s, t, arrivals, copied, blen, got, took);
        PollExactly(s, t, arrivals, copied, blen, got, took, taken);
    }
  }
}
