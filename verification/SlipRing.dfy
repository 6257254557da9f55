/** The receive buffer of the SLIP driver (slip.c): what it holds, and what is known of it. */
module SlipRing {
  import Bits
  import opened Numbers
  import opened Cyclic
  import opened Streams
  import opened SlipCode

  /** begin, pkt_end and end follow each other around the buffer. */
  predicate Ordered(b: nat, p: nat, e: nat) {
    b <= p <= e || p <= e < b || e < b <= p
  }

  lemma SliceGrows(buf: seq<byte>, b: nat, p: nat, e: nat, c: byte)
    requires b < |buf| && p < |buf| && e < |buf| && Ordered(b, p, e)
    ensures After(e, |buf|) == b <==> |Slice(buf, b, p)| + |Slice(buf, p, e)| == |buf| - 1
    ensures After(e, |buf|) != b ==>
      && Ordered(b, p, After(e, |buf|))
      && Slice(buf[e := c], b, p) == Slice(buf, b, p)
      && Slice(buf[e := c], p, After(e, |buf|)) == Slice(buf, p, e) + [c]
  {
    var n := After(e, |buf|);
    var after := buf[e := c];
    if n != b {
      assert Slice(after, b, p) == Slice(buf, b, p);
      assert Slice(after, p, n) == Slice(buf, p, e) + [c];
    }
  }

  lemma SliceJoins(buf: seq<byte>, b: nat, p: nat, e: nat)
    requires b < |buf| && p < |buf| && e < |buf| && Ordered(b, p, e)
    ensures Slice(buf, b, e) == Slice(buf, b, p) + Slice(buf, p, e)
    ensures b == p <==> Slice(buf, b, p) == []
    ensures p == e <==> Slice(buf, p, e) == []
    ensures |Slice(buf, b, p)| < |buf|
  {}

  lemma SliceEnds(buf: seq<byte>, from: nat, to: nat)
    requires from < |buf| && to < |buf|
    ensures to == (from + |Slice(buf, from, to)|) % |buf|
  {
    SliceLength(buf, from, to);
    var n := |buf|;
    if from <= to { Bits.DivMod(to, 0, to, n); } else { Bits.DivMod(n + to, 1, to, n); }
  }

  datatype State = TwoPackets | Ok | Esc | Rubbish

  /**
   * What the buffer holds: a complete packet (or nothing), and behind it the packet being received, which is
   * complete too in the state TwoPackets.
   */
  datatype View = View(first: Packet, rest: Packet, state: State)
  {
    /** What the states mean at any point of the poll handler. */
    ghost predicate Meaningful() { state == Rubbish ==> rest == [] }

    /** The second packet of TwoPackets is there. */
    ghost predicate Second() { Meaningful() && (state == TwoPackets ==> rest != []) }

    /** What the states mean between two polls. */
    ghost predicate Settled() { Second() && (state == TwoPackets ==> first != []) }

    /** The packets waiting to be polled. */
    ghost function Waiting(): seq<Packet> {
      (if first == [] then [] else [first]) + (if state == TwoPackets && rest != [] then [rest] else [])
    }
  }

  /** The ways in which the driver gives up bytes on purpose. */
  datatype Loss = Dropped | Overflow | TooLong | ClientHack

  /** All that came in, the packets handed out, how bytes were lost, and how often two packets became one. */
  datatype History = History(input: seq<byte>, delivered: seq<Packet>, lost: set<Loss>, merged: nat)

  /** slip_input_byte on what the buffer of n bytes holds. */
  function Accept(v: View, c: byte, n: nat): View {
    match v.state
    case Rubbish => if c == END then v.(state := Ok) else v
    case TwoPackets => v
    case Esc =>
      if c == ESC_END then AddChar(v, END, n)
      else if c == ESC_ESC then AddChar(v, ESC, n)
      else v.(rest := [], state := Rubbish)
    case Ok =>
      if c == ESC then v.(state := Esc)
      else if c != END then AddChar(v, c, n)
      else if v.rest == [] then v
      else if v.first == [] then View(v.rest, [], Ok)
      else v.(state := TwoPackets)
  }

  function AddChar(v: View, c: byte, n: nat): View {
    if |v.first| + |v.rest| + 1 >= n then v.(rest := [], state := Rubbish)
    else v.(rest := v.rest + [c], state := Ok)
  }

  function Adds(v: View, c: byte): bool {
    (v.state == Esc && (c == ESC_END || c == ESC_ESC)) || (v.state == Ok && c != ESC && c != END)
  }

  function LossOf(v: View, c: byte, n: nat): set<Loss> {
    if v.state == TwoPackets then {Dropped}
    else if Adds(v, c) && |v.first| + |v.rest| + 1 >= n then {Overflow}
    else {}
  }

  ghost function Mark(h: History, v: View, c: byte, n: nat): History {
    h.(input := h.input + [c], lost := h.lost + LossOf(v, c, n))
  }

  /** `got` are the packets `sent`, of which as many as `merged` were run together with the one before. */
  ghost predicate Matches(got: seq<Packet>, sent: seq<Packet>, merged: nat) {
    Flat(got) == Flat(sent) && |got| + merged == |sent| && (merged == 0 ==> got == sent)
  }

  ghost function ModeOf(s: State): Mode {
    match s
    case Rubbish => Skipping
    case Esc => Escaping
    case _ => Reading
  }

  /** As long as nothing was given up, what was handed out and what waits is what came in. */
  ghost predicate Tracks(v: View, h: History) {
    h.lost == {} ==>
      var s := Scan(h.input);
      Matches(h.delivered + v.Waiting(), s.packets, h.merged) &&
      s.mode == ModeOf(v.state) && s.partial == if v.state == TwoPackets then [] else v.rest
  }

  lemma MatchesOneMore(got: seq<Packet>, sent: seq<Packet>, merged: nat, p: Packet)
    requires Matches(got, sent, merged)
    ensures Matches(got + [p], sent + [p], merged)
  {
    FlatJoin(got, [p]);
    FlatJoin(sent, [p]);
  }

  /** Bytes that arrive one after the other. */
  function AcceptAll(v: View, bytes: seq<byte>, n: nat): View {
    if bytes == [] then v else Accept(AcceptAll(v, bytes[..|bytes| - 1], n), bytes[|bytes| - 1], n)
  }

  ghost function MarkAll(h: History, v: View, bytes: seq<byte>, n: nat): History {
    if bytes == [] then h
    else
      var before := bytes[..|bytes| - 1];
      Mark(MarkAll(h, v, before, n), AcceptAll(v, before, n), bytes[|bytes| - 1], n)
  }

  function LossAll(v: View, bytes: seq<byte>, n: nat): set<Loss> {
    if bytes == [] then {}
    else
      var before := bytes[..|bytes| - 1];
      LossAll(v, before, n) + LossOf(AcceptAll(v, before, n), bytes[|bytes| - 1], n)
  }

  /** What stays as it is while bytes arrive. */
  lemma {:induction false} AcceptKeeps(v: View, bytes: seq<byte>, n: nat)
    requires v.Meaningful()
    ensures var v' := AcceptAll(v, bytes, n);
      && v'.Meaningful() && (v.Second() ==> v'.Second()) && (v.Settled() ==> v'.Settled())
      && (v.first != [] ==> v'.first == v.first)
      && (v.state == TwoPackets ==> v' == v)
  {
    if bytes != [] { AcceptKeeps(v, bytes[..|bytes| - 1], n); }
  }

  lemma {:induction false} MarkKeeps(h: History, v: View, bytes: seq<byte>, n: nat)
    ensures var h' := MarkAll(h, v, bytes, n);
      && h'.input == h.input + bytes && h'.delivered == h.delivered && h'.merged == h.merged
      && h'.lost == h.lost + LossAll(v, bytes, n) && LossAll(v, bytes, n) <= {Dropped, Overflow}
  {
    if bytes != [] {
      MarkKeeps(h, v, bytes[..|bytes| - 1], n);
      assert bytes[..|bytes| - 1] + [bytes[|bytes| - 1]] == bytes;
    }
  }

  lemma {:induction false} AcceptJoin(v: View, a: seq<byte>, b: seq<byte>, n: nat)
    ensures AcceptAll(v, a + b, n) == AcceptAll(AcceptAll(v, a, n), b, n)
  {
    if b == [] {
      assert a + b == a;
    } else {
      assert (a + b)[..|a + b| - 1] == a + b[..|b| - 1];
      AcceptJoin(v, a, b[..|b| - 1], n);
    }
  }

  lemma {:induction false} MarkJoin(h: History, v: View, a: seq<byte>, b: seq<byte>, n: nat)
    ensures MarkAll(h, v, a + b, n) == MarkAll(MarkAll(h, v, a, n), AcceptAll(v, a, n), b, n)
  {
    if b == [] {
      assert a + b == a;
    } else {
      assert (a + b)[..|a + b| - 1] == a + b[..|b| - 1];
      MarkJoin(h, v, a, b[..|b| - 1], n);
      AcceptJoin(v, a, b[..|b| - 1], n);
    }
  }

  /** The first packet has left the buffer, and `bytes` complete two more before the next statement. */
  ghost predicate Merges(v: View, bytes: seq<byte>, n: nat) {
    var gap := AcceptAll(v.(first := []), bytes, n);
    gap.state == TwoPackets && gap.first != []
  }

  /** What the buffer holds once a packet has been taken from it. */
  function Followed(v: View): View {
    if v.state == TwoPackets then View(v.first + v.rest, [], Ok) else v
  }

  ghost function Ends(bytes: seq<byte>): nat {
    if bytes == [] then 0
    else Ends(bytes[..|bytes| - 1]) + (if bytes[|bytes| - 1] == END then 1 else 0)
  }

  /** Two packets are run together only if both are completed while one statement follows another. */
  lemma {:induction false} MergesNeedTwo(v: View, bytes: seq<byte>, n: nat)
    requires v.Second() && v.first == []
    ensures var v' := AcceptAll(v, bytes, n);
      && (v'.state == TwoPackets && v'.first != [] ==> v.state != TwoPackets && Ends(bytes) >= 2)
      && (v'.state != TwoPackets && v'.first != [] ==> v.state != TwoPackets && Ends(bytes) >= 1)
  {
    if bytes != [] {
      MergesNeedTwo(v, bytes[..|bytes| - 1], n);
      AcceptKeeps(v, bytes[..|bytes| - 1], n);
    }
  }

  lemma ReleaseMeans(v: View, bytes: seq<byte>, n: nat)
    requires v.Settled()
    ensures var gap := AcceptAll(v.(first := []), bytes, n);
      && v.(first := []).Second() && (Merges(v, bytes, n) <==> gap.state == TwoPackets && gap.first != [])
      && (gap.state != TwoPackets ==> Followed(gap) == gap)
  {}

  lemma FollowMeans(v: View)
    requires v.Second() && v.state == TwoPackets
    ensures Followed(v) == View(v.first + v.rest, [], Ok)
  {}

  lemma NoMergeBelowTwo(v: View, bytes: seq<byte>, n: nat)
    requires v.Second()
    ensures Merges(v, bytes, n) ==> Ends(bytes) >= 2
  {
    MergesNeedTwo(v.(first := []), bytes, n);
  }

  /** A packet's frame that fits becomes the first or the second packet in the buffer, and no byte is lost. */
  lemma AcceptFramed(v: View, p: Packet, n: nat)
    requires v.state == Ok && v.rest == [] && p != [] && |v.first| + |p| < n
    ensures AcceptAll(v, Framed(p), n) == if v.first == [] then View(p, [], Ok) else View(v.first, p, TwoPackets)
    ensures LossAll(v, Framed(p), n) == {}
  {
    AcceptSingle(v, END, n);
    AcceptEscaped(v, p, n);
    AcceptSingle(v.(rest := p), END, n);
    assert v.rest + p == p;
    AcceptJoin(v, [END] + Escaped(p), [END], n);
    AcceptJoin(v, [END], Escaped(p), n);
    LossJoin(v, [END] + Escaped(p), [END], n);
    LossJoin(v, [END], Escaped(p), n);
  }

  lemma AcceptSingle(v: View, c: byte, n: nat)
    ensures AcceptAll(v, [c], n) == Accept(v, c, n) && LossAll(v, [c], n) == LossOf(v, c, n)
  {
    assert [c][..0] == [];
    assert AcceptAll(v, [], n) == v && LossAll(v, [], n) == {};
  }

  lemma {:induction false} LossJoin(v: View, a: seq<byte>, b: seq<byte>, n: nat)
    ensures LossAll(v, a + b, n) == LossAll(v, a, n) + LossAll(AcceptAll(v, a, n), b, n)
  {
    if b == [] {
      assert a + b == a;
    } else {
      assert (a + b)[..|a + b| - 1] == a + b[..|b| - 1];
      LossJoin(v, a, b[..|b| - 1], n);
      AcceptJoin(v, a, b[..|b| - 1], n);
    }
  }

  lemma {:induction false} AcceptEscaped(v: View, p: Packet, n: nat)
    requires v.state == Ok && |v.first| + |v.rest| + |p| < n
    ensures AcceptAll(v, Escaped(p), n) == v.(rest := v.rest + p) && LossAll(v, Escaped(p), n) == {}
    decreases |p|
  {
    if p == [] {
      assert v.rest + p == v.rest;
    } else {
      var before, c := p[..|p| - 1], p[|p| - 1];
      var w := v.(rest := v.rest + before);
      assert p == before + [c] && v.rest + p == w.rest + [c];
      EscapedMore(before, c);
      AcceptEscaped(v, before, n);
      AcceptJoin(v, Escaped(before), Escape(c), n);
      LossJoin(v, Escaped(before), Escape(c), n);
      AcceptEscape(w, c, n);
    }
  }

  lemma AcceptEscape(v: View, c: byte, n: nat)
    requires v.state == Ok && |v.first| + |v.rest| + 1 < n
    ensures AcceptAll(v, Escape(c), n) == v.(rest := v.rest + [c]) && LossAll(v, Escape(c), n) == {}
  {
    var e := Escape(c);
    if |e| == 2 {
      assert e == [e[0]] + [e[1]];
      AcceptJoin(v, [e[0]], [e[1]], n);
      LossJoin(v, [e[0]], [e[1]], n);
      AcceptSingle(v, e[0], n);
      AcceptSingle(v.(state := Esc), e[1], n);
    } else {
      AcceptSingle(v, c, n);
    }
  }

  /** Two frames that arrive in the gap do merge, whatever packets are in them. */
  lemma MergeHappens(v: View, p: Packet, q: Packet, n: nat)
    requires v.state == Ok && v.rest == [] && p != [] && q != [] && |p| + |q| < n
    ensures Merges(v, Framed(p) + Framed(q), n)
    ensures Followed(AcceptAll(v.(first := []), Framed(p) + Framed(q), n)) == View(p + q, [], Ok)
    ensures LossAll(v.(first := []), Framed(p) + Framed(q), n) == {}
  {
    var w := v.(first := []);
    AcceptFramed(w, p, n);
    AcceptFramed(View(p, [], Ok), q, n);
    AcceptJoin(w, Framed(p), Framed(q), n);
    LossJoin(w, Framed(p), Framed(q), n);
  }

  /** Every byte received keeps the account. */
  lemma AcceptTracks(v: View, h: History, c: byte, n: nat)
    requires v.Meaningful() && Tracks(v, h)
    ensures Accept(v, c, n).Meaningful() && Tracks(Accept(v, c, n), Mark(h, v, c, n))
  {
    var v', h' := Accept(v, c, n), Mark(h, v, c, n);
    if h'.lost == {} {
      assert h.lost == {} && LossOf(v, c, n) == {} by {
        assert LossOf(v, c, n) <= h'.lost;
        assert h.lost <= h'.lost;
      }
      ScanOne(h.input, c);
      var s := Scan(h.input);
      assert Scan(h'.input) == Step(s, c);
      hide Scan, Matches;
      if v.state == Ok && c == END && v.rest != [] {
        MatchesOneMore(h.delivered + v.Waiting(), s.packets, h.merged, v.rest);
        assert h.delivered + v.Waiting() + [v.rest] == h.delivered + v'.Waiting();
      }
    }
  }

  /** Handing out the first packet. */
  lemma TakeTracks(v: View, h: History)
    requires Tracks(v, h) && v.first != []
    ensures Tracks(v.(first := []), h.(delivered := h.delivered + [v.first]))
  {
    assert h.delivered + v.Waiting() == h.delivered + [v.first] + v.(first := []).Waiting();
  }

  /** The second packet becomes the first, or is run together with it. */
  lemma MoveTracks(v: View, h: History)
    requires Tracks(v, h) && v.state == TwoPackets && v.rest != []
    ensures Tracks(View(v.first + v.rest, [], TwoPackets),
      if v.first == [] then h else h.(merged := h.merged + 1))
  {
    var v' := View(v.first + v.rest, [], TwoPackets);
    if h.lost == {} {
      FlatJoin(h.delivered, v.Waiting());
      FlatJoin(h.delivered, v'.Waiting());
      assert [v.first, v.rest][1..] == [v.rest];
      assert Flat([v.rest]) == v.rest + [] && Flat([v.first, v.rest]) == v.first + Flat([v.rest]);
      assert Flat([v.first + v.rest]) == v.first + v.rest + [];
      if v.first == [] { assert v.first + v.rest == v.rest; }
    }
  }

  /**
   * What the driver delivers is what was sent, in order, exactly when no two packets were run together:
   * nothing else can go wrong while no byte is given up.
   */
  lemma DeliversExactly(v: View, h: History)
    requires Tracks(v, h) && h.lost == {}
    ensures h.delivered + v.Waiting() == Receive(h.input, []) <==> h.merged == 0
    ensures Flat(h.delivered + v.Waiting()) == Flat(Receive(h.input, []))
  {
    var s := Scanner([], [], Reading);
    ScanReceives(s, h.input);
    assert s.packets + Receive(h.input, []) == Receive(h.input, []);
  }
}
