/** The SLIP driver (slip.c): an interrupt puts bytes into the buffer while the poll handler takes packets out. */
module SlipDriver {
  import opened Numbers
  import opened Cyclic
  import opened SlipCode
  import opened SlipRing

  const CLIENT: seq<byte> := [67, 76, 73, 69, 78, 84]
  const CLIENTSERVER: seq<byte> := CLIENT + [83, 69, 82, 86, 69, 82, END]

  /** The driver's state at one moment. */
  datatype Snapshot =
    Snapshot(view: View, past: History, begin: nat, pktEnd: nat, wire: seq<byte>, size: nat)

  /** The bytes that arrived between two moments. */
  ghost function Since(s: Snapshot, t: Snapshot): seq<byte>
    requires s.past.input <= t.past.input
  {
    t.past.input[|s.past.input|..]
  }

  /** Between two moments nothing happened but interrupts. */
  ghost predicate OnlyInterrupts(s: Snapshot, t: Snapshot) {
    && t.begin == s.begin && t.wire == s.wire
    && (s.begin != s.pktEnd || s.view.state == TwoPackets ==> t.pktEnd == s.pktEnd)
    && (s.view.first != [] ==> t.view.first == s.view.first)
    && (s.view.Second() ==> t.view.Second()) && (s.view.Settled() ==> t.view.Settled())
    && (s.view.state == TwoPackets ==> t.view == s.view)
    && t.past.delivered == s.past.delivered && t.past.merged == s.past.merged && s.past.input <= t.past.input
    && s.past.lost <= t.past.lost <= s.past.lost + {Dropped, Overflow}
    && t.size == s.size && t.view == AcceptAll(s.view, Since(s, t), s.size)
    && t.past == MarkAll(s.past, s.view, Since(s, t), s.size)
  }

  /**
   * What arrives at each statement of the poll handler. Statements 0 and 1 are before its tests, those from 7 on copy
   * the packet, 2 is the one behind which it is out of the buffer, and 3 to 5 let a second one take its place. Those of
   * the answer to CLIENT are 3 to 6.
   */
  type Arrivals = nat -> seq<byte>

  ghost function Gathered(arrivals: Arrivals, ks: seq<nat>): seq<byte> {
    if ks == [] then [] else Gathered(arrivals, ks[..|ks| - 1]) + arrivals(ks[|ks| - 1])
  }

  /** Statement numbers in order, from lo on and below hi. */
  ghost predicate Rising(ks: seq<nat>, lo: nat, hi: nat) {
    && (forall i | 0 <= i < |ks| :: lo <= ks[i] < hi)
    && (forall i, j | 0 <= i < j < |ks| :: ks[i] < ks[j])
  }

  /** The input went from a to b by the arrivals of some of these statements, in order. */
  ghost predicate Came(a: seq<byte>, b: seq<byte>, arrivals: Arrivals, lo: nat, hi: nat) {
    exists ks: seq<nat> :: Rising(ks, lo, hi) && b == a + Gathered(arrivals, ks)
  }

  /** What arrives while the packet is copied. */
  ghost predicate WhileCopying(bytes: seq<byte>, arrivals: Arrivals) {
    exists hi: nat :: Came([], bytes, arrivals, 7, hi)
  }

  /** buffer[from..to], of n bytes in all, is a part of the first packet, from its byte `at` on. */
  ghost predicate PartOf(s: Snapshot, n: nat, from: nat, to: nat, at: nat) {
    s.begin != s.pktEnd && s.view.first != [] &&
    if s.begin < s.pktEnd then from == s.begin && to == s.pktEnd && at == 0
    else if from == s.begin then to == n && at == 0
    else from == 0 && to == s.pktEnd && at == n - s.begin
  }

  /** The buffered bytes start with CLIENT, in one packet or across two, and do not wrap around. */
  ghost predicate SaysClient(v: View, begin: nat, n: nat) {
    CLIENT <= v.first + v.rest && begin + |v.first| + |v.rest| < n
  }

  /**
   * What becomes of the buffer once its first packet has left it: a second one takes its place. Until it has, the
   * bytes `held` that arrive are dropped; `after` arrives then.
   */
  function Left(w: View, after: seq<byte>, n: nat): View {
    if w.state == TwoPackets then AcceptAll(Followed(w), after, n) else w
  }

  function LateLoss(w: View, held: seq<byte>, after: seq<byte>, n: nat): set<Loss> {
    if w.state != TwoPackets then {}
    else (if held == [] then {} else {Dropped}) + LossAll(Followed(w), after, n)
  }

  /**
   * The first packet is handed out, unless it is too long for the caller. `early` arrives before it leaves the
   * buffer, and `gap` between the two statements after that, which run two packets together exactly if both are
   * completed then; if a packet is left, `held` and `after` arrive behind that.
   */
  ghost predicate Taken(s: Snapshot, t: Snapshot, early: seq<byte>, gap: seq<byte>, held: seq<byte>, after: seq<byte>,
                        blen: nat, got: Packet) {
    var n, v := s.size, AcceptAll(s.view, early, s.size);
    var u := v.(first := []);
    var w := AcceptAll(u, gap, n);
    && 0 < |v.first| < n && got == (if |v.first| > blen then [] else v.first)
    && t.size == n && t.wire == s.wire && t.begin == (s.begin + |v.first|) % n
    && t.past.delivered == s.past.delivered + (if got == [] then [] else [got])
    && t.past.merged == s.past.merged + (if Merges(v, gap, n) then 1 else 0)
    && t.past.input == s.past.input + early + gap + (if w.state == TwoPackets then held + after else [])
    && t.view == Left(w, after, n)
    && t.past.lost ==
      s.past.lost + LossAll(s.view, early, n) + LossAll(u, gap, n) + LateLoss(w, held, after, n) +
      (if got == [] then {TooLong} else {})
  }

  /** Only `before` arrived. */
  ghost predicate Untouched(s: Snapshot, t: Snapshot, before: seq<byte>) {
    && t.size == s.size && t.wire == s.wire && t.begin == s.begin
    && t.view == AcceptAll(s.view, before, s.size) && t.past == MarkAll(s.past, s.view, before, s.size)
  }

  /**
   * What the poll handler does from moment s to moment t if nobody says CLIENT: a packet that is there at its test
   * is taken. `before` arrives before that test, and `copied` while the packet is copied.
   */
  ghost predicate Ran(s: Snapshot, t: Snapshot, arrivals: Arrivals, before: seq<byte>, copied: seq<byte>, blen: nat,
                      got: Packet, took: bool) {
    && (took <==> AcceptAll(s.view, before, s.size).first != [])
    && if took then Taken(s, t, before + copied, arrivals(2), arrivals(3) + arrivals(4), arrivals(5), blen, got)
       else Untouched(s, t, before) && got == [] && copied == []
  }

  /**
   * What it does if somebody does: all that was buffered is forgotten, and the peer has its answer. The bytes that
   * arrive behind the second of its statements are dropped.
   */
  ghost predicate Answered(s: Snapshot, t: Snapshot, arrivals: Arrivals) {
    var n, v, held := s.size, AcceptAll(s.view, arrivals(0), s.size), arrivals(4) + arrivals(5) + arrivals(6);
    && t.size == n && t.wire == s.wire + CLIENTSERVER && t.begin == 0 && t.view == View([], [], Ok)
    && t.past.delivered == s.past.delivered && t.past.merged == s.past.merged
    && t.past.input == s.past.input + arrivals(0) + arrivals(3) + held
    && t.past.lost ==
      s.past.lost + LossAll(s.view, arrivals(0), n) + {ClientHack} + LossAll(v, arrivals(3), n) +
      (if held == [] then {} else {Dropped})
  }

  /** All that the poll handler does. */
  ghost predicate Polls(s: Snapshot, t: Snapshot, arrivals: Arrivals, copied: seq<byte>, blen: nat, got: Packet,
                        took: bool) {
    if SaysClient(AcceptAll(s.view, arrivals(0), s.size), s.begin, s.size) then
      Answered(s, t, arrivals) && got == [] && !took && copied == []
    else
      Ran(s, t, arrivals, arrivals(0) + arrivals(1), copied, blen, got, took) && WhileCopying(copied, arrivals)
  }

  lemma TakenAfter(s: Snapshot, m: Snapshot, t: Snapshot, a: seq<byte>, early: seq<byte>, gap: seq<byte>,
                   held: seq<byte>, after: seq<byte>, blen: nat, got: Packet)
    requires OnlyInterrupts(s, m) && m.past.input == s.past.input + a
    requires Taken(m, t, early, gap, held, after, blen, got)
    ensures Taken(s, t, a + early, gap, held, after, blen, got)
  {
    hide AcceptAll, MarkAll, LossAll, Merges, Left, LateLoss;
    assert Since(s, m) == a;
    AcceptJoin(s.view, a, early, s.size);
    LossJoin(s.view, a, early, s.size);
    LostIs(s, m, a);
    assert m.past.input + early == s.past.input + (a + early);
  }

  lemma LostIs(s: Snapshot, m: Snapshot, a: seq<byte>)
    requires OnlyInterrupts(s, m) && m.past.input == s.past.input + a
    ensures m.past.lost == s.past.lost + LossAll(s.view, a, s.size)
  {
    hide *;
    MarkedBy(s, m, a);
    MarkKeeps(s.past, s.view, a, s.size);
  }

  lemma MarkedBy(s: Snapshot, m: Snapshot, a: seq<byte>)
    requires OnlyInterrupts(s, m) && m.past.input == s.past.input + a
    ensures m.past == MarkAll(s.past, s.view, a, s.size) && m.view == AcceptAll(s.view, a, s.size) && m.size == s.size
    ensures m.begin == s.begin && m.wire == s.wire
  {
    hide AcceptAll, MarkAll;
    assert Since(s, m) == a;
  }

  lemma RanAfter(s: Snapshot, m: Snapshot, t: Snapshot, arrivals: Arrivals, before: seq<byte>, copied: seq<byte>,
                 blen: nat, got: Packet, took: bool)
    requires OnlyInterrupts(s, m) && m.past.input == s.past.input + arrivals(0)
    requires Ran(m, t, arrivals, before, copied, blen, got, took)
    ensures Ran(s, t, arrivals, arrivals(0) + before, copied, blen, got, took)
  {
    hide AcceptAll, MarkAll, OnlyInterrupts, Taken;
    MarkedBy(s, m, arrivals(0));
    AcceptJoin(s.view, arrivals(0), before, s.size);
    if took {
      TakenAfter(s, m, t, arrivals(0), before + copied, arrivals(2), arrivals(3) + arrivals(4), arrivals(5), blen, got);
      assert arrivals(0) + (before + copied) == arrivals(0) + before + copied;
    } else {
      MarkJoin(s.past, s.view, arrivals(0), before, s.size);
    }
  }

  /** No packet is there at the test. */
  lemma RanEmpty(s: Snapshot, t: Snapshot, arrivals: Arrivals, before: seq<byte>, blen: nat)
    requires OnlyInterrupts(s, t) && t.past.input == s.past.input + before && t.view.first == []
    ensures Ran(s, t, arrivals, before, [], blen, [], false)
  {
    hide AcceptAll, MarkAll, OnlyInterrupts;
    MarkedBy(s, t, before);
  }

  lemma RanTaken(s: Snapshot, m: Snapshot, t: Snapshot, arrivals: Arrivals, before: seq<byte>, copied: seq<byte>,
                 blen: nat, got: Packet)
    requires OnlyInterrupts(s, m) && m.past.input == s.past.input + before && m.view.first != []
    requires Taken(m, t, copied, arrivals(2), arrivals(3) + arrivals(4), arrivals(5), blen, got)
    ensures Ran(s, t, arrivals, before, copied, blen, got, true)
  {
    hide AcceptAll, MarkAll, OnlyInterrupts, Taken;
    MarkedBy(s, m, before);
    TakenAfter(s, m, t, before, copied, arrivals(2), arrivals(3) + arrivals(4), arrivals(5), blen, got);
  }

  lemma TakenNow(s: Snapshot, t: Snapshot, gap: seq<byte>, held: seq<byte>, after: seq<byte>, blen: nat, got: Packet)
    requires 0 < |s.view.first| < s.size && got == (if |s.view.first| > blen then [] else s.view.first)
    requires t.size == s.size && t.wire == s.wire && t.begin == (s.begin + |s.view.first|) % s.size
    requires t.past.delivered == s.past.delivered + (if got == [] then [] else [got])
    requires t.past.merged == s.past.merged + (if Merges(s.view, gap, s.size) then 1 else 0)
    requires var u := s.view.(first := []);
      var w := AcceptAll(u, gap, s.size);
      && t.past.input == s.past.input + gap + (if w.state == TwoPackets then held + after else [])
      && t.view == Left(w, after, s.size)
      && t.past.lost == s.past.lost + (if got == [] then {TooLong} else {}) + LossAll(u, gap, s.size) +
                        LateLoss(w, held, after, s.size)
    ensures Taken(s, t, [], gap, held, after, blen, got)
  {
    hide Merges, Left, LateLoss;
    assert AcceptAll(s.view, [], s.size) == s.view && LossAll(s.view, [], s.size) == {};
    hide AcceptAll, LossAll;
    assert s.past.input + [] == s.past.input;
  }

  lemma AnsweredAfter(s: Snapshot, m: Snapshot, t: Snapshot, arrivals: Arrivals)
    requires OnlyInterrupts(s, m) && m.past.input == s.past.input + arrivals(0)
    requires var held := arrivals(4) + arrivals(5) + arrivals(6);
      && t.size == m.size && t.wire == m.wire + CLIENTSERVER && t.begin == 0 && t.view == View([], [], Ok)
      && t.past.delivered == m.past.delivered && t.past.merged == m.past.merged
      && t.past.input == m.past.input + arrivals(3) + held
      && t.past.lost == m.past.lost + {ClientHack} + LossAll(m.view, arrivals(3), m.size) +
                        (if held == [] then {} else {Dropped})
    ensures Answered(s, t, arrivals)
  {
    hide AcceptAll, MarkAll, LossAll;
    assert Since(s, m) == arrivals(0);
    LostIs(s, m, arrivals(0));
  }

  lemma PollsClient(s: Snapshot, t: Snapshot, arrivals: Arrivals, blen: nat, got: Packet)
    requires SaysClient(AcceptAll(s.view, arrivals(0), s.size), s.begin, s.size) && Answered(s, t, arrivals)
    requires got == []
    ensures Polls(s, t, arrivals, [], blen, got, false)
  {}

  lemma PollsPacket(s: Snapshot, t: Snapshot, arrivals: Arrivals, copied: seq<byte>, blen: nat, got: Packet, took: bool)
    requires !SaysClient(AcceptAll(s.view, arrivals(0), s.size), s.begin, s.size) && WhileCopying(copied, arrivals)
    requires Ran(s, t, arrivals, arrivals(0) + arrivals(1), copied, blen, got, took)
    ensures Polls(s, t, arrivals, copied, blen, got, took)
  {}

  lemma LeftIs(w: View, held: seq<byte>, after: seq<byte>, n: nat)
    ensures Left(w, after, n) == if w.state == TwoPackets then AcceptAll(Followed(w), after, n) else w
    ensures LateLoss(w, held, after, n) ==
      if w.state != TwoPackets then {}
      else (if held == [] then {} else {Dropped}) + LossAll(Followed(w), after, n)
  {}

  /** While two packets are buffered all that arrives is dropped. */
  lemma {:induction false} TwoDrop(v: View, bytes: seq<byte>, n: nat)
    requires v.state == TwoPackets
    ensures AcceptAll(v, bytes, n) == v && LossAll(v, bytes, n) == if bytes == [] then {} else {Dropped}
  {
    if bytes != [] { TwoDrop(v, bytes[..|bytes| - 1], n); }
  }

  /** Packets are run together only if two of them end in the gap. */
  /** Packets are run together only if two end in the gap, and too long only for a small buffer. */
  lemma PollGives(s: Snapshot, t: Snapshot, arrivals: Arrivals, copied: seq<byte>, blen: nat, got: Packet, took: bool)
    requires s.view.Settled() && Polls(s, t, arrivals, copied, blen, got, took)
    ensures t.past.delivered == s.past.delivered + (if got == [] then [] else [got])
    ensures Ends(arrivals(2)) < 2 ==> t.past.merged == s.past.merged
    ensures TooLong !in s.past.lost && s.size <= blen ==> TooLong !in t.past.lost
  {
    hide AcceptAll, LossAll, MarkAll, Left, LateLoss, Merges, Ends, SaysClient, WhileCopying;
    var before, early, n := arrivals(0) + arrivals(1), arrivals(0) + arrivals(1) + copied, s.size;
    var v := AcceptAll(s.view, early, n);
    var u := v.(first := []);
    var w := AcceptAll(u, arrivals(2), n);
    AcceptKeeps(s.view, early, n);
    NoMergeBelowTwo(v, arrivals(2), n);
    MarkKeeps(s.past, s.view, before, n);
    MarkKeeps(s.past, s.view, early, n);
    MarkKeeps(s.past, u, arrivals(2), n);
    MarkKeeps(s.past, Followed(w), arrivals(5), n);
    MarkKeeps(s.past, s.view, arrivals(0), n);
    MarkKeeps(s.past, AcceptAll(s.view, arrivals(0), n), arrivals(3), n);
    LeftIs(w, arrivals(3) + arrivals(4), arrivals(5), n);
  }

  /** A poll in which nothing arrives but in its gap. */
  lemma GapOnly(s: Snapshot, t: Snapshot, arrivals: Arrivals, copied: seq<byte>, blen: nat, got: Packet, took: bool)
    requires Polls(s, t, arrivals, copied, blen, got, took) && s.size <= blen
    requires forall k: nat :: k != 2 ==> arrivals(k) == []
    ensures t.size == s.size
    ensures if SaysClient(s.view, s.begin, s.size) then
        && got == [] && t.view == View([], [], Ok) && t.past == s.past.(lost := s.past.lost + {ClientHack})
        && t.wire == s.wire + CLIENTSERVER
      else if s.view.first == [] then
        got == [] && t.view == s.view && t.past == s.past && t.wire == s.wire
      else
        var u := s.view.(first := []);
        && got == s.view.first && t.view == Followed(AcceptAll(u, arrivals(2), s.size)) && t.wire == s.wire
        && t.past == History(s.past.input + arrivals(2), s.past.delivered + [got],
                             s.past.lost + LossAll(u, arrivals(2), s.size),
                             s.past.merged + (if Merges(s.view, arrivals(2), s.size) then 1 else 0))
  {
    if !SaysClient(AcceptAll(s.view, arrivals(0), s.size), s.begin, s.size) { NoneCopying(copied, arrivals); }
    Nothing(s.view, s.past, s.size);
    hide AcceptAll, LossAll, MarkAll, Merges, SaysClient, WhileCopying;
    assert copied == [] && arrivals(0) + arrivals(1) == [] && arrivals(3) + arrivals(4) == [];
    var w := AcceptAll(s.view.(first := []), arrivals(2), s.size);
    Nothing(Followed(w), s.past, s.size);
    assert s.past.input + [] == s.past.input;
  }

  lemma Nothing(v: View, h: History, n: nat)
    ensures AcceptAll(v, [], n) == v && LossAll(v, [], n) == {} && MarkAll(h, v, [], n) == h
  {}

  lemma BufferSaysClient(buf: seq<byte>, b: nat, p: nat, e: nat, s: State)
    requires b < |buf| && p < |buf| && e < |buf| && Ordered(b, p, e)
    ensures SaysClient(View(Slice(buf, b, p), Slice(buf, p, e), s), b, |buf|) <==>
      b < e && e - b >= 6 && buf[b..b + 6] == CLIENT
  {
    SliceJoins(buf, b, p, e);
    if b < e {
      StraightSlice(buf, b, e);
      assert Slice(buf, b, e) == buf[b..e];
      if e - b >= 6 { assert buf[b..e][..6] == buf[b..b + 6]; }
    }
  }

  lemma InterruptsGoOn(s: Snapshot, t: Snapshot, u: Snapshot)
    requires OnlyInterrupts(s, t) && OnlyInterrupts(t, u)
    ensures OnlyInterrupts(s, u) && Since(s, u) == Since(s, t) + Since(t, u)
  {
    assert Since(s, u) == Since(s, t) + Since(t, u);
    AcceptJoin(s.view, Since(s, t), Since(t, u), s.size);
    MarkJoin(s.past, s.view, Since(s, t), Since(t, u), s.size);
    hide AcceptAll, MarkAll;
  }

  lemma LossyTracks()
    ensures forall v, h: History :: h.lost != {} ==> Tracks(v, h)
  {}

  lemma OneTracks(first: Packet, h: History)
    requires Tracks(View(first, [], TwoPackets), h)
    ensures Tracks(View(first, [], Ok), h)
  {
    assert View(first, [], TwoPackets).Waiting() == View(first, [], Ok).Waiting();
  }

  lemma CameNone(a: seq<byte>, arrivals: Arrivals, lo: nat, hi: nat)
    ensures Came(a, a, arrivals, lo, hi)
  {
    assert Rising([], lo, hi) && a == a + Gathered(arrivals, []);
  }

  lemma CameMore(a: seq<byte>, b: seq<byte>, arrivals: Arrivals, lo: nat, k: nat)
    requires Came(a, b, arrivals, lo, k) && lo <= k
    ensures Came(a, b + arrivals(k), arrivals, lo, k + 1)
  {
    var ks: seq<nat> :| Rising(ks, lo, k) && b == a + Gathered(arrivals, ks);
    RisingMore(ks, lo, k);
    GatheredMore(arrivals, ks, k);
    hide Gathered, Rising;
    assert b + arrivals(k) == a + (Gathered(arrivals, ks) + arrivals(k));
  }

  lemma RisingMore(ks: seq<nat>, lo: nat, k: nat)
    requires Rising(ks, lo, k) && lo <= k
    ensures Rising(ks + [k], lo, k + 1)
  {}

  lemma GatheredMore(arrivals: Arrivals, ks: seq<nat>, k: nat)
    ensures Gathered(arrivals, ks + [k]) == Gathered(arrivals, ks) + arrivals(k)
  {
    assert (ks + [k])[..|ks|] == ks;
  }

  lemma CameWiden(a: seq<byte>, b: seq<byte>, arrivals: Arrivals, lo: nat, hi: nat, lo': nat, hi': nat)
    requires Came(a, b, arrivals, lo, hi) && lo' <= lo && hi <= hi'
    ensures Came(a, b, arrivals, lo', hi')
  {
    var ks: seq<nat> :| Rising(ks, lo, hi) && b == a + Gathered(arrivals, ks);
    assert Rising(ks, lo', hi');
  }

  /** A part of the handler has the arrivals from statement d on. */
  lemma CameOn(a: seq<byte>, b: seq<byte>, c: seq<byte>, arrivals: Arrivals, part: Arrivals, d: nat, lo: nat, mid: nat,
               from: nat, hi: nat)
    requires Came(a, b, arrivals, lo, mid) && Came(b, c, part, from, hi) && forall i: nat :: part(i) == arrivals(d + i)
    requires lo <= mid <= d + from && from <= hi
    ensures Came(a, c, arrivals, lo, d + hi)
  {
    var ks: seq<nat> :| Rising(ks, from, hi) && c == b + Gathered(part, ks);
    CameAll(a, b, arrivals, part, d, lo, mid, from, hi, ks);
  }

  lemma {:induction false} CameAll(a: seq<byte>, b: seq<byte>, arrivals: Arrivals, part: Arrivals, d: nat, lo: nat,
                                   mid: nat, from: nat, hi: nat, ks: seq<nat>)
    requires Came(a, b, arrivals, lo, mid) && forall i: nat :: part(i) == arrivals(d + i)
    requires Rising(ks, from, hi) && lo <= mid <= d + from && from <= hi
    ensures Came(a, b + Gathered(part, ks), arrivals, lo, d + hi)
    decreases |ks|
  {
    hide Came;
    if ks == [] {
      assert b + Gathered(part, ks) == b;
      CameWiden(a, b, arrivals, lo, mid, lo, d + hi);
    } else {
      var before, k := ks[..|ks| - 1], ks[|ks| - 1];
      CameAll(a, b, arrivals, part, d, lo, mid, from, k, before);
      CameMore(a, b + Gathered(part, before), arrivals, lo, d + k);
      assert Gathered(part, ks) == Gathered(part, before) + part(k);
      assert b + (Gathered(part, before) + part(k)) == b + Gathered(part, before) + part(k);
      CameWiden(a, b + Gathered(part, ks), arrivals, lo, d + k + 1, lo, d + hi);
    }
  }

  lemma CameOnly(a: seq<byte>, b: seq<byte>, arrivals: Arrivals, lo: nat, hi: nat)
    requires Came(a, b, arrivals, lo, hi)
    ensures a <= b && Came([], b[|a|..], arrivals, lo, hi)
  {
    var ks: seq<nat> :| Rising(ks, lo, hi) && b == a + Gathered(arrivals, ks);
    assert b[|a|..] == [] + Gathered(arrivals, ks);
  }

  lemma CopiedThen(a: seq<byte>, b: seq<byte>, arrivals: Arrivals, part: Arrivals, hi: nat)
    requires Came(a, b, part, 0, hi) && forall i: nat :: part(i) == arrivals(7 + i)
    ensures a <= b && WhileCopying(b[|a|..], arrivals)
  {
    hide Came;
    CameNone(a, arrivals, 7, 7);
    CameOn(a, a, b, arrivals, part, 7, 7, 7, 0, hi);
    CameOnly(a, b, arrivals, 7, 7 + hi);
  }

  lemma CopiedNone(arrivals: Arrivals)
    ensures WhileCopying([], arrivals)
  {
    CameNone([], arrivals, 7, 7);
  }

  /** Nothing arrives then. */
  lemma NoneCopying(bytes: seq<byte>, arrivals: Arrivals)
    requires WhileCopying(bytes, arrivals) && forall k: nat :: k >= 7 ==> arrivals(k) == []
    ensures bytes == []
  {
    var hi: nat :| Came([], bytes, arrivals, 7, hi);
    var ks: seq<nat> :| Rising(ks, 7, hi) && bytes == [] + Gathered(arrivals, ks);
    QuietGathered(arrivals, ks);
  }

  lemma {:induction false} QuietGathered(arrivals: Arrivals, ks: seq<nat>)
    requires forall k: nat | k in ks :: arrivals(k) == []
    ensures Gathered(arrivals, ks) == []
  {
    if ks != [] { QuietGathered(arrivals, ks[..|ks| - 1]); }
  }

  class Driver {
    const rxbuf: array<byte>
    var begin: nat
    var end: nat
    var pktEnd: nat
    var state: State
    var polled: bool
    var wire: seq<byte>
    ghost var past: History

    ghost predicate Indices()
      reads this, rxbuf
    {
      begin < rxbuf.Length && end < rxbuf.Length && pktEnd < rxbuf.Length && Ordered(begin, pktEnd, end)
    }

    ghost function View(): View
      reads this, rxbuf
      requires Indices()
    {
      SlipRing.View(Slice(rxbuf[..], begin, pktEnd), Slice(rxbuf[..], pktEnd, end), state)
    }

    /** What holds before every statement of the poll handler. */
    ghost predicate Sane()
      reads this, rxbuf
    {
      Indices() && View().Meaningful() && Tracks(View(), past)
    }

    /** What holds between two runs of the poll handler: a packet that waits has asked to be polled. */
    ghost predicate Valid()
      reads this, rxbuf
    {
      Sane() && View().Settled() && (begin != pktEnd ==> polled)
    }

    /** rxbuf_init */
    constructor (size: nat)
      requires size > 0
      ensures Valid() && fresh(rxbuf) && rxbuf.Length == size
      ensures past == History([], [], {}, 0) && View() == SlipRing.View([], [], Ok) && wire == [] && begin == 0
    {
      rxbuf := new byte[size](_ => 0);
      begin, end, pktEnd, state, polled, wire := 0, 0, 0, Ok, false, [];
      past := History([], [], {}, 0);
      new;
      assert Scan([]) == Scanner([], [], Reading);
    }

    /** slip_write */
    method Write(p: Packet) returns (r: nat)
      requires Valid() && |p| <= 0xFFFF
      modifies this`wire
      ensures Valid() && wire == old(wire) + Framed(p) && r == |p| % 256
    {
      hide Slice, Tracks, Ordered;
      wire := wire + [END];
      var i := 0;
      assert p[..0] == [];
      while i < |p|
        invariant 0 <= i <= |p|
        invariant wire == old(wire) + [END] + Escaped(p[..i])
      {
        EscapedMore(p[..i], p[i]);
        assert p[..i + 1] == p[..i] + [p[i]];
        var c := p[i];
        if c == END {
          wire := wire + [ESC];
          c := ESC_END;
        } else if c == ESC {
          wire := wire + [ESC];
          c := ESC_ESC;
        }
        wire := wire + [c];
        i := i + 1;
      }
      assert p[..|p|] == p;
      wire := wire + [END];
      return |p| % 256;
    }

    /** slip_input_byte: what the interrupt does to the buffer, at any point of the poll handler. */
    method InputByte(byte: byte) returns (r: bool)
      requires Sane()
      modifies this, rxbuf
      ensures Sane() && begin == old(begin) && wire == old(wire)
      ensures View() == Accept(old(View()), byte, rxbuf.Length)
      ensures past == Mark(old(past), old(View()), byte, rxbuf.Length)
      ensures polled == (old(polled) || r)
      // a packet is complete, or a T has been stored behind a C at the start
      ensures r <==>
        && old(state) == Ok
        && if byte == END then old(end) != old(pktEnd) else byte == 84 && state == Ok && rxbuf[begin] == 67
      ensures old(begin) == old(pktEnd) && begin != pktEnd ==> polled
      ensures old(begin) != old(pktEnd) || old(state) == TwoPackets ==> pktEnd == old(pktEnd)
    {
      var c := byte;
      ghost var v := View();
      SliceJoins(rxbuf[..], begin, pktEnd, end);
      AcceptTracks(v, past, byte, rxbuf.Length);
      past := Mark(past, v, byte, rxbuf.Length);
      hide Tracks, Mark, Slice;
      match state {
        case Rubbish =>
          if c == END {
            state := Ok;
          }
          return false;
        case TwoPackets =>
          return false;
        case Esc =>
          if c == ESC_END {
            c := END;
          } else if c == ESC_ESC {
            c := ESC;
          } else {
            state := Rubbish;
            end := pktEnd;
            return false;
          }
          state := Ok;
        case Ok =>
          if c == ESC {
            state := Esc;
            return false;
          } else if c == END {
            if end != pktEnd {
              if begin == pktEnd {
                pktEnd := end;
              } else {
                state := TwoPackets;
              }
              polled := true;
              return true;
            }
            return false;
          }
      }
      r := PutByte(c);
    }

    /** The end of slip_input_byte, from its label add_char. */
    method PutByte(c: byte) returns (r: bool)
      requires Indices() && state == Ok
      modifies this`end, this`state, this`polled, rxbuf
      ensures Indices() && View() == AddChar(old(View()), c, rxbuf.Length)
      ensures polled == (old(polled) || r)
      ensures r <==> state == Ok && c == 84 && rxbuf[begin] == 67
    {
      SliceGrows(rxbuf[..], begin, pktEnd, end, c);
      ghost var buf := rxbuf[..];
      var next := end + 1;
      if next == rxbuf.Length {
        next := 0;
      }
      if next == begin {
        state := Rubbish;
        end := pktEnd;
        return false;
      }
      rxbuf[end] := c;
      assert rxbuf[..] == buf[end := c];
      end := next;
      hide Slice;
      if c == 84 && rxbuf[begin] == 67 {
        polled := true;
        return true;
      }
      return false;
    }

    ghost function Now(): Snapshot
      reads this, rxbuf
      requires Sane()
    {
      Snapshot(View(), past, begin, pktEnd, wire, rxbuf.Length)
    }

    /** Interrupts between two statements. */
    method Interrupts(bytes: seq<byte>)
      requires Sane()
      modifies this, rxbuf
      ensures Sane() && View() == AcceptAll(old(View()), bytes, rxbuf.Length)
      ensures past == MarkAll(old(past), old(View()), bytes, rxbuf.Length) && past.input == old(past.input) + bytes
      ensures OnlyInterrupts(old(Now()), Now()) && begin == old(begin) && wire == old(wire)
      ensures past.delivered == old(past.delivered) && past.merged == old(past.merged)
      ensures past.lost ==
        old(past.lost) + LossAll(old(View()), bytes, rxbuf.Length) <= old(past.lost) + {Dropped, Overflow}
      ensures bytes == [] ==> View() == old(View()) && past == old(past)
      ensures old(state) == TwoPackets ==> View() == old(View())
      ensures (old(View()).Second() ==> View().Second()) && (old(View()).Settled() ==> View().Settled())
      ensures old(begin) == old(pktEnd) && begin != pktEnd ==> polled
      ensures old(Valid()) ==> Valid()
    {
      hide Tracks, Mark, Accept, Slice, LossAll;
      ghost var v, h, b, p, w, q := View(), past, begin, pktEnd, wire, polled;
      ghost var n := rxbuf.Length;
      var i := 0;
      assert bytes[..0] == [];
      while i < |bytes|
        invariant 0 <= i <= |bytes|
        invariant Sane() && View() == AcceptAll(v, bytes[..i], n) && past == MarkAll(h, v, bytes[..i], n)
        invariant begin == b && wire == w && (q ==> polled) && (b == p && b != pktEnd ==> polled)
        invariant b != p || v.state == TwoPackets ==> pktEnd == p
      {
        assert bytes[..i + 1][..i] == bytes[..i];
        AcceptKeeps(v, bytes[..i], n);
        var r := InputByte(bytes[i]);
        i := i + 1;
      }
      assert bytes[..|bytes|] == bytes;
      AcceptKeeps(v, bytes, n);
      MarkKeeps(h, v, bytes, n);
      assert past.input[|h.input|..] == bytes;
    }

    lemma PartAt(s: Snapshot, from: nat, to: nat, at: nat, i: nat)
      requires Sane() && OnlyInterrupts(s, Now()) && PartOf(s, rxbuf.Length, from, to, at) && from <= i < to
      ensures i < rxbuf.Length && at + (to - from) <= |s.view.first| && rxbuf[i] == s.view.first[at + (i - from)]
    {}

    /** The loops that copy the packet of moment s out, with interrupts between any two bytes. */
    method Copy(out: array<byte>, at: nat, from: nat, to: nat, arrivals: Arrivals, ghost s: Snapshot)
      requires Sane() && OnlyInterrupts(s, Now()) && PartOf(s, rxbuf.Length, from, to, at) && out != rxbuf
      requires from <= to && at + (to - from) <= out.Length && at + (to - from) <= |s.view.first|
      requires out[..at] == s.view.first[..at]
      modifies this, rxbuf, out
      ensures Sane() && OnlyInterrupts(s, Now()) && Came(old(past.input), past.input, arrivals, from + 1, to + 1)
      ensures out[..at + (to - from)] == s.view.first[..at + (to - from)]
    {
      ghost var v := s.view.first;
      var i := from;
      hide *;
      CameNone(past.input, arrivals, from + 1, from + 1);
      while i < to
        invariant from <= i <= to
        invariant Sane() && OnlyInterrupts(s, Now()) && Came(old(past.input), past.input, arrivals, from + 1, i + 1)
        invariant out[..at + (i - from)] == v[..at + (i - from)]
      {
        PartAt(s, from, to, at, i);
        CameMore(old(past.input), past.input, arrivals, from + 1, i + 1);
        CopyByte(out, at + (i - from), i, arrivals(i + 1), s);
        i := i + 1;
      }
    }

    /** One round of these loops. */
    method CopyByte(out: array<byte>, at: nat, i: nat, bytes: seq<byte>, ghost s: Snapshot)
      requires Sane() && OnlyInterrupts(s, Now()) && out != rxbuf && i < rxbuf.Length && at < out.Length
      requires at < |s.view.first| && rxbuf[i] == s.view.first[at] && out[..at] == s.view.first[..at]
      modifies this, rxbuf, out
      ensures Sane() && OnlyInterrupts(s, Now()) && past.input == old(past.input) + bytes
      ensures out[..at + 1] == s.view.first[..at + 1]
    {
      hide *;
      ghost var t := Now();
      out[at] := rxbuf[i];
      assert out[..at + 1] == out[..at] + [s.view.first[at]];
      assert Now() == t;
      Interrupts(bytes);
      InterruptsGoOn(s, t, Now());
    }

    /** The answer to a peer that says CLIENT: all that is buffered is forgotten. */
    method AnswerClient(arrivals: Arrivals)
      requires Sane() && begin + 6 <= rxbuf.Length
      modifies this, rxbuf
      ensures Valid() && wire == old(wire) + CLIENTSERVER && begin == 0 && View() == SlipRing.View([], [], Ok)
      ensures past.delivered == old(past.delivered) && past.merged == old(past.merged)
      ensures past.input == old(past.input) + arrivals(3) + (arrivals(4) + arrivals(5) + arrivals(6))
      ensures past.lost ==
        old(past.lost) + {ClientHack} + LossAll(old(View()), arrivals(3), rxbuf.Length) +
        (if arrivals(4) + arrivals(5) + arrivals(6) == [] then {} else {Dropped})
    {
      hide AcceptAll, MarkAll, LossAll, Slice, Tracks, OnlyInterrupts, Scan, Matches;
      LossyTracks();
      past := past.(lost := past.lost + {ClientHack});
      Interrupts(arrivals(3));
      state := TwoPackets;
      Forget(arrivals(4), arrivals(5), arrivals(6));
      wire := wire + CLIENTSERVER;
    }

    /** The packet's first bytes are overwritten, and the buffer is emptied. */
    method Forget(before: seq<byte>, between: seq<byte>, after: seq<byte>)
      requires Sane() && state == TwoPackets && past.lost != {} && begin + 6 <= rxbuf.Length
      modifies this, rxbuf
      ensures Valid() && wire == old(wire) && begin == 0 && View() == SlipRing.View([], [], Ok)
      ensures past.delivered == old(past.delivered) && past.merged == old(past.merged)
      ensures past.input == old(past.input) + (before + between + after)
      ensures past.lost == old(past.lost) + (if before + between + after == [] then {} else {Dropped})
    {
      hide AcceptAll, MarkAll, LossAll, Slice, Tracks, OnlyInterrupts, Driver.Now;
      LossyTracks();
      TwoDrop(View(), before, rxbuf.Length);
      Interrupts(before);
      forall i | begin <= i < begin + 6 { rxbuf[i] := 0; }
      TwoDrop(View(), between, rxbuf.Length);
      Interrupts(between);
      Init(after);
    }

    /** rxbuf_init, with interrupts between its statements. */
    method Init(bytes: seq<byte>)
      requires Indices() && state == TwoPackets && past.lost != {}
      modifies this, rxbuf
      ensures Valid() && wire == old(wire) && begin == 0 && View() == SlipRing.View([], [], Ok)
      ensures past.delivered == old(past.delivered) && past.merged == old(past.merged)
      ensures past.input == old(past.input) + bytes
      ensures past.lost == old(past.lost) + (if bytes == [] then {} else {Dropped})
    {
      hide AcceptAll, MarkAll, LossAll, Slice, Tracks, OnlyInterrupts, Driver.Now;
      LossyTracks();
      begin, end, pktEnd := 0, 0, 0;
      SliceJoins(rxbuf[..], begin, pktEnd, end);
      TwoDrop(View(), bytes, rxbuf.Length);
      Interrupts(bytes);
      SliceJoins(rxbuf[..], begin, pktEnd, end);
      state := Ok;
    }

    /** The part of the poll handler that copies the packet out, unless it is too long. */
    method CopyPacket(out: array<byte>, blen: nat, arrivals: Arrivals) returns (len: nat)
      requires Sane() && begin != pktEnd && out != rxbuf && blen <= out.Length
      modifies this, rxbuf, out
      ensures Sane() && OnlyInterrupts(old(Now()), Now())
      ensures Came(old(past.input), past.input, arrivals, 0, 2 * rxbuf.Length + 3)
      ensures len == (if |old(View()).first| > blen then 0 else |old(View()).first|)
      ensures len > 0 ==> out[..len] == old(View()).first
    {
      hide *;
      ghost var s, a := Now(), past.input;
      Shows();
      Waits();
      StartsHere();
      SamePlace(s);
      len := if begin < pktEnd then pktEnd - begin else rxbuf.Length - begin + pktEnd;
      Interrupts(arrivals(0));
      CameNone(a, arrivals, 0, 0);
      CameMore(a, a, arrivals, 0, 0);
      if len > blen {
        len := 0;
        CameWiden(a, past.input, arrivals, 0, 1, 0, 2 * rxbuf.Length + 3);
      } else {
        var part: Arrivals := i => arrivals(1 + i);
        ghost var b := past.input;
        CopyOut(out, len, part, s);
        CameOn(a, b, past.input, arrivals, part, 1, 0, 1, 0, 2 * rxbuf.Length + 2);
      }
    }

    /** The two ways in which the poll handler copies. */
    method CopyOut(out: array<byte>, len: nat, arrivals: Arrivals, ghost s: Snapshot)
      requires Sane() && OnlyInterrupts(s, Now()) && s.begin != s.pktEnd && s.view.first != [] && out != rxbuf
      requires len == |s.view.first| <= out.Length
      modifies this, rxbuf, out
      ensures Sane() && OnlyInterrupts(s, Now()) && out[..len] == s.view.first
      ensures Came(old(past.input), past.input, arrivals, 0, 2 * rxbuf.Length + 2)
    {
      hide *;
      SamePlace(s);
      ghost var first, a := s.view.first, past.input;
      assert first[..len] == first && out[..0] == first[..0];
      if begin < pktEnd {
        ghost var from, to := begin, pktEnd;
        Copy(out, 0, begin, pktEnd, arrivals, s);
        CameWiden(a, past.input, arrivals, from + 1, to + 1, 0, 2 * rxbuf.Length + 2);
      } else {
        ghost var from := begin;
        Copy(out, 0, begin, rxbuf.Length, arrivals, s);
        SamePlace(s);
        var part: Arrivals := i => arrivals(1 + rxbuf.Length + i);
        ghost var b, to := past.input, pktEnd;
        Copy(out, rxbuf.Length - begin, 0, pktEnd, part, s);
        CameOn(a, b, past.input, arrivals, part, 1 + rxbuf.Length, from + 1, rxbuf.Length + 1, 1, to + 1);
        CameWiden(a, past.input, arrivals, from + 1, 1 + rxbuf.Length + (to + 1), 0, 2 * rxbuf.Length + 2);
      }
    }

    lemma StartsHere()
      requires Sane()
      ensures OnlyInterrupts(Now(), Now())
    {
      assert Since(Now(), Now()) == [];
    }

    lemma SamePlace(s: Snapshot)
      requires Sane() && OnlyInterrupts(s, Now()) && s.begin != s.pktEnd
      ensures s.view.first != [] ==>
        |s.view.first| == if begin < pktEnd then pktEnd - begin else rxbuf.Length - begin + pktEnd
      ensures begin == s.begin && pktEnd == s.pktEnd && begin < rxbuf.Length && pktEnd < rxbuf.Length
      ensures s == Now() ==> s.view.first != []
      ensures s.view.first != [] && begin < pktEnd ==> PartOf(s, rxbuf.Length, begin, pktEnd, 0)
      ensures s.view.first != [] && pktEnd < begin ==>
        && PartOf(s, rxbuf.Length, begin, rxbuf.Length, 0)
        && PartOf(s, rxbuf.Length, 0, pktEnd, rxbuf.Length - begin)
    {}

    /**
     * The end of the poll handler: the packet leaves the buffer, and a second one takes its place. Two packets
     * are run together exactly when both are completed between the first two statements.
     */
    method Release(dropped: bool, arrivals: Arrivals, ghost blen: nat)
      requires Sane() && View().Settled() && begin != pktEnd && (dropped <==> |View().first| > blen)
      modifies this, rxbuf
      ensures Valid()
      ensures Taken(old(Now()), Now(), [], arrivals(2), arrivals(3) + arrivals(4), arrivals(5), blen,
                    if dropped then [] else old(View()).first)
    {
      hide *;
      Shows();
      Waits();
      ghost var s, v, n := Now(), View(), rxbuf.Length;
      ReleaseMeans(v, arrivals(2), n);
      TakeOut(dropped);
      Interrupts(arrivals(2));
      Shows();
      ghost var w := View();
      LeftIs(w, arrivals(3) + arrivals(4), arrivals(5), n);
      if state == TwoPackets {
        Follow(arrivals);
      } else {
        Stays();
      }
      Between();
      TakenNow(s, Now(), arrivals(2), arrivals(3) + arrivals(4), arrivals(5), blen, if dropped then [] else v.first);
    }

    /** The packet leaves the buffer. */
    method TakeOut(dropped: bool)
      requires Sane() && View().Settled() && begin != pktEnd
      modifies this`begin, this`past
      ensures Sane() && begin == pktEnd && View() == old(View()).(first := []) && old(View()).first != []
      ensures begin == (old(begin) + |old(View()).first|) % rxbuf.Length
      ensures past == if dropped then old(past).(lost := old(past.lost) + {TooLong})
                      else old(past).(delivered := old(past.delivered) + [old(View()).first])
    {
      hide Slice, Tracks;
      ghost var v := View();
      SliceJoins(rxbuf[..], begin, pktEnd, end);
      LossyTracks();
      if !dropped { TakeTracks(v, past); }
      past := if dropped then past.(lost := past.lost + {TooLong}) else past.(delivered := past.delivered + [v.first]);
      SliceEnds(rxbuf[..], begin, pktEnd);
      begin := pktEnd;
      SliceJoins(rxbuf[..], begin, pktEnd, end);
      assert View() == v.(first := []);
    }

    lemma Stays()
      requires Sane() && View().Second() && state != TwoPackets && (begin != pktEnd ==> polled)
      ensures Valid()
    {}

    /** The second packet becomes the one to be polled. */
    method Follow(arrivals: Arrivals)
      requires Sane() && View().Second() && state == TwoPackets
      modifies this, rxbuf
      ensures Valid() && wire == old(wire) && begin == old(begin) && past.delivered == old(past.delivered)
      ensures View() == AcceptAll(Followed(old(View())), arrivals(5), rxbuf.Length)
      ensures past.input == old(past.input) + (arrivals(3) + arrivals(4) + arrivals(5))
      ensures past.lost ==
        old(past.lost) + (if arrivals(3) + arrivals(4) == [] then {} else {Dropped}) +
        LossAll(Followed(old(View())), arrivals(5), rxbuf.Length)
      ensures past.merged == old(past.merged) + (if old(View()).first != [] then 1 else 0)
    {
      hide *;
      Shows();
      ghost var v := View();
      FollowMeans(v);
      TwoDrop(v, arrivals(3), rxbuf.Length);
      Interrupts(arrivals(3));
      Shows();
      MoveUp();
      Shows();
      TwoDrop(View(), arrivals(4), rxbuf.Length);
      Interrupts(arrivals(4));
      Shows();
      Resume();
      Interrupts(arrivals(5));
      AskPoll();
    }

    method MoveUp()
      requires Sane() && View().Second() && state == TwoPackets
      modifies this`pktEnd, this`past
      ensures Sane() && View() == SlipRing.View(old(View()).first + old(View()).rest, [], TwoPackets)
      ensures past == if old(View()).first == [] then old(past) else old(past).(merged := old(past.merged) + 1)
    {
      hide Slice, Tracks;
      ghost var v := View();
      SliceJoins(rxbuf[..], begin, pktEnd, end);
      MoveTracks(v, past);
      pktEnd := end;
      SliceJoins(rxbuf[..], begin, pktEnd, end);
      past := if v.first == [] then past else past.(merged := past.merged + 1);
      assert View() == SlipRing.View(v.first + v.rest, [], TwoPackets);
    }

    method Resume()
      requires Sane() && state == TwoPackets && View().rest == []
      modifies this`state
      ensures Sane() && View() == old(View()).(state := Ok) && View().Settled()
    {
      hide Slice, Tracks;
      OneTracks(View().first, past);
      assert View() == SlipRing.View(View().first, [], TwoPackets);
      state := Ok;
      assert View() == SlipRing.View(View().first, [], Ok);
    }

    method AskPoll()
      requires Sane() && View().Settled()
      modifies this`polled
      ensures Valid() && View() == old(View())
    {
      polled := true;
    }

    /** slip_poll_handler, with interrupts before any of its statements. */
    method PollHandler(out: array<byte>, blen: nat, arrivals: Arrivals)
        returns (len: nat, ghost took: bool, ghost copied: seq<byte>)
      requires Valid() && out != rxbuf && blen <= out.Length
      modifies this, rxbuf, out
      ensures Valid() && len <= blen && Polls(old(Now()), Now(), arrivals, copied, blen, out[..len], took)
    {
      hide *;
      Between();
      ghost var s := Now();
      ClearPoll();
      Interrupts(arrivals(0));
      ghost var m := Now();
      Moment(s);
      var asks := AsksClient();
      if asks {
        AnswerClient(arrivals);
        Between();
        AnsweredAfter(s, m, Now(), arrivals);
        len, took, copied := 0, false, [];
        PollsClient(s, Now(), arrivals, blen, out[..len]);
      } else {
        len, took, copied := Take(out, blen, arrivals);
        Between();
        RanAfter(s, m, Now(), arrivals, arrivals(1), copied, blen, out[..len], took);
        PollsPacket(s, Now(), arrivals, copied, blen, out[..len], took);
      }
    }

    lemma Shows()
      requires Sane()
      ensures Indices() && View().state == state
      ensures Now() == Snapshot(View(), past, begin, pktEnd, wire, rxbuf.Length)
    {}

    lemma Between()
      requires Valid()
      ensures Sane() && Indices() && View().Settled()
        && Now() == Snapshot(View(), past, begin, pktEnd, wire, rxbuf.Length)
    {}

    lemma Moment(s: Snapshot)
      requires Sane() && OnlyInterrupts(s, Now())
      ensures Now() == Snapshot(View(), past, begin, pktEnd, wire, rxbuf.Length) && begin == s.begin
      ensures wire == s.wire && past.delivered == s.past.delivered && past.merged == s.past.merged
      ensures s.past.lost <= past.lost <= s.past.lost + {Dropped, Overflow}
      ensures s.view.first != [] ==> View().first == s.view.first
      ensures Indices() && s.past.input <= past.input && (s.view.Settled() ==> View().Settled())
    {}

    method ClearPoll()
      requires Sane()
      modifies this`polled
      ensures Sane() && Now() == old(Now()) && View() == old(View())
    {
      polled := false;
    }

    /** The test at the start of the poll handler. */
    method AsksClient() returns (asks: bool)
      requires Indices()
      ensures asks <==> SaysClient(View(), begin, rxbuf.Length)
      ensures asks ==> begin + 6 <= rxbuf.Length
    {
      BufferSaysClient(rxbuf[..], begin, pktEnd, end, state);
      asks := false;
      if rxbuf[begin] == CLIENT[0] {
        asks := begin < end && end - begin >= 6 && rxbuf[begin..begin + 6] == CLIENT;
      }
    }

    /** The poll handler from its test for a packet on. */
    method Take(out: array<byte>, blen: nat, arrivals: Arrivals)
        returns (len: nat, ghost took: bool, ghost copied: seq<byte>)
      requires Sane() && View().Settled() && out != rxbuf && blen <= out.Length
      modifies this, rxbuf, out
      ensures Valid() && len <= blen && WhileCopying(copied, arrivals)
      ensures Ran(old(Now()), Now(), arrivals, arrivals(1), copied, blen, out[..len], took)
    {
      hide *;
      Shows();
      ghost var s := Now();
      Interrupts(arrivals(1));
      ghost var m := Now();
      Moment(s);
      Waits();
      if begin == pktEnd {
        RanEmpty(s, m, arrivals, arrivals(1), blen);
        CopiedNone(arrivals);
        return 0, false, [];
      }
      len, copied := HandOver(out, blen, arrivals);
      Between();
      RanTaken(s, m, Now(), arrivals, arrivals(1), copied, blen, out[..len]);
      took := true;
    }

    lemma Waits()
      requires Sane()
      ensures begin != pktEnd <==> Now().view.first != []
      ensures View() == Now().view && |View().first| < rxbuf.Length
      ensures View().Settled() && begin == pktEnd ==> Valid()
    {}

    /** The part of the poll handler for a packet that waits; `copied` arrives before it is taken. */
    method HandOver(out: array<byte>, blen: nat, arrivals: Arrivals) returns (len: nat, ghost copied: seq<byte>)
      requires Sane() && View().Settled() && begin != pktEnd && out != rxbuf && blen <= out.Length
      modifies this, rxbuf, out
      ensures Valid() && len <= blen && WhileCopying(copied, arrivals)
      ensures Taken(old(Now()), Now(), copied, arrivals(2), arrivals(3) + arrivals(4), arrivals(5), blen, out[..len])
    {
      hide *;
      Shows();
      Waits();
      StartsHere();
      ghost var s, a := Now(), past.input;
      SamePlace(s);
      var part: Arrivals := i => arrivals(7 + i);
      len := CopyPacket(out, blen, part);
      ghost var m, b := Now(), past.input;
      Moment(s);
      SamePlace(s);
      Waits();
      CopiedThen(a, b, arrivals, part, 2 * rxbuf.Length + 3);
      copied := b[|a|..];
      Release(len == 0, arrivals, blen);
      Between();
      assert copied + [] == copied && a + copied == b;
      TakenAfter(s, m, Now(), copied, [], arrivals(2), arrivals(3) + arrivals(4), arrivals(5), blen, out[..len]);
    }
  }
}
