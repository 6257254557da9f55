/** The framing of SLIP (RFC 1055) as slip.c sends and receives it. */
module SlipCode {
  import opened Numbers

  const END: byte := 0xC0
  const ESC: byte := 0xDB
  const ESC_END: byte := 0xDC
  const ESC_ESC: byte := 0xDD

  type Packet = seq<byte>

  function Escape(c: byte): seq<byte> {
    if c == END then [ESC, ESC_END] else if c == ESC then [ESC, ESC_ESC] else [c]
  }

  function Escaped(p: Packet): seq<byte> {
    if p == [] then [] else Escape(p[0]) + Escaped(p[1..])
  }

  /** What slip_write puts on the line. */
  function Framed(p: Packet): seq<byte> { [END] + Escaped(p) + [END] }

  function Stream(ps: seq<Packet>): seq<byte> {
    if ps == [] then [] else Framed(ps[0]) + Stream(ps[1..])
  }

  function NonEmpty(ps: seq<Packet>): seq<Packet> {
    if ps == [] then [] else (if ps[0] == [] then [] else [ps[0]]) + NonEmpty(ps[1..])
  }

  /**
   * The packets in a stream of bytes, of which `partial` is already read: END closes a packet, empty ones
   * do not count, and a wrong escape, of which the wrong byte may itself be END, spoils all up to the next END.
   */
  function Receive(s: seq<byte>, partial: Packet): seq<Packet>
    decreases |s|
  {
    if s == [] then []
    else if s[0] == END then (if partial == [] then [] else [partial]) + Receive(s[1..], [])
    else if s[0] != ESC then Receive(s[1..], partial + [s[0]])
    else if |s| == 1 then []
    else if s[1] == ESC_END then Receive(s[2..], partial + [END])
    else if s[1] == ESC_ESC then Receive(s[2..], partial + [ESC])
    else Receive(PastEnd(s[2..]), [])
  }

  function PastEnd(s: seq<byte>): (t: seq<byte>)
    ensures |t| <= |s|
  {
    if s == [] then [] else if s[0] == END then s[1..] else PastEnd(s[1..])
  }

  datatype Mode = Reading | Escaping | Skipping

  /** A receiver with room for everything: the packets completed, the part of the next one, and its mode. */
  datatype Scanner = Scanner(packets: seq<Packet>, partial: Packet, mode: Mode)

  function Step(s: Scanner, c: byte): Scanner {
    match s.mode
    case Skipping => if c == END then s.(mode := Reading) else s
    case Escaping =>
      if c == ESC_END then s.(partial := s.partial + [END], mode := Reading)
      else if c == ESC_ESC then s.(partial := s.partial + [ESC], mode := Reading)
      else s.(partial := [], mode := Skipping)
    case Reading =>
      if c == ESC then s.(mode := Escaping)
      else if c != END then s.(partial := s.partial + [c])
      else if s.partial == [] then s
      else Scanner(s.packets + [s.partial], [], Reading)
  }

  function ScanFrom(s: Scanner, input: seq<byte>): Scanner
    decreases |input|
  {
    if input == [] then s else ScanFrom(Step(s, input[0]), input[1..])
  }

  function Scan(input: seq<byte>): Scanner { ScanFrom(Scanner([], [], Reading), input) }

  lemma {:induction false} ScanOn(s: Scanner, a: seq<byte>, b: seq<byte>)
    ensures ScanFrom(s, a + b) == ScanFrom(ScanFrom(s, a), b)
    decreases |a|
  {
    if a == [] {
      assert a + b == b;
    } else {
      assert (a + b)[0] == a[0] && (a + b)[1..] == a[1..] + b;
      ScanOn(Step(s, a[0]), a[1..], b);
    }
  }

  lemma ScanOne(input: seq<byte>, c: byte)
    ensures Scan(input + [c]) == Step(Scan(input), c)
  {
    ScanOn(Scanner([], [], Reading), input, [c]);
    var s := Scan(input);
    assert [c][1..] == [];
    assert ScanFrom(Step(s, c), []) == Step(s, c);
  }

  /** The byte-by-byte receiver finds the packets of the stream. */
  lemma {:induction false} ScanReceives(s: Scanner, input: seq<byte>)
    requires s.mode == Skipping ==> s.partial == []
    ensures ScanFrom(s, input).packets == s.packets +
      match s.mode {
        case Reading => Receive(input, s.partial)
        case Escaping => Receive([ESC] + input, s.partial)
        case Skipping => Receive(PastEnd(input), [])
      }
    decreases |input|
  {
    var e := [ESC] + input;
    if input != [] {
      assert e[0] == ESC && e[1] == input[0] && e[2..] == input[1..];
      assert input == [input[0]] + input[1..];
      ScanReceives(Step(s, input[0]), input[1..]);
    }
  }

  lemma {:induction false} EscapedMore(p: Packet, c: byte)
    ensures Escaped(p + [c]) == Escaped(p) + Escape(c)
  {
    if p == [] {
      assert p + [c] == [c] && [c][1..] == [] && Escaped([]) == [];
    } else {
      assert (p + [c])[0] == p[0] && (p + [c])[1..] == p[1..] + [c];
      EscapedMore(p[1..], c);
    }
  }

  /** Escaped bytes are received as they were. */
  lemma {:induction false} ScanEscaped(s: Scanner, p: Packet)
    requires s.mode == Reading
    ensures ScanFrom(s, Escaped(p)) == s.(partial := s.partial + p)
    decreases |p|
  {
    if p == [] {
      assert s.partial + p == s.partial;
    } else {
      var s' := s.(partial := s.partial + [p[0]]);
      ScanEscape(s, p[0]);
      ScanOn(s, Escape(p[0]), Escaped(p[1..]));
      ScanEscaped(s', p[1..]);
      assert s'.partial + p[1..] == s.partial + p;
    }
  }

  lemma ScanEscape(s: Scanner, c: byte)
    requires s.mode == Reading
    ensures ScanFrom(s, Escape(c)) == s.(partial := s.partial + [c])
  {
    var e := Escape(c);
    var t := Step(s, e[0]);
    assert ScanFrom(s, e) == ScanFrom(t, e[1..]);
    if |e| == 2 {
      assert e[1..] == [e[1]] && e[1..][1..] == [];
      assert ScanFrom(Step(t, e[1]), []) == Step(t, e[1]);
    } else {
      assert e[1..] == [];
    }
  }

  /** A framed packet ends whatever was read before it, and is received unless it is empty. */
  lemma ScanFramed(s: Scanner, p: Packet)
    requires s.mode == Reading
    ensures ScanFrom(s, Framed(p)) == Scanner(s.packets + NonEmpty([s.partial, p]), [], Reading)
  {
    hide ScanFrom, Escaped, NonEmpty;
    var a := Step(s, END);
    var b := a.(partial := p);
    assert Framed(p) == [END] + (Escaped(p) + [END]);
    ScanOn(s, [END], Escaped(p) + [END]);
    ScanOn(a, Escaped(p), [END]);
    ScanEscaped(a, p);
    ScanSingle(s, END);
    ScanSingle(b, END);
    NonEmptyPair(s.partial, p);
    assert a.partial + p == p;
    assert Step(b, END).packets == s.packets + NonEmpty([s.partial, p]);
  }

  lemma NonEmptyPair(a: Packet, b: Packet)
    ensures NonEmpty([b]) == if b == [] then [] else [b]
    ensures NonEmpty([a, b]) == (if a == [] then [] else [a]) + NonEmpty([b])
  {
    var one, two := [b], [a, b];
    assert one[1..] == [] && two[1..] == one && |NonEmpty([])| == 0;
  }

  lemma ScanSingle(s: Scanner, c: byte)
    ensures ScanFrom(s, [c]) == Step(s, c)
  {
    assert [c][1..] == [];
    assert ScanFrom(Step(s, c), []) == Step(s, c);
  }

  lemma {:induction false} ScanStream(s: Scanner, ps: seq<Packet>)
    requires s.mode == Reading && s.partial == []
    ensures ScanFrom(s, Stream(ps)) == s.(packets := s.packets + NonEmpty(ps))
    decreases |ps|
  {
    if ps == [] {
      assert s.packets + NonEmpty(ps) == s.packets;
    } else {
      hide *;
      FirstOf(ps);
      var one := NonEmpty([[], ps[0]]);
      ScanFramed(s, ps[0]);
      NonEmptyPair([], ps[0]);
      ScanOn(s, Framed(ps[0]), Stream(ps[1..]));
      ScanStream(Scanner(s.packets + one, [], Reading), ps[1..]);
      assert s.packets + one + NonEmpty(ps[1..]) == s.packets + NonEmpty(ps);
    }
  }

  lemma FirstOf(ps: seq<Packet>)
    requires ps != []
    ensures Stream(ps) == Framed(ps[0]) + Stream(ps[1..])
    ensures NonEmpty(ps) == (if ps[0] == [] then [] else [ps[0]]) + NonEmpty(ps[1..])
  {
    hide Framed;
  }

  /** Decoding what slip_write wrote gives back the packets, but for empty ones. */
  lemma RoundTrip(ps: seq<Packet>)
    ensures Receive(Stream(ps), []) == NonEmpty(ps)
  {
    var s := Scanner([], [], Reading);
    ScanStream(s, ps);
    ScanReceives(s, Stream(ps));
    assert s.packets + NonEmpty(ps) == NonEmpty(ps);
    assert s.packets + Receive(Stream(ps), []) == Receive(Stream(ps), []);
  }

  ghost predicate EndsWith<T>(all: seq<T>, tail: seq<T>) {
    exists k :: 0 <= k <= |all| && all[k..] == tail
  }

  /** After any noise at most the first of the packets is lost, and nothing is added behind it. */
  lemma Resynchronises(noise: seq<byte>, p: Packet, ps: seq<Packet>)
    ensures EndsWith(Receive(noise + Framed(p) + Stream(ps), []), NonEmpty(ps))
  {
    var s0, all := Scanner([], [], Reading), noise + Framed(p) + Stream(ps);
    var s := ScanFrom(s0, noise);
    var f := ScanFrom(s, Framed(p));
    ScanSound(s0, noise);
    FramedSettles(s, p);
    ScanOn(s0, noise + Framed(p), Stream(ps));
    ScanOn(s0, noise, Framed(p));
    ScanStream(f, ps);
    ScanReceives(s0, all);
    assert Receive(all, []) == f.packets + NonEmpty(ps);
    assert Receive(all, [])[|f.packets|..] == NonEmpty(ps);
  }

  /** What is left of a packet's frame depends on what the receiver was at before it. */
  function Kept(s: Scanner, p: Packet): seq<Packet> {
    match s.mode
    case Reading => NonEmpty([s.partial, p])
    case Skipping => NonEmpty([p])
    case Escaping => []
  }

  lemma FramedSettles(s: Scanner, p: Packet)
    requires s.mode == Skipping ==> s.partial == []
    ensures ScanFrom(s, Framed(p)) == Scanner(s.packets + Kept(s, p), [], Reading)
  {
    if s.mode == Reading {
      ScanFramed(s, p);
    } else {
      var a := Step(s, END);
      assert Framed(p) == [END] + (Escaped(p) + [END]);
      ScanOn(s, [END], Escaped(p) + [END]);
      ScanSingle(s, END);
      ScanOn(a, Escaped(p), [END]);
      if s.mode == Skipping {
        ScanEscaped(a, p);
        NonEmptyPair([], p);
        assert a.partial + p == p;
        ScanSingle(a.(partial := p), END);
      } else {
        NoEnd(p);
        StaysRubbish(a, Escaped(p));
        ScanSingle(a, END);
      }
    }
  }

  /**
   * A packet behind any noise is received exactly if the noise does not end in an escape: the END that starts
   * its frame is then taken for the escaped byte, and the whole frame is skipped.
   */
  lemma SwallowsExactly(noise: seq<byte>, p: Packet)
    requires p != []
    ensures var s := Scan(noise);
      && Receive(noise + Framed(p), []) == s.packets + Kept(s, p)
      && (s.mode == Escaping <==> Kept(s, p) == [])
      && (s.mode != Escaping ==> EndsWith(Receive(noise + Framed(p), []), [p]))
  {
    var s0, all := Scanner([], [], Reading), noise + Framed(p);
    var s := Scan(noise);
    ScanSound(s0, noise);
    ScanOn(s0, noise, Framed(p));
    FramedSettles(s, p);
    ScanReceives(s0, all);
    assert s0.packets + Receive(all, []) == Receive(all, []);
    NonEmptyPair(s.partial, p);
    hide NonEmpty, ScanFrom, Receive, Framed;
    if s.mode != Escaping {
      assert Kept(s, p) != [] && Kept(s, p)[|Kept(s, p)| - 1] == p;
      var k := |s.packets + Kept(s, p)| - 1;
      assert (s.packets + Kept(s, p))[k..] == [p];
    }
  }

  lemma {:induction false} ScanSound(s: Scanner, input: seq<byte>)
    requires s.mode == Skipping ==> s.partial == []
    ensures var t := ScanFrom(s, input); t.mode == Skipping ==> t.partial == []
    decreases |input|
  {
    if input != [] { ScanSound(Step(s, input[0]), input[1..]); }
  }

  /** It does happen: a lone escape costs the packet whose frame follows it, and no other. */
  lemma LoneEscape(p: Packet, ps: seq<Packet>)
    ensures Receive([ESC] + Framed(p) + Stream(ps), []) == NonEmpty(ps)
  {
    var s0, all := Scanner([], [], Reading), [ESC] + Framed(p) + Stream(ps);
    hide ScanFrom, Receive, Framed, Stream, NonEmpty;
    ScanOn(s0, [ESC] + Framed(p), Stream(ps));
    ScanOn(s0, [ESC], Framed(p));
    ScanSingle(s0, ESC);
    FramedSettles(Step(s0, ESC), p);
    assert Step(s0, ESC).packets + Kept(Step(s0, ESC), p) == s0.packets;
    ScanStream(s0, ps);
    ScanReceives(s0, all);
    assert s0.packets + Receive(all, []) == Receive(all, []) && s0.packets + NonEmpty(ps) == NonEmpty(ps);
  }

  lemma {:induction false} NoEnd(p: Packet)
    ensures END !in Escaped(p)
  {
    if p != [] { NoEnd(p[1..]); }
  }

  lemma {:induction false} StaysRubbish(s: Scanner, input: seq<byte>)
    requires s.mode == Skipping && END !in input
    ensures ScanFrom(s, input) == s
    decreases |input|
  {
    if input != [] { StaysRubbish(s, input[1..]); }
  }
}
