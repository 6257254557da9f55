/** The GCR coder (gcr.c): four bits become five, through an accumulator of sixteen bits. */
module Gcr {
  import opened Numbers
  import opened Bits

  /** GCR_encode */
  function Encoding(n: nat): (code: nat)
    requires n < 16
    ensures code < 32
  {
    [
    0x0a, 0x0b, 0x12, 0x13, 0x0e, 0x0f, 0x16, 0x17,
    0x09, 0x19, 0x1a, 0x1b, 0x0d, 0x1d, 0x1e, 0x15][n]
  }

  /** GCR_decode */
  function Decoding(code: nat): nat
    requires code < 32
  {
    [
    0xff, 0xff, 0xff, 0xff, 0xff, 0xff, 0xff, 0xff,
    0xff, 0x08, 0x00, 0x01, 0xff, 0x0c, 0x04, 0x05,
    0xff, 0xff, 0x02, 0x03, 0xff, 0x0f, 0x06, 0x07,
    0xff, 0x09, 0x0a, 0x0b, 0xff, 0x0d, 0x0e, 0xff][code]
  }

  /** x | y */
  function Or(x: nat, y: nat): nat {
    if x == 0 && y == 0 then 0 else 2 * Or(x / 2, y / 2) + (if x % 2 == 1 || y % 2 == 1 then 1 else 0)
  }

  /** The n lowest bits, lowest first. */
  function ToBits(x: nat, n: nat): (bits: seq<bool>)
    ensures |bits| == n
    decreases n
  {
    if n == 0 then [] else [x % 2 == 1] + ToBits(x / 2, n - 1)
  }

  lemma {:induction false} OrApart(x: nat, y: nat, k: nat)
    requires x < Pow2(k)
    ensures Or(x, y * Pow2(k)) == x + y * Pow2(k)
  {
    if k == 0 {
      assert Pow2(0) == 1;
      OrZero(y);
    } else {
      var p := Pow2(k - 1);
      assert Pow2(k) == 2 * p;
      hide Pow2;
      var z := y * p;
      MulMono(0, y, p);
      assert y * (2 * p) == 2 * z;
      OrApart(x / 2, y, k - 1);
      OrStep(x, z);
    }
  }

  lemma OrStep(x: nat, z: nat)
    requires Or(x / 2, z) == x / 2 + z
    ensures Or(x, 2 * z) == x + 2 * z
  {
    assert 2 * z / 2 == z && 2 * z % 2 == 0;
  }

  lemma {:induction false} OrZero(y: nat)
    ensures Or(0, y) == y
  {
    if y > 0 { OrZero(y / 2); }
  }

  /** Bits put above others. */
  lemma {:induction false} BitsAbove(x: nat, y: nat, k: nat, m: nat)
    requires x < Pow2(k)
    ensures x + y * Pow2(k) >= 0 && ToBits(x + y * Pow2(k), k + m) == ToBits(x, k) + ToBits(y, m)
  {
    if k == 0 {
      assert Pow2(0) == 1;
      assert ToBits(x, 0) + ToBits(y, m) == ToBits(y, m);
    } else {
      var p := Pow2(k - 1);
      var z := y * p;
      assert Pow2(k) == 2 * p;
      hide Pow2;
      MulMono(0, y, p);
      assert y * (2 * p) == 2 * z;
      assert (x + 2 * z) / 2 == x / 2 + z && (x + 2 * z) % 2 == x % 2;
      BitsAbove(x / 2, y, k - 1, m);
      assert [x % 2 == 1] + (ToBits(x / 2, k - 1) + ToBits(y, m)) == ToBits(x, k) + ToBits(y, m);
    }
  }

  /** The ten bits of a byte: the code of its lower half comes first. */
  function CodeWord(b: byte): nat {
    Or(Encoding(b % 16), Encoding(b / 16) * 32)
  }

  function Code(b: byte): seq<bool> { ToBits(Encoding(b % 16), 5) + ToBits(Encoding(b / 16), 5) }

  function Codes(bs: seq<byte>): (bits: seq<bool>)
    ensures |bits| == 10 * |bs|
  {
    if bs == [] then [] else Code(bs[0]) + Codes(bs[1..])
  }

  function Plain(bs: seq<byte>): (bits: seq<bool>)
    ensures |bits| == 8 * |bs|
  {
    if bs == [] then [] else ToBits(bs[0], 8) + Plain(bs[1..])
  }

  lemma {:induction false} CodesMore(bs: seq<byte>, b: byte)
    ensures Codes(bs + [b]) == Codes(bs) + Code(b)
  {
    hide Code;
    if bs == [] {
      assert bs + [b] == [b] && [b][1..] == [];
    } else {
      assert (bs + [b])[0] == bs[0] && (bs + [b])[1..] == bs[1..] + [b];
      CodesMore(bs[1..], b);
    }
  }

  lemma {:induction false} PlainMore(bs: seq<byte>, b: byte)
    ensures Plain(bs + [b]) == Plain(bs) + ToBits(b, 8)
  {
    hide ToBits;
    if bs == [] {
      assert bs + [b] == [b] && [b][1..] == [];
    } else {
      assert (bs + [b])[0] == bs[0] && (bs + [b])[1..] == bs[1..] + [b];
      PlainMore(bs[1..], b);
    }
  }

  lemma CodeWordBits(b: byte)
    ensures CodeWord(b) < 1024 && ToBits(CodeWord(b), 10) == Code(b)
  {
    hide *;
    var lo, hi := Encoding(b % 16), Encoding(b / 16);
    CodeHalves(b);
    Thirty();
    OrApart(lo, hi, 5);
    BitsAbove(lo, hi, 5, 5);
  }

  lemma CodeHalves(b: byte)
    ensures var lo, hi := Encoding(b % 16), Encoding(b / 16);
      && lo < 32 && hi < 32 && CodeWord(b) == Or(lo, hi * 32) && Code(b) == ToBits(lo, 5) + ToBits(hi, 5)
  {
    hide Or, ToBits;
  }

  lemma Thirty()
    ensures Pow2(5) == 32 && Pow2(8) == 256 && Pow2(10) == 1024 && Pow2(16) == 65536
  {
    assert Pow2(0) == 1 && Pow2(1) == 2 && Pow2(2) == 4 && Pow2(3) == 8 && Pow2(4) == 16 && Pow2(5) == 32;
    assert Pow2(6) == 64 && Pow2(7) == 128 && Pow2(8) == 256 && Pow2(9) == 512 && Pow2(10) == 1024;
    hide Pow2;
    PowAdd(8, 8);
  }

  /** What gcr_get_decoded makes of ten bits. */
  function Decoded(v: nat): nat
    requires v < 1024
  {
    Or(Decoding(v / 32) * 16, Decoding(v % 32)) % 256
  }

  lemma DecodesCode(b: byte)
    ensures CodeWord(b) < 1024 && Decoded(CodeWord(b)) == b
  {
    var l, h := b % 16, b / 16;
    TableInverse(l);
    TableInverse(h);
    WordValue(b);
    hide *;
    DecodesHalves(Encoding(l), Encoding(h), l, h);
  }

  lemma WordValue(b: byte)
    ensures Encoding(b % 16) < 32 && Encoding(b / 16) < 32
    ensures CodeWord(b) == Encoding(b % 16) + 32 * Encoding(b / 16)
  {
    TableInverse(b % 16);
    TableInverse(b / 16);
    Thirty();
    assert CodeWord(b) == Or(Encoding(b % 16), Encoding(b / 16) * 32);
    hide *;
    OrApart(Encoding(b % 16), Encoding(b / 16), 5);
  }

  lemma DecodesHalves(lo: nat, hi: nat, l: nat, h: nat)
    requires lo < 32 && hi < 32 && l < 16 && h < 16 && Decoding(lo) == l && Decoding(hi) == h
    ensures Decoded(lo + 32 * hi) == 16 * h + l
  {
    hide Or;
    assert (lo + 32 * hi) % 32 == lo && (lo + 32 * hi) / 32 == hi;
    OrNibbles(h, l);
  }

  lemma TableInverse(n: nat)
    requires n < 16
    ensures Encoding(n) < 32 && Decoding(Encoding(n)) == n
  {}

  lemma OrNibbles(hi: nat, lo: nat)
    requires hi < 16 && lo < 16
    ensures Or(hi * 16, lo) == hi * 16 + lo
  {
    OrCommutes(hi * 16, lo);
    assert Pow2(4) == 16 by { assert Pow2(0) == 1 && Pow2(1) == 2 && Pow2(2) == 4 && Pow2(3) == 8; }
    OrApart(lo, hi, 4);
  }

  lemma {:induction false} OrCommutes(x: nat, y: nat)
    ensures Or(x, y) == Or(y, x)
  {
    if x > 0 || y > 0 { OrCommutes(x / 2, y / 2); }
  }

  class Coder {
    /** gcr_val, of sixteen bits, and gcr_bits */
    var val: nat
    var bits: nat

    /** The bits in the accumulator, and none above them. */
    ghost predicate Valid()
      reads this
    {
      bits <= 16 && val < Pow2(bits)
    }

    ghost function Pending(): seq<bool>
      reads this
    {
      ToBits(val, bits)
    }

    /** gcr_init */
    constructor ()
      ensures Valid() && Pending() == []
    {
      val, bits := 0, 0;
      new;
      assert Pow2(0) == 1;
    }

    /** gcr_finished */
    function Finished(): (r: bool)
      reads this
      ensures r <==> Pending() == []
    {
      bits == 0
    }

    /** Shifted data joins the accumulator; nothing is lost as long as it fits. */
    method Join(data: nat, n: nat)
      requires Valid() && data < Pow2(n) && bits + n <= 16
      modifies this
      ensures Valid() && Pending() == old(Pending()) + ToBits(data, n) && bits == old(bits) + n
    {
      Thirty();
      var p := Pow2(bits);
      hide Pow2, ToBits, Or;
      OrApart(val, data, bits);
      BitsAbove(val, data, bits, n);
      JoinFits(val, data, bits, n);
      val := Or(val, data * p) % 65536;
      bits := bits + n;
    }

    /** gcr_encode */
    method Encode(raw: byte)
      requires Valid() && bits <= 6
      modifies this
      ensures Valid() && Pending() == old(Pending()) + Code(raw) && bits == old(bits) + 10
    {
      CodeWordBits(raw);
      Thirty();
      hide Pow2, ToBits, CodeWord;
      Join(CodeWord(raw), 10);
    }

    /** gcr_get_encoded */
    method GetEncoded() returns (ok: bool, raw: byte)
      requires Valid()
      modifies this
      ensures Valid() && ok == (old(bits) >= 8)
      ensures ok ==> ToBits(raw, 8) + Pending() == old(Pending()) && bits == old(bits) - 8
      ensures !ok ==> unchanged(this)
    {
      raw, ok := 0, false;
      if bits >= 8 {
        hide Pow2, ToBits;
        Thirty();
        TakeBits(val, bits, val % 256, val / 256, 8, 256);
        raw := val % 256;
        val := val / 256;
        bits := bits - 8;
        ok := true;
      }
    }

    /** gcr_decode */
    method Decode(data: byte)
      requires Valid() && bits <= 8
      modifies this
      ensures Valid() && Pending() == old(Pending()) + ToBits(data, 8) && bits == old(bits) + 8
    {
      Thirty();
      hide Pow2, ToBits;
      Join(data, 8);
    }

    /** The two halves of a code word, through the table. */
    method DecodeWord(v: nat) returns (raw: byte)
      requires v < 1024
      ensures raw == Decoded(v)
    {
      raw := Or(Decoding(v / 32) * 16, Decoding(v % 32)) % 256;
    }

    /** gcr_get_decoded */
    method GetDecoded() returns (ok: bool, raw: byte, ghost word: nat)
      requires Valid()
      modifies this
      ensures Valid() && ok == (old(bits) >= 10)
      ensures ok ==>
        && word < 1024 && raw == Decoded(word)
        && ToBits(word, 10) + Pending() == old(Pending()) && bits == old(bits) - 10
      ensures !ok ==> unchanged(this)
    {
      raw, ok, word := 0, false, 0;
      if bits >= 10 {
        hide *;
        Thirty();
        var v, rest := val % 1024, val / 1024;
        TakeBits(val, bits, v, rest, 10, 1024);
        word := v;
        raw := DecodeWord(v);
        val := rest;
        bits := bits - 10;
        ok := true;
      }
    }
  }

  lemma JoinFits(val: nat, data: nat, k: nat, n: nat)
    requires val < Pow2(k) && data < Pow2(n) && k + n <= 16
    ensures 0 <= val + data * Pow2(k) < Pow2(k + n) <= 65536
  {
    Thirty();
    hide Pow2;
    PowAdd(n, k);
    assert n + k == k + n;
    MulMono(0, data, Pow2(k));
    MulMono(data + 1, Pow2(n), Pow2(k));
    PowMono(k + n, 16);
  }

  /** The lowest k of the pending bits leave the accumulator. */
  lemma TakeBits(val: nat, bits: nat, lo: nat, hi: nat, k: nat, p: nat)
    requires k <= bits && val < Pow2(bits) && p == Pow2(k) && lo < p && val == lo + hi * p
    ensures hi < Pow2(bits - k) && ToBits(lo, k) + ToBits(hi, bits - k) == ToBits(val, bits)
  {
    hide Pow2, ToBits;
    BitsAbove(lo, hi, k, bits - k);
    PowAdd(k, bits - k);
    var q := Pow2(bits - k);
    assert k + (bits - k) == bits;
    assert q * p == Pow2(bits);
    if hi >= q { MulMono(q, hi, p); }
  }

  /** The bytes that are complete are taken. */
  method EncodePending(g: Coder, encoded: seq<byte>, ghost all: seq<bool>) returns (out: seq<byte>)
    requires g.Valid() && |all| % 2 == 0 && Plain(encoded) + g.Pending() == all
    modifies g
    ensures g.Valid() && g.bits <= 6 && Plain(out) + g.Pending() == all
  {
    hide ToBits, Code, Codes, Plain, Pow2;
    out := encoded;
    var ok, raw := g.GetEncoded();
    while ok
      invariant g.Valid() && g.bits <= 8
      invariant if ok then Plain(out) + (ToBits(raw, 8) + g.Pending()) == all
        else Plain(out) + g.Pending() == all && g.bits < 8
      decreases g.bits, ok
    {
      PlainMore(out, raw);
      assert Plain(out) + ToBits(raw, 8) + g.Pending() == Plain(out) + (ToBits(raw, 8) + g.Pending());
      out := out + [raw];
      ok, raw := g.GetEncoded();
    }
    WholeCodes(out);
    EvenRest(|Plain(out)|, g.bits);
  }

  lemma EvenRest(taken: nat, bits: nat)
    requires taken % 2 == 0 && (taken + bits) % 2 == 0
    ensures bits % 2 == 0
  {}

  /** Encoding a text, with the encoded bytes taken after every character. */
  method EncodeAll(data: seq<byte>) returns (out: seq<byte>, finished: bool)
    ensures Plain(out) <= Codes(data) && |out| == 10 * |data| / 8
    ensures finished <==> |data| % 4 == 0
  {
    hide ToBits, Code, Codes, Plain, Pow2;
    var g := new Coder();
    out := [];
    var i := 0;
    assert data[..0] == [];
    EmptyBits();
    while i < |data|
      invariant 0 <= i <= |data| && fresh(g) && g.Valid() && g.bits <= 6
      invariant Plain(out) + g.Pending() == Codes(data[..i])
    {
      CodesMore(data[..i], data[i]);
      assert data[..i + 1] == data[..i] + [data[i]];
      g.Encode(data[i]);
      WholeCodes(data[..i + 1]);
      out := EncodePending(g, out, Codes(data[..i + 1]));
      i := i + 1;
    }
    assert data[..i] == data;
    EncodedSize(|data|, |out|, g.bits);
    finished := g.Finished();
  }

  lemma EncodedSize(n: nat, out: nat, bits: nat)
    requires 8 * out + bits == 10 * n && bits <= 6
    ensures out == 10 * n / 8 && (bits == 0 <==> n % 4 == 0)
  {}

  lemma WholeCodes(bs: seq<byte>)
    ensures |Codes(bs)| % 2 == 0 && |Plain(bs)| % 2 == 0
  {
    hide Codes, Plain;
    DivMod(|Codes(bs)|, 5 * |bs|, 0, 2);
    DivMod(|Plain(bs)|, 4 * |bs|, 0, 2);
  }

  lemma EmptyBits()
    ensures Codes([]) == [] && Plain([]) == []
  {}

  /** The codes that are complete are decoded. */
  method DecodePending(g: Coder, decoded: seq<byte>, ghost data: seq<byte>, ghost all: seq<bool>)
      returns (out: seq<byte>)
    requires g.Valid() && |decoded| <= |data| && decoded == data[..|decoded|]
    requires Codes(decoded) + g.Pending() == all <= Codes(data) && |all| % 2 == 0
    modifies g
    ensures g.Valid() && g.bits <= 8 && |out| <= |data| && out == data[..|out|]
    ensures Codes(out) + g.Pending() == all
  {
    hide ToBits, Code, Codes, Plain, Pow2, Decoded;
    out := decoded;
    var ok, raw; ghost var word;
    ok, raw, word := g.GetDecoded();
    while ok
      invariant g.Valid() && g.bits < 10
      invariant |out| <= |data| && out == data[..|out|]
      invariant ok ==> word < 1024 && raw == Decoded(word)
      invariant if ok then Codes(out) + (ToBits(word, 10) + g.Pending()) == all else Codes(out) + g.Pending() == all
      decreases g.bits, ok
    {
      NextCode(data, |out|, word, g.Pending(), all);
      CodesMore(out, raw);
      assert Codes(out) + ToBits(word, 10) + g.Pending() == Codes(out) + (ToBits(word, 10) + g.Pending());
      out := out + [raw];
      ok, raw, word := g.GetDecoded();
    }
    WholeCodes(out);
    EvenRest(|Codes(out)|, g.bits);
  }

  /** Decoding a stream, with the decoded bytes taken after every one of it. */
  method DecodeAll(stream: seq<byte>, ghost data: seq<byte>) returns (out: seq<byte>, finished: bool)
    requires Plain(stream) <= Codes(data)
    ensures out == data[..8 * |stream| / 10] && (finished <==> 8 * |stream| % 10 == 0)
  {
    hide ToBits, Code, Codes, Plain, Pow2, Decoded;
    var g := new Coder();
    out := [];
    var i := 0;
    EmptyBits();
    assert stream[..0] == [] && data[..0] == [];
    while i < |stream|
      invariant 0 <= i <= |stream| && fresh(g) && g.Valid() && g.bits <= 8
      invariant |out| <= |data| && out == data[..|out|]
      invariant Codes(out) + g.Pending() == Plain(stream[..i])
    {
      PlainMore(stream[..i], stream[i]);
      assert stream[..i + 1] == stream[..i] + [stream[i]];
      PlainPrefix(stream, i + 1);
      g.Decode(stream[i]);
      WholeCodes(stream[..i + 1]);
      out := DecodePending(g, out, data, Plain(stream[..i + 1]));
      i := i + 1;
    }
    assert stream[..i] == stream;
    DecodedSize(|stream|, |out|, g.bits);
    finished := g.Finished();
  }

  lemma DecodedSize(n: nat, out: nat, bits: nat)
    requires 10 * out + bits == 8 * n && bits <= 8
    ensures out == 8 * n / 10 && (bits == 0 <==> 8 * n % 10 == 0)
  {}

  lemma PlainPrefix(stream: seq<byte>, i: nat)
    requires i <= |stream|
    ensures Plain(stream[..i]) <= Plain(stream)
  {
    hide ToBits, Plain;
    assert stream[..i] + stream[i..] == stream;
    PlainFront(stream[..i], stream[i..]);
  }

  lemma PlainFront(a: seq<byte>, b: seq<byte>)
    ensures Plain(a) <= Plain(a + b)
  {
    hide *;
    PlainJoin(a, b);
  }

  lemma {:induction false} PlainJoin(a: seq<byte>, b: seq<byte>)
    ensures Plain(a + b) == Plain(a) + Plain(b)
  {
    hide ToBits;
    if a == [] {
      assert a + b == b;
    } else {
      assert (a + b)[0] == a[0] && (a + b)[1..] == a[1..] + b;
      PlainJoin(a[1..], b);
    }
  }

  /** The ten bits behind the codes of k bytes are the code of the next. */
  lemma NextCode(data: seq<byte>, k: nat, word: nat, rest: seq<bool>, all: seq<bool>)
    requires k <= |data| && word < 1024
    requires all == Codes(data[..k]) + (ToBits(word, 10) + rest) && all <= Codes(data)
    ensures k < |data| && Decoded(word) == data[k] && ToBits(word, 10) == Code(data[k])
    ensures data[..k + 1] == data[..k] + [data[k]]
  {
    hide ToBits, Code, Codes, Decoded, CodeWord;
    assert data[..k] + data[k..] == data;
    CodesJoin(data[..k], data[k..]);
    assert k < |data|;
    CodesJoin([data[k]], data[k + 1..]);
    assert [data[k]] + data[k + 1..] == data[k..];
    OneCode(data[k]);
    var c := Codes(data);
    assert c == Codes(data[..k]) + (Code(data[k]) + Codes(data[k + 1..]));
    assert c[10 * k..10 * k + 10] == Code(data[k]);
    assert all[10 * k..10 * k + 10] == ToBits(word, 10);
    assert c[10 * k..10 * k + 10] == all[10 * k..10 * k + 10];
    CodeWordBits(data[k]);
    DecodesCode(data[k]);
    Thirty();
    BitsInjective(word, CodeWord(data[k]), 10);
  }

  lemma OneCode(b: byte)
    ensures Codes([b]) == Code(b)
  {
    assert [b][1..] == [];
  }

  lemma {:induction false} CodesJoin(a: seq<byte>, b: seq<byte>)
    ensures Codes(a + b) == Codes(a) + Codes(b)
  {
    hide Code;
    if a == [] {
      assert a + b == b;
    } else {
      assert (a + b)[0] == a[0] && (a + b)[1..] == a[1..] + b;
      CodesJoin(a[1..], b);
    }
  }

  lemma {:induction false} BitsInjective(x: nat, y: nat, n: nat)
    requires x < Pow2(n) && y < Pow2(n)
    ensures ToBits(x, n) == ToBits(y, n) ==> x == y
  {
    if n == 0 {
      assert Pow2(0) == 1;
    } else if ToBits(x, n) == ToBits(y, n) {
      assert Pow2(n) == 2 * Pow2(n - 1);
      assert ToBits(x, n)[0] == ToBits(y, n)[0];
      assert ToBits(x / 2, n - 1) == ToBits(x, n)[1..] && ToBits(y / 2, n - 1) == ToBits(y, n)[1..];
      BitsInjective(x / 2, y / 2, n - 1);
    }
  }

  /** What was encoded is decoded: all of it exactly if its length is a multiple of four, else all but the last byte. */
  method RoundTrip(data: seq<byte>) returns (out: seq<byte>)
    ensures out == if |data| % 4 == 0 then data else data[..|data| - 1]
  {
    hide *;
    var stream, finished := EncodeAll(data);
    var done;
    out, done := DecodeAll(stream, data);
    assert data[..|data|] == data;
    CodeBytes(|data|);
  }

  lemma CodeBytes(n: nat)
    ensures 8 * (10 * n / 8) / 10 == if n % 4 == 0 then n else n - 1
  {
    var q, r := n / 4, n % 4;
    DivMod(10 * n, 5 * q + r, 2 * r, 8);
    if r == 0 { DivMod(8 * (5 * q), 4 * q, 0, 10); } else { DivMod(8 * (5 * q + r), 4 * q + (r - 1), 10 - 2 * r, 10); }
  }
}
