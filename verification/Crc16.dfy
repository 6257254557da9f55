/** The CRC of crc16.c against the serial division by its polynomial, least significant bit first. */
module Crc16 {
  /** The feedback of x^16 + x^12 + x^5 + 1, reflected. */
  const POLYNOMIAL: bv16 := 0x8408

  function Xor(x: bv16, y: bv16): bv16 { x ^ y }

  function Bit(b: bool): bv16 { if b then 1 else 0 }

  /** The register moves by one bit. */
  function Shift(x: bv16): bv16 {
    Xor(Half(x), if Odd(x) then POLYNOMIAL else 0)
  }

  function Half(x: bv16): bv16 { x >> 1 }

  predicate Odd(x: bv16) { x & 1 == 1 }

  function Shifts(x: bv16, n: nat): bv16
    decreases n
  {
    if n == 0 then x else Shifts(Shift(x), n - 1)
  }

  /** One bit of a message enters the register. */
  function Feed(acc: bv16, b: bool): bv16 { Shift(Xor(acc, Bit(b))) }

  /** The register after the bits of a message have been fed in one by one. */
  function Serial(bits: seq<bool>, acc: bv16): bv16
    decreases |bits|
  {
    if bits == [] then acc else Serial(bits[1..], Feed(acc, bits[0]))
  }

  /** A word with a bit put in below the others. */
  function Below(b: bool, rest: bv16): bv16 { Or(Bit(b), Twice(rest)) }

  function Or(x: bv16, y: bv16): bv16 { x | y }

  function Twice(x: bv16): bv16 { x << 1 }

  /** Up to sixteen bits as a word, the first one lowest. */
  function Pack(bits: seq<bool>): bv16 {
    if bits == [] then 0 else Below(bits[0], Pack(bits[1..]))
  }

  function ByteBits(b: bv8): (bits: seq<bool>)
    ensures |bits| == 8
  {
    [b & 1 != 0, b & 2 != 0, b & 4 != 0, b & 8 != 0, b & 16 != 0, b & 32 != 0, b & 64 != 0, b & 128 != 0]
  }

  function MessageBits(data: seq<bv8>): (bits: seq<bool>)
    ensures |bits| == 8 * |data|
  {
    if data == [] then [] else ByteBits(data[0]) + MessageBits(data[1..])
  }

  predicate TopClear(x: bv16) { x & 0x8000 == 0 }

  /** All bits but the n lowest. */
  function Mask(n: nat): bv16
    requires n <= 15
  {
    match n
    case 0 => 0xFFFF case 1 => 0xFFFE case 2 => 0xFFFC case 3 => 0xFFF8
    case 4 => 0xFFF0 case 5 => 0xFFE0 case 6 => 0xFFC0 case 7 => 0xFF80
    case 8 => 0xFF00 case 9 => 0xFE00 case 10 => 0xFC00 case 11 => 0xF800
    case 12 => 0xF000 case 13 => 0xE000 case 14 => 0xC000 case _ => 0x8000
  }

  /** x has no bits but the n lowest. */
  predicate Fits(x: bv16, n: nat)
    requires n <= 15
  {
    Clear(x, Mask(n))
  }

  predicate Clear(x: bv16, m: bv16) { x & m == 0 }

  lemma MaskMoves(n: nat)
    requires n < 15
    ensures Mask(n + 1) == Twice(Mask(n))
  {}

  lemma BelowMasked(b: bool, rest: bv16, m: bv16)
    requires Clear(rest, m)
    ensures Clear(Below(b, rest), Twice(m))
  {
    assert Bit(b) & (m << 1) == 0;
    assert (rest << 1) & (m << 1) == (rest & m) << 1;
  }

  lemma BelowFits(b: bool, rest: bv16, n: nat)
    requires n < 15 && Fits(rest, n)
    ensures Fits(Below(b, rest), n + 1)
  {
    hide *;
    MaskMoves(n);
    FitsExactly(rest, n);
    BelowMasked(b, rest, Mask(n));
    FitsExactly(Below(b, rest), n + 1);
  }

  lemma FitsExactly(x: bv16, n: nat)
    requires n <= 15
    ensures Fits(x, n) <==> Clear(x, Mask(n))
  {}

  lemma FitsTop(x: bv16, n: nat)
    requires n <= 15 && Fits(x, n)
    ensures TopClear(x)
  {}

  lemma {:induction false} PackFits(bits: seq<bool>)
    requires |bits| <= 15
    ensures Fits(Pack(bits), |bits|)
  {
    hide Below, Fits;
    if bits == [] {
      assert Fits(0, 0) by { ZeroFits(); }
    } else {
      PackFits(bits[1..]);
      BelowFits(bits[0], Pack(bits[1..]), |bits| - 1);
    }
  }

  lemma ZeroFits()
    ensures Fits(0, 0)
  {}

  lemma PackTop(bits: seq<bool>)
    requires |bits| <= 15
    ensures TopClear(Pack(bits))
  {
    hide *;
    PackFits(bits);
    FitsTop(Pack(bits), |bits|);
  }

  /** The bits may as well be fed in all at once, as long as they fit the register. */
  lemma {:induction false} SerialPacked(bits: seq<bool>, acc: bv16)
    requires |bits| <= 16
    ensures Serial(bits, acc) == Shifts(Xor(acc, Pack(bits)), |bits|)
  {
    if bits == [] {
      XorZero(acc);
    } else {
      PackTop(bits[1..]);
      FeedIn(acc, bits[0], Pack(bits[1..]));
      hide Shift, Bit, Xor, Feed, Below, TopClear;
      SerialPacked(bits[1..], Feed(acc, bits[0]));
    }
  }

  lemma XorZero(acc: bv16)
    ensures Xor(acc, 0) == acc
  {}

  lemma FeedIn(acc: bv16, b: bool, rest: bv16)
    requires TopClear(rest)
    ensures Shift(Xor(acc, Below(b, rest))) == Xor(Feed(acc, b), rest)
  {
    hide Xor, Bit, Below, Half, Odd, TopClear;
    var z, y := Below(b, rest), Xor(acc, Bit(b));
    Parts(b, rest);
    BitParts(b);
    XorParts(acc, z);
    XorParts(acc, Bit(b));
    XorZero(Half(acc));
    Commutes(Half(acc), rest, if Odd(y) then POLYNOMIAL else 0);
  }

  lemma BitParts(b: bool)
    ensures Half(Bit(b)) == 0 && (Odd(Bit(b)) <==> b)
  {}

  lemma XorParts(x: bv16, y: bv16)
    ensures Half(Xor(x, y)) == Xor(Half(x), Half(y))
    ensures Odd(Xor(x, y)) <==> Odd(x) != Odd(y)
  {}

  lemma Commutes(x: bv16, y: bv16, z: bv16)
    ensures Xor(Xor(x, y), z) == Xor(Xor(x, z), y)
  {}

  lemma ShiftInjective(x: bv16, y: bv16)
    ensures Shift(x) == Shift(y) ==> x == y
  {}

  lemma FeedInjective(x: bv16, y: bv16, b: bool)
    ensures Feed(x, b) == Feed(y, b) ==> x == y
  {}

  lemma XorInjective(acc: bv16, x: bv16, y: bv16)
    ensures Xor(acc, x) == Xor(acc, y) ==> x == y
  {}

  lemma BelowInjective(a: bool, x: bv16, b: bool, y: bv16)
    requires TopClear(x) && TopClear(y)
    ensures Below(a, x) == Below(b, y) ==> a == b && x == y
  {
    Parts(a, x);
    Parts(b, y);
    hide Below;
  }

  lemma Parts(a: bool, x: bv16)
    requires TopClear(x)
    ensures Half(Below(a, x)) == x && (Odd(Below(a, x)) <==> a)
  {
    hide Bit, TopClear, Half, Odd, Xor, Or, Twice;
    OrParts(Bit(a), Twice(x));
    BackAgain(x);
    BitParts(a);
    OrZero(x);
  }

  lemma OrZero(x: bv16)
    ensures Or(0, x) == x
  {}

  lemma OrParts(x: bv16, y: bv16)
    ensures Half(Or(x, y)) == Or(Half(x), Half(y))
    ensures Odd(Or(x, y)) <==> Odd(x) || Odd(y)
  {
    hide *;
    OrHalf(x, y);
    OrOdd(x, y);
  }

  lemma OrHalf(x: bv16, y: bv16)
    ensures Half(Or(x, y)) == Or(Half(x), Half(y))
  {}

  lemma OrOdd(x: bv16, y: bv16)
    ensures Odd(Or(x, y)) <==> Odd(x) || Odd(y)
  {}

  lemma BackAgain(x: bv16)
    requires TopClear(x)
    ensures Half(Twice(x)) == x && !Odd(Twice(x))
  {}

  lemma {:induction false} ShiftsInjective(x: bv16, y: bv16, n: nat)
    ensures Shifts(x, n) == Shifts(y, n) ==> x == y
    decreases n
  {
    if n > 0 {
      ShiftInjective(x, y);
      hide Shift;
      ShiftsInjective(Shift(x), Shift(y), n - 1);
    }
  }

  lemma {:induction false} PackInjective(a: seq<bool>, b: seq<bool>)
    requires |a| == |b| <= 16
    ensures Pack(a) == Pack(b) ==> a == b
  {
    if a != [] {
      PackTop(a[1..]);
      PackTop(b[1..]);
      BelowInjective(a[0], Pack(a[1..]), b[0], Pack(b[1..]));
      hide Below, TopClear;
      PackInjective(a[1..], b[1..]);
      assert a == [a[0]] + a[1..] && b == [b[0]] + b[1..];
    }
  }

  lemma {:induction false} SerialJoin(a: seq<bool>, b: seq<bool>, acc: bv16)
    ensures Serial(a + b, acc) == Serial(b, Serial(a, acc))
    decreases |a|
  {
    hide Feed;
    if a == [] {
      assert a + b == b;
    } else {
      assert (a + b)[0] == a[0] && (a + b)[1..] == a[1..] + b;
      SerialJoin(a[1..], b, Feed(acc, a[0]));
    }
  }

  /** Feeding in the same bits never makes two registers equal. */
  lemma {:induction false} SerialInjective(bits: seq<bool>, x: bv16, y: bv16)
    ensures Serial(bits, x) == Serial(bits, y) ==> x == y
    decreases |bits|
  {
    if bits != [] {
      FeedInjective(x, y, bits[0]);
      hide Feed;
      SerialInjective(bits[1..], Feed(x, bits[0]), Feed(y, bits[0]));
    }
  }

  /** Differing windows of up to sixteen bits end in differing registers. */
  lemma WindowDetected(v: seq<bool>, w: seq<bool>, acc: bv16)
    requires |v| == |w| <= 16 && v != w
    ensures Serial(v, acc) != Serial(w, acc)
  {
    hide *;
    SerialPacked(v, acc);
    SerialPacked(w, acc);
    PackInjective(v, w);
    ShiftsInjective(Xor(acc, Pack(v)), Xor(acc, Pack(w)), |v|);
    XorInjective(acc, Pack(v), Pack(w));
  }

  /**
   * Two messages that differ within sixteen consecutive bits only, in the order in which they are sent,
   * never have the same CRC.
   */
  lemma BurstDetected(x: seq<bv8>, y: seq<bv8>, at: nat, len: nat, acc: bv16)
    requires x != y && |x| == |y| && len <= 16 && at + len <= 8 * |x|
    requires MessageBits(x)[..at] == MessageBits(y)[..at]
    requires MessageBits(x)[at + len..] == MessageBits(y)[at + len..]
    ensures Serial(MessageBits(x), acc) != Serial(MessageBits(y), acc)
  {
    var a, b := MessageBits(x), MessageBits(y);
    BitsInjective(x, y);
    hide *;
    var head, tail, v, w := a[..at], a[at + len..], a[at..at + len], b[at..at + len];
    assert a == head + (v + tail) && b == head + (w + tail);
    assert v != w;
    SerialJoin(head, v + tail, acc);
    SerialJoin(head, w + tail, acc);
    var m := Serial(head, acc);
    SerialJoin(v, tail, m);
    SerialJoin(w, tail, m);
    WindowDetected(v, w, m);
    SerialInjective(tail, Serial(v, m), Serial(w, m));
  }

  lemma {:induction false} BitsInjective(x: seq<bv8>, y: seq<bv8>)
    requires |x| == |y|
    ensures MessageBits(x) == MessageBits(y) ==> x == y
  {
    if x != [] && MessageBits(x) == MessageBits(y) {
      hide ByteBits;
      var a, b := MessageBits(x), MessageBits(y);
      assert a[..8] == ByteBits(x[0]) && b[..8] == ByteBits(y[0]);
      assert a[8..] == MessageBits(x[1..]) && b[8..] == MessageBits(y[1..]);
      ByteInjective(x[0], y[0]);
      BitsInjective(x[1..], y[1..]);
      assert x == [x[0]] + x[1..] && y == [y[0]] + y[1..];
    }
  }

  lemma ByteInjective(x: bv8, y: bv8)
    requires ByteBits(x) == ByteBits(y)
    ensures x == y
  {
    var a, b := ByteBits(x), ByteBits(y);
    assert a[0] == b[0] && a[1] == b[1] && a[2] == b[2] && a[3] == b[3];
    assert a[4] == b[4] && a[5] == b[5] && a[6] == b[6] && a[7] == b[7];
  }

  /** crc16_add's way of moving the register by eight bits at once. */
  function Fold(x: bv16): bv16 {
    var a := (x >> 8) | (x << 8);
    var b := a ^ ((a & 0xFF00) << 4);
    var c := b ^ ((b >> 8) >> 4);
    c ^ ((c & 0xFF00) >> 5)
  }

  lemma EightAtOnce(x: bv16)
    ensures Fold(x) == Shifts(x, 8)
  {
    assert Fold(x) == Shift(Shift(Shift(Shift(Shift(Shift(Shift(Shift(x))))))));
    hide Fold, Shift;
    var y := Shift(Shift(Shift(Shift(x))));
    assert Shifts(x, 8) == Shifts(y, 4);
  }

  function Wide(b: bv8): bv16 { b as bv16 }

  lemma PackByte(b: bv8)
    ensures Pack(ByteBits(b)) == Wide(b)
  {
    var s := ByteBits(b);
    ByteIsBits(b);
    hide Below, Wide, ByteBits;
    PackOnto(s, []);
    assert s + [] == s;
  }

  lemma ByteIsBits(b: bv8)
    ensures var s := ByteBits(b);
      Wide(b) == Below(s[0], Below(s[1], Below(s[2], Below(s[3],
        Below(s[4], Below(s[5], Below(s[6], Below(s[7], 0))))))))
  {}

  /** crc16_add */
  method Add(b: bv8, acc: bv16) returns (r: bv16)
    ensures r == Serial(ByteBits(b), acc)
  {
    AddIsSerial(b, acc);
    hide Serial, ByteBits;
    r := acc ^ (b as bv16);
    r := (r >> 8) | (r << 8);
    r := r ^ ((r & 0xFF00) << 4);
    r := r ^ ((r >> 8) >> 4);
    r := r ^ ((r & 0xFF00) >> 5);
  }

  lemma AddIsSerial(b: bv8, acc: bv16)
    ensures Fold(Xor(acc, Wide(b))) == Serial(ByteBits(b), acc)
  {
    hide *;
    EightAtOnce(Xor(acc, Wide(b)));
    SerialPacked(ByteBits(b), acc);
    PackByte(b);
  }

  /** crc16_data */
  method Data(data: array<bv8>, acc: bv16) returns (r: bv16)
    ensures r == Serial(MessageBits(data[..]), acc)
  {
    r := acc;
    var i := 0;
    while i < data.Length
      invariant 0 <= i <= data.Length && r == Serial(MessageBits(data[..i]), acc)
    {
      hide *;
      MessageBitsMore(data[..i], data[i]);
      SerialJoin(MessageBits(data[..i]), ByteBits(data[i]), acc);
      assert data[..i + 1] == data[..i] + [data[i]];
      r := Add(data[i], r);
      i := i + 1;
    }
    assert data[..i] == data[..];
  }

  lemma {:induction false} MessageBitsMore(data: seq<bv8>, b: bv8)
    ensures MessageBits(data + [b]) == MessageBits(data) + ByteBits(b)
  {
    hide ByteBits;
    if data == [] {
      assert data + [b] == [b] && [b][1..] == [];
    } else {
      assert (data + [b])[0] == data[0] && (data + [b])[1..] == data[1..] + [b];
      MessageBitsMore(data[1..], b);
    }
  }

  function Low(crc: bv16): bv8 { (crc & 0xFF) as bv8 }

  function High(crc: bv16): bv8 { (crc >> 8) as bv8 }

  /** A message followed by its own CRC, low byte first, leaves nothing. */
  lemma AppendedLeavesNothing(data: seq<bv8>, acc: bv16)
    ensures var crc := Serial(MessageBits(data), acc);
      Serial(MessageBits(data + [Low(crc), High(crc)]), acc) == 0
  {
    hide *;
    var crc := Serial(MessageBits(data), acc);
    var lo, hi := Low(crc), High(crc);
    var both := ByteBits(lo) + ByteBits(hi);
    MessageBitsMore(data, lo);
    MessageBitsMore(data + [lo], hi);
    assert data + [lo, hi] == data + [lo] + [hi];
    assert MessageBits(data + [lo, hi]) == MessageBits(data) + both;
    SerialJoin(MessageBits(data), both, acc);
    SerialPacked(both, crc);
    PackCrc(crc);
    XorSelf(crc);
    ShiftsZero(16);
  }

  lemma XorSelf(x: bv16)
    ensures Xor(x, x) == 0
  {}

  lemma PackCrc(crc: bv16)
    ensures Pack(ByteBits(Low(crc)) + ByteBits(High(crc))) == crc
  {
    var a, b := ByteBits(Low(crc)), ByteBits(High(crc));
    PackOnto(a, b);
    PackByte(High(crc));
    WordIsBits(crc);
    hide *;
  }

  lemma WordIsBits(crc: bv16)
    ensures var s := ByteBits(Low(crc));
      crc == Below(s[0], Below(s[1], Below(s[2], Below(s[3],
        Below(s[4], Below(s[5], Below(s[6], Below(s[7], Wide(High(crc))))))))))
  {}

  lemma {:induction false} ShiftsZero(n: nat)
    ensures Shifts(0, n) == 0
    decreases n
  {
    if n > 0 { ShiftsZero(n - 1); }
  }

  lemma PackOnto(s: seq<bool>, b: seq<bool>)
    requires |s| == 8
    ensures Pack(s + b) == Below(s[0], Below(s[1], Below(s[2], Below(s[3],
      Below(s[4], Below(s[5], Below(s[6], Below(s[7], Pack(b)))))))))
  {
    hide Below;
    var t := s + b;
    assert t[8..] == b;
    assert Pack(t[7..]) == Below(s[7], Pack(b)) by { assert t[7..][1..] == t[8..]; }
    assert Pack(t[6..]) == Below(s[6], Pack(t[7..])) by { assert t[6..][1..] == t[7..]; }
    assert Pack(t[5..]) == Below(s[5], Pack(t[6..])) by { assert t[5..][1..] == t[6..]; }
    assert Pack(t[4..]) == Below(s[4], Pack(t[5..])) by { assert t[4..][1..] == t[5..]; }
    assert Pack(t[3..]) == Below(s[3], Pack(t[4..])) by { assert t[3..][1..] == t[4..]; }
    assert Pack(t[2..]) == Below(s[2], Pack(t[3..])) by { assert t[2..][1..] == t[3..]; }
    assert Pack(t[1..]) == Below(s[1], Pack(t[2..])) by { assert t[1..][1..] == t[2..]; }
  }
}
