/** The limits of a Trickle timer's configuration on a wrapping clock (trickle-timer.c, trickle-timer.h). */
module TrickleLimits {
  import opened Bits

  /** TRICKLE_TIMER_CLOCK_MAX for a clock of w bits. */
  function ClockMax(w: nat): nat { Pow2(w) - 1 }

  /** TRICKLE_TIMER_IMIN_IS_BAD */
  predicate IMinIsBad(w: nat, iMin: nat) {
    iMin < 2 || iMin > ClockMax(w) / 2
  }

  /** TRICKLE_TIMER_IPAIR_IS_BAD; a shift by the word's width or more leaves nothing. */
  predicate IPairIsBad(w: nat, iMin: nat, iMax: nat)
    requires iMin > 0
  {
    ClockMax(w) / Pow2(iMax + 1) < iMin - 1
  }

  /** The word v of w bits starts with exactly z zero bits. */
  ghost predicate LeadingZeros(w: nat, v: nat, z: nat) {
    v * Pow2(z) < Pow2(w) <= v * Pow2(z + 1)
  }

  /** x << b */
  function Shift(x: nat, b: nat): nat {
    if b == 0 then x else 2 * Shift(x, b - 1)
  }

  lemma {:induction false} ShiftValue(x: nat, b: nat)
    ensures Shift(x, b) == x * Pow2(b)
  {
    if b > 0 {
      ShiftValue(x, b - 1);
      TwiceOf(x, Pow2(b - 1), Pow2(b));
    }
  }

  /** x << i in a word of w bits, which loses what does not fit. */
  function ShiftWord(w: nat, x: nat, i: nat): nat { x * Pow2(i) % Pow2(w) }

  /** A word of w bits with its i highest bits set. */
  function Top(w: nat, i: nat): nat
    requires i <= w
  {
    Shift(Pow2(i) - 1, w - i)
  }

  lemma TestAll(v: nat, a: nat)
    requires v < Pow2(a)
    ensures And(v, Pow2(a) - 1) == v
  {
    hide And, Pow2;
    MaskIsMod(v, a);
    DivMod(v, 0, v, Pow2(a));
  }

  lemma {:induction false} TestHigh(v: nat, a: nat, b: nat)
    requires v < Pow2(a + b)
    ensures And(v, Shift(Pow2(a) - 1, b)) == 0 <==> v < Pow2(b)
  {
    if b == 0 {
      TestAll(v, a);
    } else {
      var h := Shift(Pow2(a) - 1, b - 1);
      assert Shift(Pow2(a) - 1, b) == 2 * h;
      PowUp(a + b);
      PowUp(b);
      hide And, Pow2, Shift;
      TestHigh(v / 2, a, b - 1);
      AndDouble(v, h);
    }
  }

  lemma PowUp(b: nat)
    requires b > 0
    ensures Pow2(b) == 2 * Pow2(b - 1)
  {}

  lemma TwiceOf(x: int, y: int, z: int)
    requires z == 2 * y
    ensures x * z == 2 * (x * y)
  {}

  lemma AndDouble(v: nat, h: nat)
    ensures And(v, 2 * h) == 2 * And(v / 2, h)
  {
    if v > 0 && h > 0 {
      assert 2 * h / 2 == h;
    }
  }

  lemma ScaleLess(v: nat, d: nat, e: nat)
    requires e > 0
    ensures v < d <==> v * e < d * e
  {
    if v >= d { MulMono(d, v, e); } else { MulMono(v + 1, d, e); }
  }

  /** The masked test of a shift by i. */
  lemma TopIsZero(w: nat, v: nat, i: nat)
    requires i <= w && v < Pow2(w)
    ensures And(v, Top(w, i)) == 0 <==> v * Pow2(i) < Pow2(w)
  {
    TestHigh(v, i, w - i);
    hide Shift, And;
    PowAdd(w - i, i);
    assert w - i + i == w;
    ScaleLess(v, Pow2(w - i), Pow2(i));
  }

  /** Shifting a mask of 2 * i high bits by i leaves i of them. */
  lemma ShiftMask(w: nat, i: nat)
    requires w == 16 || w == 32
    requires i in {1, 2, 4, 8} && 2 * i < w
    ensures ShiftWord(w, Top(w, 2 * i), i) == Top(w, i)
  {
    hide Pow2, Top;
    FixedMasks();
    Powers();
  }

  /** One probe of the count: what is known of the zeros of `value` before and after it. */
  ghost predicate Counting(w: nat, orig: nat, value: nat, zeros: nat, span: nat) {
    value == orig * Pow2(zeros) && value < Pow2(w) <= value * Pow2(span)
  }

  lemma Probe(w: nat, orig: nat, value: nat, zeros: nat, i: nat)
    requires 2 * i <= w && Counting(w, orig, value, zeros, 2 * i)
    ensures And(value, Top(w, i)) == 0 ==> Counting(w, orig, ShiftWord(w, value, i), zeros + i, i)
    ensures And(value, Top(w, i)) != 0 ==> Counting(w, orig, value, zeros, i)
  {
    TopIsZero(w, value, i);
    hide Pow2, And, Top;
    PowAdd(i, i);
    PowAdd(zeros, i);
    assert i + i == 2 * i;
    var p := Pow2(i);
    Assoc(value, p, p);
    Assoc(orig, Pow2(zeros), p);
    if value * p < Pow2(w) {
      MulMono(0, value, p);
      DivMod(value * p, 0, value * p, Pow2(w));
    }
  }

  lemma Assoc(a: int, b: int, c: int)
    ensures a * b * c == a * (b * c)
  {}

  lemma CountEnds(w: nat, orig: nat, value: nat, zeros: nat)
    requires Counting(w, orig, value, zeros, 1)
    ensures LeadingZeros(w, orig, zeros)
  {
    assert Pow2(1) == 2 * Pow2(0) == 2;
    Assoc(orig, Pow2(zeros), 2);
  }

  lemma CountStarts(w: nat, v: nat)
    requires 0 < v < Pow2(w)
    ensures Counting(w, v, v, 0, w)
  {
    MulMono(1, v, Pow2(w));
  }

  /** What the generic count knows before it probes the i highest bits. */
  ghost predicate Searching(w: nat, orig: nat, value: nat, zeros: nat, mask: nat, i: nat)
    requires w == 16 || w == 32
  {
    i in {0, 1, 2, 4, 8, w / 2} &&
    (i > 0 ==> ShiftWord(w, mask, i) == Top(w, i)) &&
    Counting(w, orig, value, zeros, if i > 0 then 2 * i else 1)
  }

  lemma SearchStep(w: nat, orig: nat, value: nat, zeros: nat, mask: nat, i: nat)
    requires w == 16 || w == 32
    requires Searching(w, orig, value, zeros, mask, i) && i > 0
    ensures i / 2 < i
    ensures ShiftWord(w, mask, i) == Top(w, i)
    ensures And(value, Top(w, i)) == 0 ==> Searching(w, orig, ShiftWord(w, value, i), zeros + i, Top(w, i), i / 2)
    ensures And(value, Top(w, i)) != 0 ==> Searching(w, orig, value, zeros, Top(w, i), i / 2)
  {
    hide Pow2, And, Top, ShiftWord, Counting;
    Probe(w, orig, value, zeros, i);
    if i > 1 { ShiftMask(w, i / 2); }
  }

  /** max_imax, TRICKLE_TIMER_MAX_IMAX_GENERIC: the largest number of doublings that is accepted. */
  method MaxImaxGeneric(w: nat, iMin: nat) returns (iMax: nat)
    requires w == 16 || w == 32
    requires !IMinIsBad(w, iMin)
    ensures forall i: nat :: IPairIsBad(w, iMin, i) <==> i > iMax
  {
    SearchStarts(w, iMin);
    var zeros := 0;
    var value := iMin - 1;
    ghost var orig := value;
    var i := w / 2;
    var mask := 0xFFFF;
    hide *;
    while i > 0
      invariant i >= 0 && value >= 0 && mask >= 0 && Searching(w, orig, value, zeros, mask, i)
    {
      SearchStep(w, orig, value, zeros, mask, i);
      mask := ShiftWord(w, mask, i);
      if And(value, mask) == 0 {
        zeros := zeros + i;
        value := ShiftWord(w, value, i);
      }
      i := i / 2;
    }
    SearchEnds(w, iMin, value, zeros, mask);
    iMax := zeros - 1;
  }

  lemma SearchStarts(w: nat, iMin: nat)
    requires w == 16 || w == 32
    requires !IMinIsBad(w, iMin)
    ensures iMin > 0 && Searching(w, iMin - 1, iMin - 1, 0, 0xFFFF, w / 2)
  {
    hide Pow2, And, Top, ShiftWord, Counting;
    MaskStarts(w);
    CountStarts(w, iMin - 1);
  }

  lemma SearchEnds(w: nat, iMin: nat, value: nat, zeros: nat, mask: nat)
    requires w == 16 || w == 32
    requires !IMinIsBad(w, iMin) && iMin > 0 && Searching(w, iMin - 1, value, zeros, mask, 0)
    ensures zeros > 0
    ensures forall i: nat :: IPairIsBad(w, iMin, i) <==> i > zeros - 1
  {
    hide Pow2, And, Top, ShiftWord, Counting, IPairIsBad, LeadingZeros;
    CountEnds(w, iMin - 1, value, zeros);
    AcceptedExactly(w, iMin, zeros);
  }

  lemma MaskStarts(w: nat)
    requires w == 16 || w == 32
    ensures ShiftWord(w, 0xFFFF, w / 2) == Top(w, w / 2)
  {
    hide Pow2, Top;
    FixedMasks();
    Powers();
  }

  /** A pair is accepted exactly when every bit of (iMin - 1) << (i + 1) survives. */
  lemma Accepts(w: nat, iMin: nat, i: nat)
    requires iMin > 0
    ensures !IPairIsBad(w, iMin, i) <==> (iMin - 1) * Pow2(i + 1) < Pow2(w)
  {
    hide Pow2;
    var d, c, v := Pow2(i + 1), ClockMax(w), iMin - 1;
    if c / d >= v { MulMono(v, c / d, d); }
    if c / d < v { MulMono(c / d + 1, v, d); Regroup(1, c / d, 1, d); }
  }

  lemma AcceptedExactly(w: nat, iMin: nat, zeros: nat)
    requires w > 0 && !IMinIsBad(w, iMin) && LeadingZeros(w, iMin - 1, zeros)
    ensures zeros > 0
    ensures forall i: nat :: IPairIsBad(w, iMin, i) <==> i > zeros - 1
  {
    var v := iMin - 1;
    SomeZeros(w, v, zeros);
    hide Pow2, IPairIsBad;
    forall i: nat
      ensures IPairIsBad(w, iMin, i) <==> i > zeros - 1
    {
      hide IMinIsBad;
      Accepts(w, iMin, i);
      var e := Pow2(i + 1);
      if i > zeros - 1 {
        PowMono(zeros + 1, i + 1);
        ProductMono(Pow2(zeros + 1), e, v);
      } else {
        PowMono(i + 1, zeros);
        ProductMono(e, Pow2(zeros), v);
      }
    }
  }

  lemma ProductMono(a: int, b: int, v: nat)
    requires a <= b
    ensures v * a <= v * b
  {}

  /** An accepted pair never leaves half of the clock's range. */
  lemma AcceptedFits(w: nat, iMin: nat, i: nat)
    requires w > 0 && !IMinIsBad(w, iMin) && !IPairIsBad(w, iMin, i)
    ensures iMin * Pow2(i) <= Pow2(w - 1) == ClockMax(w) / 2 + 1
  {
    assert Pow2(w) == 2 * Pow2(w - 1);
    Accepts(w, iMin, i);
    if i + 1 > w {
      PowMono(w, i + 1);
      MulMono(1, iMin - 1, Pow2(i + 1));
    } else {
      PowAdd(w - (i + 1), i + 1);
      assert w - (i + 1) + (i + 1) == w;
      ScaleLess(iMin - 1, Pow2(w - (i + 1)), Pow2(i + 1));
      PowAdd(w - (i + 1), i);
      assert w - (i + 1) + i == w - 1;
      MulMono(iMin, Pow2(w - (i + 1)), Pow2(i));
    }
  }

  /** max_imax, TRICKLE_TIMER_MAX_IMAX_16_BIT */
  method MaxImax16(iMin: nat) returns (iMax: nat)
    requires !IMinIsBad(16, iMin)
    ensures LeadingZeros(16, iMin, iMax + 1)
  {
    hide Pow2, And, Top, ShiftWord, LeadingZeros;
    var value, zeros := iMin, 0;
    assert iMin < Pow2(16);
    FixedMasks();
    CountStarts(16, value);
    Probe(16, iMin, value, zeros, 8);
    if And(value, 0xFF00) == 0 { zeros := zeros + 8; value := ShiftWord(16, value, 8); }
    Probe(16, iMin, value, zeros, 4);
    if And(value, 0xF000) == 0 { zeros := zeros + 4; value := ShiftWord(16, value, 4); }
    Probe(16, iMin, value, zeros, 2);
    if And(value, 0xC000) == 0 { zeros := zeros + 2; value := ShiftWord(16, value, 2); }
    Probe(16, iMin, value, zeros, 1);
    if And(value, 0x8000) == 0 { zeros := zeros + 1; value := ShiftWord(16, value, 1); }
    CountEnds(16, iMin, value, zeros);
    SomeZeros(16, iMin, zeros);
    iMax := zeros - 1;
  }

  /** max_imax, TRICKLE_TIMER_MAX_IMAX_32_BIT */
  method MaxImax32(iMin: nat) returns (iMax: nat)
    requires !IMinIsBad(32, iMin)
    ensures LeadingZeros(32, iMin, iMax + 1)
  {
    hide Pow2, And, Top, ShiftWord, LeadingZeros;
    var value, zeros := iMin, 0;
    assert iMin < Pow2(32);
    FixedMasks();
    CountStarts(32, value);
    Probe(32, iMin, value, zeros, 16);
    if And(value, 0xFFFF0000) == 0 { zeros := zeros + 16; value := ShiftWord(32, value, 16); }
    Probe(32, iMin, value, zeros, 8);
    if And(value, 0xFF000000) == 0 { zeros := zeros + 8; value := ShiftWord(32, value, 8); }
    Probe(32, iMin, value, zeros, 4);
    if And(value, 0xF0000000) == 0 { zeros := zeros + 4; value := ShiftWord(32, value, 4); }
    Probe(32, iMin, value, zeros, 2);
    if And(value, 0xC0000000) == 0 { zeros := zeros + 2; value := ShiftWord(32, value, 2); }
    Probe(32, iMin, value, zeros, 1);
    if And(value, 0x80000000) == 0 { zeros := zeros + 1; value := ShiftWord(32, value, 1); }
    CountEnds(32, iMin, value, zeros);
    SomeZeros(32, iMin, zeros);
    iMax := zeros - 1;
  }

  lemma FixedMasks()
    ensures Top(16, 8) == 0xFF00 && Top(16, 4) == 0xF000 && Top(16, 2) == 0xC000 && Top(16, 1) == 0x8000
    ensures Top(32, 16) == 0xFFFF0000 && Top(32, 8) == 0xFF000000 && Top(32, 4) == 0xF0000000
    ensures Top(32, 2) == 0xC0000000 && Top(32, 1) == 0x80000000
  {
    Powers();
    hide Pow2, Shift;
    ShiftValue(0xFF, 8); ShiftValue(0xF, 12); ShiftValue(0x3, 14); ShiftValue(0x1, 15);
    ShiftValue(0xFFFF, 16); ShiftValue(0xFF, 24); ShiftValue(0xF, 28); ShiftValue(0x3, 30); ShiftValue(0x1, 31);
  }

  lemma Powers()
    ensures Pow2(0) == 1 && Pow2(1) == 2 && Pow2(2) == 4 && Pow2(4) == 0x10 && Pow2(8) == 0x100 && Pow2(16) == 0x10000
    ensures Pow2(12) == 0x1000 && Pow2(14) == 0x4000 && Pow2(15) == 0x8000
    ensures Pow2(32) == 0x100000000 && Pow2(24) == 0x1000000 && Pow2(28) == 0x10000000 && Pow2(30) == 0x40000000
      && Pow2(31) == 0x80000000
  {
    assert Pow2(0) == 1 && Pow2(1) == 2 * Pow2(0);
    assert Pow2(2) == 2 * Pow2(1) && Pow2(3) == 2 * Pow2(2) && Pow2(4) == 2 * Pow2(3);
    hide Pow2;
    PowAdd(4, 4); PowAdd(8, 4); PowAdd(12, 2); PowAdd(14, 1); PowAdd(8, 8);
    PowAdd(16, 8); PowAdd(24, 4); PowAdd(28, 2); PowAdd(30, 1); PowAdd(31, 1);
  }

  lemma SomeZeros(w: nat, v: nat, zeros: nat)
    requires w > 0 && v <= ClockMax(w) / 2 && LeadingZeros(w, v, zeros)
    ensures zeros > 0
  {
    assert Pow2(0) == 1 && Pow2(1) == 2 * Pow2(0) && Pow2(w) == 2 * Pow2(w - 1);
  }

  /**
   * The variants of fixed width do not take one from the interval first: their answer is accepted,
   * and it is the largest accepted one unless the interval is a power of two, when it is one less.
   */
  lemma FixedIsSafe(w: nat, iMin: nat, fixed: nat, largest: nat)
    requires w > 0 && !IMinIsBad(w, iMin) && LeadingZeros(w, iMin, fixed + 1)
    requires forall i: nat :: IPairIsBad(w, iMin, i) <==> i > largest
    ensures !IPairIsBad(w, iMin, fixed)
    ensures fixed == if exists k: nat :: iMin == Pow2(k) then largest - 1 else largest
  {
    var z, p, m := fixed + 1, Pow2(fixed + 1), Pow2(w);
    PowUp(z + 1);
    PowUp(z + 2);
    hide Pow2, IPairIsBad;
    LowerProducts(iMin, p, m);
    Accepts(w, iMin, fixed);
    Accepts(w, iMin, fixed + 1);
    Accepts(w, iMin, fixed + 2);
    if (iMin - 1) * Pow2(z + 1) < m {
      OneLessThanPower(w, iMin, z + 1);
    }
    if k: nat :| iMin == Pow2(k) {
      PowerIsExact(w, iMin, k, z);
      Regroup(1, iMin, -1, Pow2(z + 1));
    }
  }

  lemma OneLessThanPower(w: nat, v: nat, z: nat)
    requires v >= 2 && (v - 1) * Pow2(z) < Pow2(w) <= v * Pow2(z)
    ensures exists k: nat :: v == Pow2(k)
  {
    hide Pow2;
    if z > w {
      PowMono(w, z);
      MulMono(1, v - 1, Pow2(z));
    } else {
      PowAdd(w - z, z);
      assert w - z + z == w;
      ScaleLess(v - 1, Pow2(w - z), Pow2(z));
      ScaleLess(v, Pow2(w - z), Pow2(z));
    }
  }

  lemma PowerIsExact(w: nat, v: nat, k: nat, z: nat)
    requires v == Pow2(k) && v * Pow2(z) < Pow2(w) <= v * Pow2(z + 1)
    ensures v * Pow2(z + 1) == Pow2(w)
  {
    hide Pow2;
    PowAdd(k, z);
    PowAdd(k, z + 1);
    if k + z >= w { PowMono(w, k + z); }
    if k + z + 1 < w {
      PowUp(k + z + 2);
      PowMono(k + z + 2, w);
    }
    assert k + (z + 1) == w;
  }

  lemma LowerProducts(v: nat, p: nat, m: nat)
    requires v >= 2 && p > 0 && v * p < m <= v * (2 * p)
    ensures (v - 1) * p < m <= (v - 1) * (4 * p)
  {
    Regroup(1, v - 1, 1, p);
    MulMono(1, v - 1, p);
  }
}
