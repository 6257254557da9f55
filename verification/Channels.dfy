/**
 Channel hopping and channel prediction of MiCMAC (mccontikimac.c, mcphase.c).

 A receiver wakes up once per cycle and hops to the next channel of its row of the hop table; its hop
 counter is 8 bits wide. A sender that was acknowledged at a wake-up remembers the time and the place in
 the row, and predicts time and channel of a later wake-up from 32-bit clock values.
 */
module Channels {
  import opened Numbers
  import opened Bits
  import opened Wrappers

  /** A hop table: rows of cols channels each. */
  datatype HopTable = HopTable(seq_: seq<nat>, rows: nat, cols: nat) {
    predicate Valid() {
      0 < rows && 0 < cols && |seq_| == rows * cols
    }
  }

  /** hop_sequence[CHANNEL_IDX(address byte * COL_NUM + ROW_CHANNEL_IDX(ind))]: the channel of MY_CHANNEL,
      HOP_CHANNEL and SEND_CHANNEL. */
  function Channel(t: HopTable, addressByte: nat, ind: nat): nat
    requires t.Valid()
  {
    t.seq_[(addressByte % 16 * t.cols + ind % t.cols) % (t.rows * t.cols)]
  }

  /** The table is stored row by row, and the last four bits of the address select the row. */
  lemma ChannelIs(t: HopTable, a: nat, i: nat, k: nat)
    requires t.Valid() && k < |t.seq_| && k / t.cols == a % 16 && k % t.cols == i % t.cols
    ensures Channel(t, a, i) == t.seq_[k]
  {
    RowSize(k, t.cols);
    ModSmall(k, t.rows * t.cols);
  }

  lemma RowSize(k: nat, n: pos)
    ensures k / n * n + k % n == k
  {}

  lemma ModSmall(k: nat, n: pos)
    requires k < n
    ensures k % n == k
  {}

  /** Each channel appears only once in the row. */
  ghost predicate DistinctRow(t: HopTable, a: nat)
    requires t.Valid()
  {
    forall i, j | 0 <= i < j < t.cols :: Channel(t, a, i) != Channel(t, a, j)
  }

  /** uint8_t and rtimer_clock_t arithmetic. */
  function U8(x: int): nat { x % 0x100 }
  function U32(x: int): nat { x % 0x1_0000_0000 }

  /** The channel of the receiver's wake-up j when its counter was `start` at wake-up 0. */
  function WakeChannel(t: HopTable, a: nat, start: nat, j: nat): nat
    requires t.Valid()
  {
    Channel(t, a, U8(start + j))
  }

  /** receiver_channel_index: the place behind the first one in the row that has the channel. */
  method ReceiverChannelIndex(t: HopTable, a: nat, channel: nat) returns (r: nat)
    requires t.Valid() && t.cols < 0x100
    ensures forall i | 0 <= i < t.cols && Channel(t, a, i) == channel &&
                       (forall k | 0 <= k < i :: Channel(t, a, k) != channel) :: r == i + 1
    ensures (forall k | 0 <= k < t.cols :: Channel(t, a, k) != channel) ==> r == U8(a % 16 * t.cols)
  {
    for i := 0 to t.cols
      invariant forall k | 0 <= k < i :: Channel(t, a, k) != channel
    {
      if Channel(t, a, i) == channel {
        return i + 1;
      }
    }
    r := U8(a % 16 * t.cols);
  }

  datatype Prediction = Prediction(wait: nat, channel: nat)

  /** The computation of mcphase_wait, without drift correction: how long to wait, and the index of the
      channel to use. */
  function Predict(sync: nat, now: nat, cycle: nat, guardTime: nat, seed: nat): Prediction
    requires cycle > 0
  {
    var elapsed := U32(now - sync);
    var wait := if And(cycle, cycle - 1) == 0 then And(U32(sync - now), cycle - 1) else cycle - elapsed % cycle;
    var channeldiff := U8(elapsed / cycle);
    if wait < guardTime then Prediction(U32(wait + cycle), U8(seed + U8(channeldiff + 1)))
    else Prediction(wait, U8(seed + channeldiff))
  }

  /** What a prediction is good for: after the wait, at least guardTime from now and not a cycle longer, the
      receiver that woke up `elapsed` ticks ago (its wake-up m) wakes up, on the predicted channel. */
  ghost predicate Meets(t: HopTable, a: nat, start: nat, m: nat, elapsed: nat, cycle: pos, guardTime: nat,
                        p: Prediction)
    requires t.Valid()
  {
    && guardTime <= p.wait < guardTime + cycle
    && (elapsed + p.wait) % cycle == 0
    && Channel(t, a, p.channel) == WakeChannel(t, a, start, m + (elapsed + p.wait) / cycle)
  }

  /** The seed that mcphase_update records after an ACK on the channel of wake-up m. */
  ghost predicate SeedOf(t: HopTable, a: nat, start: nat, m: nat, seed: nat)
    requires t.Valid()
  {
    seed == U8(start + m) % t.cols + 1
  }

  /** An 8-bit hop counter is as good as an unbounded one when the number of columns divides 256. */
  lemma HopsWrap(x: nat, cols: nat)
    requires cols > 0 && 0x100 % cols == 0
    ensures U8(x) % cols == x % cols
  {
    assert 0x100 == cols * (0x100 / cols);
    ModMod(x, cols, 0x100 / cols);
  }

  /** ... and so is a 32-bit clock, as far as 8 bits of the cycle count go, when the cycle is a power of two
      of at most 2^24. */
  lemma CyclesWrap(x: nat, k: nat)
    requires k <= 24
    ensures U32(x) % Pow2(k) == x % Pow2(k)
    ensures U8(U32(x) / Pow2(k)) == U8(x / Pow2(k))
  {
    hide Pow2, U8, U32;
    PowAdd(k, 24 - k);
    Pow24();
    assert k + (24 - k) == 24;
    FactorWrap(x, Pow2(k), Pow2(24 - k));
  }

  lemma Pow24()
    ensures Pow2(24) == 0x100_0000
  {
    assert Pow2(12) == 0x1000;
    PowAdd(12, 12);
  }

  lemma FactorWrap(x: nat, c: nat, n: nat)
    requires c > 0 && n > 0 && c * n == 0x100_0000
    ensures U32(x) % c == x % c && U8(U32(x) / c) == U8(x / c)
  {
    MulSwap(c, n);
    DivWrap(x, c, 0x100 * n);
    ModMod(x / c, 0x100, n);
  }

  lemma MulSwap(c: nat, n: nat)
    ensures c * (0x100 * n) == 0x100 * (c * n)
  {}

  /** Two equal places in the row give the same channel. */
  lemma SamePlace(t: HopTable, a: nat, i: nat, j: nat)
    requires t.Valid() && i % t.cols == j % t.cols
    ensures Channel(t, a, i) == Channel(t, a, j)
  {}

  /** The place of the receiver at a wake-up, counted from wake-up m. */
  lemma PlaceAhead(t: HopTable, a: nat, start: nat, m: nat, n: nat, seed: nat, index: nat)
    requires t.Valid() && 0x100 % t.cols == 0 && n > 0 && SeedOf(t, a, start, m, seed)
    requires index == U8(seed + n - 1)
    ensures Channel(t, a, index) == WakeChannel(t, a, start, m + n)
  {
    var c := t.cols;
    hide U8, Channel;
    HopsWrap(seed + n - 1, c);
    HopsWrap(start + m, c);
    HopsWrap(start + (m + n), c);
    var q := (start + m) / c;
    assert start + m == q * c + (start + m) % c;
    assert seed + n - 1 == start + (m + n) - q * c;
    ModShift(start + (m + n), q, c);
    SamePlace(t, a, index, U8(start + (m + n)));
  }

  lemma ModShift(x: int, q: int, c: nat)
    requires c > 0
    ensures (x - q * c) % c == x % c
  {
    assert x == x / c * c + x % c;
    Regroup(x / c, 1, -q, c);
    DivMod(x - q * c, x / c - q, x % c, c);
  }

  lemma Elapsed32(sync: nat, elapsed: int)
    requires elapsed >= 0
    ensures U32(U32(sync + elapsed) - U32(sync)) == U32(elapsed)
    ensures U32(U32(sync) - U32(sync + elapsed)) == U32(-elapsed)
  {
    ModDiff(sync + elapsed, sync, 0x1_0000_0000);
    ModDiff(sync, sync + elapsed, 0x1_0000_0000);
  }

  lemma AddU8(a: nat, b: nat)
    ensures U8(a + U8(b)) == U8(a + b)
  {
    var q := b / 0x100;
    assert a + U8(b) == a + b - 0x100 * q;
  }

  /** What the wrapped arithmetic of mcphase_wait comes to when the cycle is a power of two. */
  lemma PredictValue(sync: nat, elapsed: int, k: nat, guardTime: nat, seed: nat)
    requires elapsed >= 0 && k <= 24 && guardTime <= Pow2(k)
    ensures var c := Pow2(k); var q, rem := elapsed / c, elapsed % c;
      var wait := if rem == 0 then 0 else c - rem;
      Predict(U32(sync), U32(sync + elapsed), c, guardTime, seed) ==
        if wait < guardTime then Prediction(wait + c, U8(seed + q + 1)) else Prediction(wait, U8(seed + q))
  {
    hide Pow2, U8, U32, And;
    var c := Pow2(k);
    var q, rem := elapsed / c, elapsed % c;
    Elapsed32(sync, elapsed);
    CyclesWrap(elapsed, k);
    PowerPasses(k);
    MaskIsMod(U32(-elapsed), k);
    NegativeWrap(elapsed, k);
    AddU8(seed, q);
    AddU8(1, q);
    AddU8(seed, q + 1);
    PowMono(k, 24);
    Pow24();
    var wait := if rem == 0 then 0 else c - rem;
    assert wait + c < 0x1_0000_0000;
    SmallU32(wait + c);
  }

  lemma SmallU32(x: nat)
    requires x < 0x1_0000_0000
    ensures U32(x) == x
  {}

  lemma NegativeWrap(x: int, k: nat)
    requires x >= 0 && k <= 24
    ensures U32(-x) % Pow2(k) == if x % Pow2(k) == 0 then 0 else Pow2(k) - x % Pow2(k)
  {
    hide Pow2;
    PowAdd(k, 24 - k);
    Pow24();
    assert k + (24 - k) == 24;
    NegativeMod(x, Pow2(k), Pow2(24 - k));
  }

  lemma NegativeMod(x: int, c: nat, n: nat)
    requires x >= 0 && c > 0 && n > 0 && c * n == 0x100_0000
    ensures U32(-x) % c == if x % c == 0 then 0 else c - x % c
  {
    MulSwap(c, n);
    ModMod(-x, c, 0x100 * n);
    NegMod(x, c);
  }

  /** From the numbers to the meeting. */
  lemma MeetsAhead(t: HopTable, a: nat, start: nat, m: nat, elapsed: nat, c: pos, guardTime: nat, seed: nat, n: nat,
                   wait: nat)
    requires t.Valid() && 0x100 % t.cols == 0 && SeedOf(t, a, start, m, seed)
    requires n > 0 && elapsed + wait == n * c && guardTime <= wait < guardTime + c
    ensures Meets(t, a, start, m, elapsed, c, guardTime, Prediction(wait, U8(seed + n - 1)))
  {
    hide Channel, WakeChannel, U8;
    DivMod(elapsed + wait, n, 0, c);
    PlaceAhead(t, a, start, m, n, seed, U8(seed + n - 1));
  }

  /** The prediction of mcphase_wait when the cycle is a power of two, for unbounded elapsed time: it is
      right unless the elapsed time is an exact number of cycles. */
  lemma PredictsWakeUp(t: HopTable, a: nat, start: nat, m: nat, seed: nat, sync: nat, elapsed: nat, k: nat,
                       guardTime: nat)
    requires t.Valid() && 0x100 % t.cols == 0 && SeedOf(t, a, start, m, seed)
    requires k <= 24 && guardTime <= Pow2(k) && elapsed % Pow2(k) != 0
    ensures Meets(t, a, start, m, elapsed, Pow2(k), guardTime,
      Predict(U32(sync), U32(sync + elapsed), Pow2(k), guardTime, seed))
  {
    hide *;
    var c := Pow2(k);
    var p := Predict(U32(sync), U32(sync + elapsed), c, guardTime, seed);
    PredictValue(sync, elapsed, k, guardTime, seed);
    var more := if c - elapsed % c < guardTime then 2 else 1;
    var n := elapsed / c + more;
    Ahead(elapsed, c, more);
    MeetsAhead(t, a, start, m, elapsed, c, guardTime, seed, n, p.wait);
  }

  /** On an exact number of cycles the prediction is one hop ahead. */
  lemma OneHopAhead(t: HopTable, a: nat, start: nat, m: nat, seed: nat, sync: nat, elapsed: nat, k: nat, guardTime: nat)
    requires t.Valid() && 0x100 % t.cols == 0 && SeedOf(t, a, start, m, seed)
    requires k <= 24 && guardTime <= Pow2(k) && elapsed % Pow2(k) == 0
    ensures var p := Predict(U32(sync), U32(sync + elapsed), Pow2(k), guardTime, seed);
      && guardTime <= p.wait < guardTime + Pow2(k) && (elapsed + p.wait) % Pow2(k) == 0
      && Channel(t, a, p.channel) == WakeChannel(t, a, start, m + (elapsed + p.wait) / Pow2(k) + 1)
  {
    hide *;
    var c := Pow2(k);
    PredictValue(sync, elapsed, k, guardTime, seed);
    var more := if 0 < guardTime then 1 else 0;
    var n := elapsed / c + more;
    Ahead(elapsed, c, more);
    DivMod(if 0 < guardTime then elapsed + c else elapsed, n, 0, c);
    PlaceAhead(t, a, start, m, n + 1, seed, U8(seed + n));
  }

  /** Consecutive wake-ups are on different channels. */
  lemma HopsApart(t: HopTable, a: nat, start: nat, j: nat)
    requires t.Valid() && 0x100 % t.cols == 0 && t.cols > 1 && DistinctRow(t, a)
    ensures WakeChannel(t, a, start, j) != WakeChannel(t, a, start, j + 1)
  {
    hide Channel, U8;
    HopsWrap(start + j, t.cols);
    HopsWrap(start + j + 1, t.cols);
    PlacesApart(start + j, t.cols);
    SamePlace(t, a, (start + j) % t.cols, U8(start + j));
    SamePlace(t, a, (start + j + 1) % t.cols, U8(start + j + 1));
  }

  lemma PlacesApart(x: nat, c: nat)
    requires c > 1
    ensures x % c != (x + 1) % c
    ensures x % c % c == x % c && (x + 1) % c % c == (x + 1) % c
  {
    var q, r := x / c, x % c;
    assert x == q * c + r;
    if r + 1 < c {
      DivMod(x + 1, q, r + 1, c);
    } else {
      Regroup(1, q, 1, c);
      DivMod(x + 1, q + 1, 0, c);
    }
    DivMod(r, 0, r, c);
    DivMod((x + 1) % c, 0, (x + 1) % c, c);
  }

  /** So the prediction is right exactly when the elapsed time is no whole number of cycles, except for a
      table of one column. */
  lemma PredictsExactly(t: HopTable, a: nat, start: nat, m: nat, seed: nat, sync: nat, elapsed: nat, k: nat,
                        guardTime: nat)
    requires t.Valid() && 0x100 % t.cols == 0 && SeedOf(t, a, start, m, seed) && DistinctRow(t, a)
    requires k <= 24 && guardTime <= Pow2(k)
    ensures Meets(t, a, start, m, elapsed, Pow2(k), guardTime,
      Predict(U32(sync), U32(sync + elapsed), Pow2(k), guardTime, seed))
      <==> (elapsed % Pow2(k) != 0 || t.cols == 1)
  {
    hide Pow2, Predict, U8, U32, SeedOf, Channel, WakeChannel;
    if elapsed % Pow2(k) != 0 {
      PredictsWakeUp(t, a, start, m, seed, sync, elapsed, k, guardTime);
    } else {
      OneHopAhead(t, a, start, m, seed, sync, elapsed, k, guardTime);
      var p := Predict(U32(sync), U32(sync + elapsed), Pow2(k), guardTime, seed);
      var j := m + (elapsed + p.wait) / Pow2(k);
      if t.cols > 1 {
        HopsApart(t, a, start, j);
      } else {
        OneColumn(t, a, start, j);
      }
    }
  }

  lemma OneColumn(t: HopTable, a: nat, start: nat, j: nat)
    requires t.Valid() && t.cols == 1
    ensures WakeChannel(t, a, start, j) == WakeChannel(t, a, start, j + 1)
  {
    SamePlace(t, a, U8(start + j), U8(start + j + 1));
  }

  /** The other branch of mcphase_wait, for cycles that are no power of two: right for every elapsed time,
      whole cycles included, until the 32-bit clock comes round. */
  lemma PredictsAnyCycle(t: HopTable, a: nat, start: nat, m: nat, seed: nat, sync: nat, elapsed: nat, c: pos,
                         guardTime: nat)
    requires t.Valid() && 0x100 % t.cols == 0 && SeedOf(t, a, start, m, seed)
    requires (forall k: nat :: c != Pow2(k)) && c < 0x8000_0000 && 0 < guardTime <= c && elapsed < 0x1_0000_0000
    ensures Meets(t, a, start, m, elapsed, c, guardTime, Predict(U32(sync), U32(sync + elapsed), c, guardTime, seed))
  {
    hide *;
    var rem := elapsed % c;
    var more := if c - rem < guardTime then 2 else 1;
    AnyCycleValue(sync, elapsed, c, guardTime, seed);
    Ahead(elapsed, c, more);
    MeetsAhead(t, a, start, m, elapsed, c, guardTime, seed, elapsed / c + more, more * c - rem);
  }

  lemma AnyCycleValue(sync: nat, elapsed: nat, c: pos, guardTime: nat, seed: nat)
    requires (forall k: nat :: c != Pow2(k)) && c < 0x8000_0000 && 0 < guardTime <= c && elapsed < 0x1_0000_0000
    ensures var q, rem := elapsed / c, elapsed % c;
      Predict(U32(sync), U32(sync + elapsed), c, guardTime, seed) ==
        if c - rem < guardTime then Prediction(2 * c - rem, U8(seed + q + 1)) else Prediction(c - rem, U8(seed + q))
  {
    hide U8, U32, And, Pow2;
    PowerTest(c);
    Elapsed32(sync, elapsed);
    SmallU32(elapsed);
    var q, rem := elapsed / c, elapsed % c;
    AddU8(seed, q);
    AddU8(1, q);
    AddU8(seed, q + 1);
    SmallU32(2 * c - rem);
  }

  /** After an acknowledgement receiver_channel_index finds the place of the wake-up. */
  lemma SeedFromChannel(t: HopTable, a: nat, start: nat, m: nat)
    requires t.Valid() && DistinctRow(t, a)
    ensures var i := U8(start + m) % t.cols;
      Channel(t, a, i) == WakeChannel(t, a, start, m)
      && forall k | 0 <= k < i :: Channel(t, a, k) != WakeChannel(t, a, start, m)
  {
    hide U8, Channel;
    var u := U8(start + m);
    var i := u % t.cols;
    DivMod(i, 0, i, t.cols);
    SamePlace(t, a, i, u);
  }

  /** When the number of columns does not divide 256, the prediction fails as soon as the receiver's counter
      wraps: after wake-up 255 it is back at the start of its row. */
  lemma PredictionBreaks(t: HopTable, a: nat, seed: nat, sync: nat, k: nat, elapsed: nat)
    requires t.Valid() && 1 < t.cols < 0x100 && 0x100 % t.cols != 0 && DistinctRow(t, a)
    requires 0 < k <= 24 && 0 < elapsed < Pow2(k) && SeedOf(t, a, 255, 0, seed)
    ensures !Meets(t, a, 255, 0, elapsed, Pow2(k), 0, Predict(U32(sync), U32(sync + elapsed), Pow2(k), 0, seed))
  {
    hide Pow2, Predict, U32, U8, Channel;
    var c := Pow2(k);
    PredictValue(sync, elapsed, k, 0, seed);
    DivMod(elapsed, 0, elapsed, c);
    DivMod(c, 1, 0, c);
    Bytes255(seed);
    PlaceBehind255(t.cols);
    SamePlace(t, a, U8(seed), 0x100 % t.cols);
    assert Channel(t, a, 0) != Channel(t, a, 0x100 % t.cols);
  }

  lemma Bytes255(seed: nat)
    ensures U8(255 + 0) == 255 && U8(255 + 0 + 1) == 0 && (seed < 0x100 ==> U8(seed + 0) == U8(seed) == seed)
  {}

  lemma PlaceBehind255(c: nat)
    requires 1 < c < 0x100
    ensures (255 % c + 1) % c == 0x100 % c && 0x100 % c % c == 0x100 % c && 255 % c + 1 < 0x100
  {
    var q := 255 / c;
    assert 255 == q * c + 255 % c;
    ModShift(256, q, c);
    DivMod(0x100 % c, 0, 0x100 % c, c);
  }
}
