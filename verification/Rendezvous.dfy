/** Meeting a receiver whose phase is unknown: the strobe window of send_packet (mccontikimac.c). */
module Rendezvous {
  import opened Numbers
  import opened Bits
  import opened Channels

  /** STROBE_TIME */
  function StrobeTime(cycle: nat, checkTime: nat): nat {
    cycle + 2 * checkTime
  }

  /** Wake-up j happens at first + j * cycle. Within the window that starts at t1 there is one on the channel. */
  ghost predicate Met(t: HopTable, a: nat, start: nat, first: nat, cycle: pos, t1: nat, window: nat, channel: nat)
    requires t.Valid()
  {
    exists j: nat :: t1 <= first + j * cycle < t1 + window && WakeChannel(t, a, start, j) == channel
  }

  ghost predicate InRow(t: HopTable, a: nat, channel: nat)
    requires t.Valid()
  {
    exists j :: 0 <= j < t.cols && Channel(t, a, j) == channel
  }

  /** The rows of the table hold the same channels. */
  ghost predicate SameChannels(t: HopTable)
    requires t.Valid()
  {
    forall a: nat, b: nat, channel: nat :: InRow(t, a, channel) ==> InRow(t, b, channel)
  }

  /** The first wake-up at or after t1. */
  function NextWake(first: nat, cycle: pos, t1: nat): (j: nat)
    requires first <= t1
    ensures t1 <= first + j * cycle < t1 + cycle
  {
    var d := t1 - first;
    var j := (d + cycle - 1) / cycle;
    assert d + cycle - 1 == j * cycle + (d + cycle - 1) % cycle;
    j
  }

  /** Among cols wake-ups in a row one is at any given place. */
  lemma PlaceComes(start: nat, cols: nat, j0: nat, place: nat) returns (j: nat)
    requires cols > 0 && 0x100 % cols == 0 && place < cols
    ensures j0 <= j < j0 + cols && U8(start + j) % cols == place
  {
    var r := (start + j0) % cols;
    var q := (start + j0) / cols;
    assert start + j0 == q * cols + r;
    if r <= place {
      j := j0 + place - r;
      DivMod(start + j, q, place, cols);
    } else {
      j := j0 + cols + place - r;
      Regroup(1, q, 1, cols);
      DivMod(start + j, q + 1, place, cols);
    }
    HopsWrap(start + j, cols);
  }

  /** Strobing on any channel of the receiver's row for as many strobe times as there are columns covers a
      wake-up of the receiver on that channel, whatever its phase and its place in the row. */
  lemma AlwaysMet(t: HopTable, a: nat, start: nat, first: nat, cycle: pos, checkTime: nat, t1: nat, place: nat)
    requires t.Valid() && 0x100 % t.cols == 0 && first <= t1 && place < t.cols
    ensures Met(t, a, start, first, cycle, t1, t.cols * StrobeTime(cycle, checkTime), Channel(t, a, place))
  {
    hide Channel, U8;
    var j0 := NextWake(first, cycle, t1);
    var j := PlaceComes(start, t.cols, j0, place);
    MulMono(j, j0 + (t.cols - 1), cycle);
    Regroup(1, j0, t.cols - 1, cycle);
    Regroup(1, 0, j0, cycle);
    WindowCovers(t.cols, cycle, checkTime);
    MulMono(j0, j, cycle);
    DivMod(place, 0, place, t.cols);
    SamePlace(t, a, U8(start + j), place);
    assert WakeChannel(t, a, start, j) == Channel(t, a, place);
    assert t1 <= first + j * cycle < t1 + t.cols * StrobeTime(cycle, checkTime);
  }

  lemma WindowCovers(cols: pos, cycle: nat, checkTime: nat)
    ensures (cols - 1) * cycle + cycle <= cols * StrobeTime(cycle, checkTime)
  {
    Regroup(1, cols - 1, 1, cycle);
    assert cols * StrobeTime(cycle, checkTime) == cols * cycle + cols * (2 * checkTime);
  }

  /** A sender strobes on a channel of its own row (HOP_SEND_CHANNEL), which is also one of the receiver's. */
  lemma AnySenderMeets(t: HopTable, sender: nat, index: nat, a: nat, start: nat, first: nat, cycle: pos,
                       checkTime: nat, t1: nat)
    requires t.Valid() && 0x100 % t.cols == 0 && SameChannels(t) && first <= t1
    ensures Met(t, a, start, first, cycle, t1, t.cols * StrobeTime(cycle, checkTime), Channel(t, sender, index))
  {
    hide Channel;
    var i := index % t.cols;
    DivMod(i, 0, i, t.cols);
    SamePlace(t, sender, index, i);
    assert InRow(t, sender, Channel(t, sender, index));
    assert InRow(t, a, Channel(t, sender, index));
    var j :| 0 <= j < t.cols && Channel(t, a, j) == Channel(t, sender, index);
    AlwaysMet(t, a, start, first, cycle, checkTime, t1, j);
  }

  /** When the number of columns does not divide 256 the window can miss the receiver: around the wrap of its
      counter it visits a place twice and skips the last one. */
  lemma SometimesMissed(t: HopTable, a: nat, cycle: pos, checkTime: nat)
    requires t.Valid() && t.cols < 0x100 && 0x100 % t.cols != 0 && DistinctRow(t, a)
    requires t.cols * (2 * checkTime) < cycle
    ensures !Met(t, a, 254, 0, cycle, 1, t.cols * StrobeTime(cycle, checkTime), Channel(t, a, t.cols - 1))
  {
    hide Channel;
    var cols := t.cols;
    assert cols * StrobeTime(cycle, checkTime) == cols * cycle + cols * (2 * checkTime);
    forall j: nat | 1 <= j * cycle < 1 + cols * StrobeTime(cycle, checkTime)
      ensures WakeChannel(t, a, 254, j) != Channel(t, a, cols - 1)
    {
      if j > cols {
        MulMono(cols + 1, j, cycle);
        Regroup(1, cols, 1, cycle);
        assert false;
      }
      MissedPlace(cols, j);
      var place := U8(254 + j) % cols;
      DivMod(place, 0, place, cols);
      SamePlace(t, a, U8(254 + j), place);
    }
  }

  lemma MissedPlace(cols: nat, j: nat)
    requires 0 < cols < 0x100 && 0x100 % cols != 0 && 0 < j <= cols
    ensures U8(254 + j) % cols != cols - 1
  {
    if j == 1 {
      var q := 255 / cols;
      assert 255 == q * cols + 255 % cols;
      if 255 % cols == cols - 1 {
        Regroup(1, q, 1, cols);
        DivMod(0x100, q + 1, 0, cols);
      }
    } else {
      assert U8(254 + j) == j - 2;
      DivMod(j - 2, 0, j - 2, cols);
    }
  }

  /** The hop table for four channels, row by row. */
  function Hop4Row(b: nat): (row: seq<nat>)
    ensures |row| == 4
  {
    if b == 0 || b == 3 || b == 7 || b == 11 || b == 15 then [20, 26, 15, 25]
    else if b == 1 || b == 5 || b == 9 || b == 13 then [15, 25, 20, 26]
    else [25, 20, 26, 15]
  }

  function Hop4(): HopTable {
    HopTable(seq(64, n requires 0 <= n < 64 => Hop4Row(n / 4)[n % 4]), 16, 4)
  }

  /** Each of its rows is a permutation of 15, 20, 25 and 26, so any two nodes that use it meet. */
  lemma Hop4SameChannels()
    ensures Hop4().Valid() && SameChannels(Hop4()) && 0x100 % Hop4().cols == 0
  {
    hide Channel, Hop4Row;
    forall a: nat, channel: nat ensures InRow(Hop4(), a, channel) <==> channel in {15, 20, 25, 26} {
      Hop4Channels(a, channel);
    }
  }

  lemma Hop4Channels(a: nat, channel: nat)
    ensures InRow(Hop4(), a, channel) <==> channel in {15, 20, 25, 26}
  {
    hide Channel;
    var row := Hop4Row(a % 16);
    Hop4Place(a, 0);
    Hop4Place(a, 1);
    Hop4Place(a, 2);
    Hop4Place(a, 3);
    assert row == [row[0], row[1], row[2], row[3]];
    if channel in row {
      var i :| 0 <= i < 4 && row[i] == channel;
      assert Channel(Hop4(), a, i) == channel;
    }
  }

  lemma Hop4Place(a: nat, i: nat)
    requires i < 4
    ensures Channel(Hop4(), a, i) == Hop4Row(a % 16)[i]
  {
    hide Hop4Row;
    var n := a % 16 * 4 + i;
    DivMod(n, a % 16, i, 4);
    assert n % 64 == n && i % 4 == i;
  }
}
