/** Sequences of bytes in a buffer that is used in a cyclic fashion. */
module Cyclic {
  /** The elements from one index up to another. */
  function Slice<T>(buf: seq<T>, from: nat, to: nat): seq<T>
    requires from < |buf| && to < |buf|
  {
    if from <= to then buf[from..to] else buf[from..] + buf[..to]
  }

  function After(i: nat, n: nat): nat { if i + 1 == n then 0 else i + 1 }

  /** How far it is from one index to another. */
  function Distance(from: nat, to: nat, n: nat): int {
    if from <= to then to - from else n - from + to
  }

  lemma SliceLength<T>(buf: seq<T>, from: nat, to: nat)
    requires from < |buf| && to < |buf|
    ensures |Slice(buf, from, to)| == Distance(from, to, |buf|)
  {}

  /** A write at the end of a slice leaves it alone; once the end moves on, the slice has grown by it. */
  lemma SliceEnd<T>(buf: seq<T>, from: nat, to: nat, c: T)
    requires from < |buf| && to < |buf|
    ensures Slice(buf[to := c], from, to) == Slice(buf, from, to)
    ensures After(to, |buf|) != from ==> Slice(buf, from, After(to, |buf|)) == Slice(buf, from, to) + [buf[to]]
  {}

  /** The first element, and what is left without it. */
  lemma SliceStart<T>(buf: seq<T>, from: nat, to: nat)
    requires from < |buf| && to < |buf| && from != to
    ensures Slice(buf, from, to) == [buf[from]] + Slice(buf, After(from, |buf|), to)
  {}

  lemma StraightSlice<T>(buf: seq<T>, from: nat, to: nat)
    requires from <= to < |buf|
    ensures Slice(buf, from, to) == buf[from..to]
  {}
}
