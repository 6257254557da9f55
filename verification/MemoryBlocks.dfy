/** Pools of blocks of one size (memb.c): a pool is the array of the counts that tell which blocks are in use. */
module MemoryBlocks {
  ghost predicate AllTaken(count: seq<bool>) {
    forall i :: 0 <= i < |count| ==> count[i]
  }

  ghost function InUse(count: seq<bool>): nat {
    if count == [] then 0 else (if count[0] then 1 else 0) + InUse(count[1..])
  }

  lemma {:induction false} FullExactly(count: seq<bool>)
    ensures InUse(count) <= |count|
    ensures AllTaken(count) <==> InUse(count) == |count|
  {
    if count != [] {
      FullExactly(count[1..]);
      assert AllTaken(count) ==> AllTaken(count[1..]);
      assert forall i :: 1 <= i < |count| ==> count[i] == count[1..][i - 1];
    }
  }

  /** memb_alloc: the first block that is not in use, or -1. */
  method Alloc(count: array<bool>) returns (block: int)
    modifies count
    ensures block == -1 <==> old(AllTaken(count[..]))
    ensures block == -1 ==> unchanged(count)
    ensures block != -1 ==>
      && 0 <= block < count.Length && !old(count[block]) && count[block]
      && forall i :: 0 <= i < count.Length && i != block ==> count[i] == old(count[i])
    ensures forall i :: 0 <= i < block ==> old(count[i])
  {
    var i := 0;
    while i < count.Length
      invariant 0 <= i <= count.Length && forall j :: 0 <= j < i ==> count[j]
    {
      if !count[i] {
        assert !count[..][i];
        count[i] := true;
        return i;
      }
      i := i + 1;
    }
    return -1;
  }

  /** memb_free */
  method Free(count: array<bool>, block: nat)
    requires block < count.Length
    modifies count
    ensures !count[block]
    ensures forall i :: 0 <= i < count.Length && i != block ==> count[i] == old(count[i])
  {
    count[block] := false;
  }
}
