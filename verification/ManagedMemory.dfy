/** The compacting allocator (mmem.c): blocks in one array, found through structures that are kept on a list. */
module ManagedMemory {
  import opened Numbers
  import opened Lists

  /** The fields of struct mmem besides its link; a pointer into the memory is an index. */
  datatype Block = Block(ptr: nat, size: nat)

  type Handle = Node<Block>

  ghost function Sizes(bs: seq<Block>): nat {
    if bs == [] then 0 else bs[0].size + Sizes(bs[1..])
  }

  /** The blocks lie one behind the other from `at` on. */
  ghost predicate Tiles(bs: seq<Block>, at: nat) {
    bs == [] || (bs[0].ptr == at && Tiles(bs[1..], at + bs[0].size))
  }

  /** A block moved down by d. */
  function Lower(b: Block, d: nat): Block {
    Block(if b.ptr >= d then b.ptr - d else 0, b.size)
  }

  ghost function Lowered(bs: seq<Block>, d: nat): seq<Block> {
    seq(|bs|, i requires 0 <= i < |bs| => Lower(bs[i], d))
  }

  lemma {:induction false} SizesJoin(a: seq<Block>, b: seq<Block>)
    ensures Sizes(a + b) == Sizes(a) + Sizes(b)
  {
    if a == [] {
      assert a + b == b;
    } else {
      assert (a + b)[0] == a[0] && (a + b)[1..] == a[1..] + b;
      SizesJoin(a[1..], b);
    }
  }

  lemma {:induction false} TilesJoin(a: seq<Block>, b: seq<Block>, at: nat)
    ensures Tiles(a + b, at) <==> Tiles(a, at) && Tiles(b, at + Sizes(a))
    decreases |a|
  {
    if a == [] {
      assert a + b == b;
    } else {
      assert (a + b)[0] == a[0] && (a + b)[1..] == a[1..] + b;
      TilesJoin(a[1..], b, at + a[0].size);
    }
  }

  /** Where the blocks of a tiling lie. */
  lemma {:induction false} TilesAt(bs: seq<Block>, at: nat, i: nat)
    requires Tiles(bs, at) && i < |bs|
    ensures at <= bs[i].ptr && bs[i].ptr + bs[i].size <= at + Sizes(bs)
    ensures bs[i].ptr == at + Sizes(bs[..i])
    decreases |bs|
  {
    if i == 0 {
      assert bs[..0] == [];
    } else {
      TilesAt(bs[1..], at + bs[0].size, i - 1);
      assert bs[..i][0] == bs[0] && bs[..i][1..] == bs[1..][..i - 1];
    }
  }

  lemma {:induction false} TilesLowered(bs: seq<Block>, at: nat, d: nat)
    requires Tiles(bs, at) && d <= at
    ensures Tiles(Lowered(bs, d), at - d) && Sizes(Lowered(bs, d)) == Sizes(bs)
    decreases |bs|
  {
    if bs != [] {
      TilesLowered(bs[1..], at + bs[0].size, d);
      assert Lowered(bs, d)[1..] == Lowered(bs[1..], d);
    }
  }

  /** The blocks without the k-th, when those behind it are moved down to close the gap. */
  ghost function Closed(bs: seq<Block>, k: nat): seq<Block>
    requires k < |bs|
  {
    bs[..k] + Lowered(bs[k + 1..], bs[k].size)
  }

  lemma ClosedTiles(bs: seq<Block>, k: nat)
    requires k < |bs| && Tiles(bs, 0)
    ensures Tiles(Closed(bs, k), 0) && Sizes(Closed(bs, k)) + bs[k].size == Sizes(bs)
  {
    assert bs == bs[..k] + ([bs[k]] + bs[k + 1..]);
    hide Tiles, Sizes, Lowered;
    CloseGap(bs[..k], bs[k], bs[k + 1..]);
  }

  lemma CloseGap(a: seq<Block>, b: Block, rest: seq<Block>)
    requires Tiles(a + ([b] + rest), 0)
    ensures Tiles(a + Lowered(rest, b.size), 0)
    ensures Sizes(a + Lowered(rest, b.size)) + b.size == Sizes(a + ([b] + rest))
  {
    OneBlock(b, Sizes(a));
    hide Tiles, Sizes, Lowered;
    SizesJoin(a, [b] + rest);
    SizesJoin([b], rest);
    TilesJoin(a, [b] + rest, 0);
    TilesJoin([b], rest, Sizes(a));
    TilesLowered(rest, Sizes(a) + b.size, b.size);
    TilesJoin(a, Lowered(rest, b.size), 0);
    SizesJoin(a, Lowered(rest, b.size));
  }

  lemma OneBlock(b: Block, at: nat)
    ensures Sizes([b]) == b.size && (Tiles([b], at) <==> b.ptr == at)
  {
    assert [b][1..] == [];
  }

  /** Blocks before the k-th lie below it, those after it behind it. */
  lemma Around(bs: seq<Block>, k: nat, i: nat)
    requires k < |bs| && i < |bs| && Tiles(bs, 0)
    ensures i < k ==> bs[i].ptr + bs[i].size <= bs[k].ptr
    ensures i > k ==> bs[k].ptr + bs[k].size <= bs[i].ptr
    ensures i == k + 1 ==> bs[k].ptr + bs[k].size == bs[i].ptr
  {
    TilesAt(bs, 0, k);
    TilesAt(bs, 0, i);
    if i < k { PrefixSizes(bs, i, k); }
    if i > k { PrefixSizes(bs, k, i); }
  }

  lemma {:induction false} PrefixSizes(bs: seq<Block>, k: nat, i: nat)
    requires k < i <= |bs|
    ensures Sizes(bs[..k]) + bs[k].size <= Sizes(bs[..i])
    ensures i == k + 1 ==> Sizes(bs[..k]) + bs[k].size == Sizes(bs[..i])
  {
    var one := [bs[k]];
    assert one[1..] == [];
    assert bs[..i] == bs[..k] + (one + bs[k + 1..i]);
    SizesJoin(bs[..k], one + bs[k + 1..i]);
    SizesJoin(one, bs[k + 1..i]);
  }

  function Bytes(mem: seq<byte>, b: Block): seq<byte>
    requires b.ptr + b.size <= |mem|
  {
    mem[b.ptr..b.ptr + b.size]
  }

  /** Moving all that lies behind the k-th block down by its size. */
  ghost function Shifted(mem: seq<byte>, b: Block, used: nat): seq<byte>
    requires b.ptr + b.size <= used <= |mem|
  {
    mem[..b.ptr] + mem[b.ptr + b.size..used] + mem[used - b.size..]
  }

  lemma ShiftKeeps(mem: seq<byte>, bs: seq<Block>, k: nat, i: nat)
    requires k < |bs| && i < |bs| && i != k && Tiles(bs, 0) && Sizes(bs) <= |mem|
    ensures bs[k].ptr + bs[k].size <= Sizes(bs) && bs[i].ptr + bs[i].size <= Sizes(bs)
    ensures var b := if i < k then bs[i] else Lower(bs[i], bs[k].size);
      && b.ptr + b.size <= |mem|
      && Bytes(Shifted(mem, bs[k], Sizes(bs)), b) == Bytes(mem, bs[i])
  {
    hide Tiles, Sizes, Shifted, Bytes;
    TilesAt(bs, 0, k);
    TilesAt(bs, 0, i);
    Around(bs, k, i);
    ShiftedAt(mem, bs[k], Sizes(bs), bs[i]);
  }

  lemma ShiftedAt(mem: seq<byte>, b: Block, used: nat, o: Block)
    requires b.ptr + b.size <= used <= |mem| && o.ptr + o.size <= used
    requires o.ptr + o.size <= b.ptr || b.ptr + b.size <= o.ptr
    ensures |Shifted(mem, b, used)| == |mem|
    ensures o.ptr + o.size <= b.ptr ==> Bytes(Shifted(mem, b, used), o) == Bytes(mem, o)
    ensures b.ptr + b.size <= o.ptr ==> Bytes(Shifted(mem, b, used), Lower(o, b.size)) == Bytes(mem, o)
  {
    var after := Shifted(mem, b, used);
    if o.ptr + o.size <= b.ptr {
      assert forall j :: 0 <= j < o.size ==> Bytes(after, o)[j] == Bytes(mem, o)[j];
    }
    if b.ptr + b.size <= o.ptr {
      var o', d := Lower(o, b.size), b.size;
      forall j | 0 <= j < o.size ensures Bytes(after, o')[j] == Bytes(mem, o)[j] {
        assert after[o'.ptr + j] == mem[b.ptr + d..used][o'.ptr + j - b.ptr];
      }
    }
  }

  lemma ShiftedIs(mem: seq<byte>, b: Block, used: nat)
    requires b.ptr + b.size <= used <= |mem|
    ensures Shifted(mem, b, used) == mem[..b.ptr] + mem[b.ptr + b.size..used] + mem[used - b.size..]
  {}

  /** Nothing moves when the last block goes. */
  lemma EndShift(mem: seq<byte>, b: Block, used: nat)
    requires b.ptr + b.size <= used <= |mem|
    ensures b.ptr + b.size == used ==> Shifted(mem, b, used) == mem
  {}

  lemma LastEnds(bs: seq<Block>)
    requires Tiles(bs, 0)
    ensures bs != [] ==> bs[|bs| - 1].ptr + bs[|bs| - 1].size == Sizes(bs)
  {
    if bs != [] {
      TilesAt(bs, 0, |bs| - 1);
      PrefixSizes(bs, |bs| - 1, |bs|);
      assert bs[..|bs|] == bs;
    }
  }

  lemma ClosedIs(bs: seq<Block>, k: nat, after: seq<Block>)
    requires k < |bs| && |after| == |bs| - 1
    requires forall i :: 0 <= i < k ==> after[i] == bs[i]
    requires forall i :: k <= i < |after| ==> after[i] == Lower(bs[i + 1], bs[k].size)
    ensures after == Closed(bs, k)
  {
    var low := Lowered(bs[k + 1..], bs[k].size);
    assert |bs[..k] + low| == |after|;
    assert forall i :: 0 <= i < k ==> after[i] == (bs[..k] + low)[i];
    assert forall i :: k <= i < |after| ==> after[i] == (bs[..k] + low)[i] by {
      forall i | k <= i < |after| ensures after[i] == (bs[..k] + low)[i] {
        assert bs[k + 1..][i - k] == bs[i + 1];
        assert (bs[..k] + low)[i] == low[i - k];
      }
    }
    assert after == bs[..k] + low;
  }

  class Memory {
    const list: List<Block>
    const memory: array<byte>
    var avail: nat

    ghost function Blocks(): seq<Block>
      reads list, list.nodes
    {
      seq(|list.nodes|, i requires 0 <= i < |list.nodes| reads list, list.nodes => list.nodes[i].data)
    }

    /** The live blocks tile the memory up to the space that is available. */
    ghost predicate Valid()
      reads this, list, list.nodes
    {
      list.Valid() && Tiles(Blocks(), 0) && Sizes(Blocks()) + avail == memory.Length
    }

    /** What a live block holds. */
    ghost function Contents(m: Handle): seq<byte>
      reads this, list, list.nodes, memory, m
      requires Valid() && m in list.nodes
    {
      ghost var i :| 0 <= i < |list.nodes| && list.nodes[i] == m;
      TilesAt(Blocks(), 0, i);
      Bytes(memory[..], m.data)
    }

    /** mmem_init */
    constructor (size: nat)
      ensures Valid() && list.nodes == [] && memory.Length == size
      ensures fresh(list) && fresh(memory)
    {
      list := new List<Block>();
      memory := new byte[size](_ => 0);
      avail := size;
    }

    /** mmem_alloc succeeds exactly if all the live blocks leave room, however they came and went. */
    method Alloc(m: Handle, size: nat) returns (ok: bool)
      requires Valid() && m !in list.nodes
      modifies this, list, list.nodes, m
      ensures Valid()
      ensures ok <==> size + Sizes(old(Blocks())) <= memory.Length
      ensures !ok ==> list.nodes == old(list.nodes)
      ensures ok ==> list.nodes == old(list.nodes) + [m] && m.data.size == size
      ensures forall n :: n in old(list.nodes) ==>
        n in list.nodes && n.data == old(n.data) && Contents(n) == old(Contents(n))
    {
      if avail < size {
        return false;
      }
      ghost var before := Blocks();
      WithoutAbsent(list.nodes, m);
      list.Add(m);
      m.data := Block(memory.Length - avail, size);
      avail := avail - size;
      assert Blocks() == before + [m.data];
      TilesJoin(before, [m.data], 0);
      SizesJoin(before, [m.data]);
      assert [m.data][1..] == [];
      return true;
    }

    /** memmove within the memory, to a lower place. */
    method MoveDown(to: nat, from: nat, len: nat)
      requires to <= from && from + len <= memory.Length
      modifies memory
      ensures memory[..] == old(memory[..])[..to] + old(memory[..])[from..from + len] + old(memory[..])[to + len..]
    {
      ghost var mem := memory[..];
      forall i | 0 <= i < len { memory[to + i] := memory[from + i]; }
      assert memory[..to] == mem[..to] && memory[to..to + len] == mem[from..from + len]
        && memory[to + len..] == mem[to + len..];
      assert memory[..] == memory[..to] + memory[to..to + len] + memory[to + len..];
    }

    /** The loop that moves the pointers of all the blocks behind m down by the size of m. */
    method LowerBehind(m: Handle, ghost k: nat)
      requires Valid() && k < |list.nodes| && list.nodes[k] == m
      modifies list.nodes
      ensures list.Valid()
      ensures forall i :: 0 <= i < |list.nodes| ==>
        list.nodes[i].data == if i <= k then old(list.nodes[i].data) else Lower(old(list.nodes[i].data), m.data.size)
    {
      ghost var bs, d := Blocks(), m.data.size;
      ghost var j := k + 1;
      forall i | k < i < |bs| ensures bs[i].ptr >= d {
        Around(bs, k, i);
      }
      var n := m.next;
      while n != null
        invariant k < j <= |bs| && n == list.At(j) && list.Valid() && m.data.size == d
        invariant forall i :: 0 <= i < |bs| ==>
          list.nodes[i].data == if i <= k || i >= j then bs[i] else Lower(bs[i], d)
        decreases |bs| - j
      {
        n.data := n.data.(ptr := n.data.ptr - m.data.size);
        n := n.next;
        j := j + 1;
      }
    }

    /** The part of mmem_free that closes the gap behind the k-th block. */
    method Compact(m: Handle, ghost k: nat)
      requires Valid() && k < |list.nodes| && list.nodes[k] == m
      modifies list.nodes, memory
      ensures list.Valid()
      ensures forall i :: 0 <= i < |list.nodes| ==>
        list.nodes[i].data == if i <= k then old(list.nodes[i].data) else Lower(old(list.nodes[i].data), m.data.size)
      ensures m.data.ptr + m.data.size <= memory.Length - avail
      ensures memory[..] == Shifted(old(memory[..]), m.data, memory.Length - avail)
    {
      hide *;
      LiesSo(m, k);
      ghost var mem, used := memory[..], memory.Length - avail;
      EndShift(mem, m.data, used);
      ShiftedIs(mem, m.data, used);
      if m.next != null {
        MoveDown(m.data.ptr, m.next.data.ptr, memory.Length - avail - m.next.data.ptr);
        LowerBehind(m, k);
      }
    }

    lemma LiesSo(m: Handle, k: nat)
      requires Valid() && k < |list.nodes| && list.nodes[k] == m
      ensures list.Valid() && avail <= memory.Length && m.data.ptr + m.data.size <= memory.Length - avail
      ensures m.next == null ==> k == |list.nodes| - 1 && m.data.ptr + m.data.size == memory.Length - avail
      ensures m.next != null ==>
        && k + 1 < |list.nodes| && m.next == list.nodes[k + 1] && m.next.data.ptr == m.data.ptr + m.data.size
        && m.next.data.ptr <= memory.Length - avail
    {
      var bs := Blocks();
      hide Tiles, Sizes;
      TilesAt(bs, 0, k);
      LastEnds(bs);
      if k + 1 < |bs| {
        Around(bs, k, k + 1);
        TilesAt(bs, 0, k + 1);
      }
    }

    /** The end of mmem_free. */
    method Unlist(m: Handle, ghost bs: seq<Block>, ghost k: nat)
      requires list.Valid() && |list.nodes| == |bs| && k < |bs| && list.nodes[k] == m && m.data == bs[k]
      requires Tiles(bs, 0) && Sizes(bs) + avail == memory.Length
      requires forall i :: 0 <= i < |bs| ==> list.nodes[i].data == if i <= k then bs[i] else Lower(bs[i], bs[k].size)
      modifies this, list, list.nodes
      ensures Valid() && list.nodes == Without(old(list.nodes), m)
      ensures avail == old(avail) + m.data.size
      ensures forall n :: n in old(list.nodes) ==> n.data == old(n.data) && (n != m ==> n in list.nodes)
    {
      ghost var nodes := list.nodes;
      hide Tiles, Sizes, Without, Closed, Lower;
      avail := avail + m.data.size;
      WithoutAt(nodes, m, k);
      list.Remove(m);
      ClosedIs(bs, k, Blocks());
      ClosedTiles(bs, k);
    }

    /** mmem_free closes the gap: the other blocks keep their order and their contents. */
    method Free(m: Handle)
      requires Valid() && m in list.nodes
      modifies this, list, list.nodes, memory
      ensures Valid() && list.nodes == Without(old(list.nodes), m)
      ensures avail == old(avail) + m.data.size && m.data == old(m.data)
      ensures forall n :: n in old(list.nodes) && n != m ==>
        && n in list.nodes && n.data.size == old(n.data.size) && Contents(n) == old(Contents(n))
    {
      hide *;
      BlocksAre();
      ghost var nodes, bs, mem := list.nodes, Blocks(), memory[..];
      ghost var k :| 0 <= k < |nodes| && nodes[k] == m;
      forall n | n in nodes
        ensures n.data.ptr + n.data.size <= memory.Length && Contents(n) == Bytes(mem, n.data)
      {
        ContentsAre(n);
      }
      Compact(m, k);
      Unlist(m, bs, k);
      forall n | n in nodes && n != m
        ensures n in list.nodes && n.data.size == old(n.data.size) && Contents(n) == old(Contents(n))
      {
        ghost var i :| 0 <= i < |nodes| && nodes[i] == n;
        LowerSize(bs[i], m.data.size);
        ShiftKeeps(mem, bs, k, i);
        ContentsAre(n);
      }
    }

    lemma BlocksAre()
      requires Valid()
      ensures |Blocks()| == |list.nodes| && forall i :: 0 <= i < |list.nodes| ==> Blocks()[i] == list.nodes[i].data
      ensures list.Valid() && Tiles(Blocks(), 0) && Sizes(Blocks()) + avail == memory.Length
    {}

    lemma ContentsAre(n: Handle)
      requires Valid() && n in list.nodes
      ensures n.data.ptr + n.data.size <= memory.Length && Contents(n) == Bytes(memory[..], n.data)
    {
      var i :| 0 <= i < |list.nodes| && list.nodes[i] == n;
      TilesAt(Blocks(), 0, i);
    }
  }

  lemma LowerSize(b: Block, d: nat)
    ensures Lower(b, d).size == b.size
  {}
}
