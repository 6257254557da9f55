/** Singly linked lists whose links are inside their elements (list.c). */
module Lists {
  /** An element: its link, which struct list declares, and the rest of its fields. */
  class Node<T> {
    var next: Node?<T>
    var data: T

    constructor (data: T)
      ensures this.data == data && next == null
    {
      this.data := data;
      next := null;
    }
  }

  function Without<T(==)>(s: seq<T>, x: T): seq<T> {
    if s == [] then [] else if s[0] == x then s[1..] else [s[0]] + Without(s[1..], x)
  }

  ghost predicate Distinct<T>(s: seq<T>) {
    forall i, j :: 0 <= i < j < |s| ==> s[i] != s[j]
  }

  lemma {:induction false} WithoutAt<T>(s: seq<T>, x: T, i: nat)
    requires i < |s| && s[i] == x && x !in s[..i]
    ensures Without(s, x) == s[..i] + s[i + 1..]
  {
    if i > 0 {
      assert s[0] == s[..i][0];
      assert s[1..][..i - 1] == s[..i][1..];
      WithoutAt(s[1..], x, i - 1);
      assert s[1..][..i - 1] == s[1..i] && s[1..][i..] == s[i + 1..];
      assert [s[0]] + s[1..i] == s[..i];
    }
  }

  lemma {:induction false} WithoutAbsent<T>(s: seq<T>, x: T)
    requires x !in s
    ensures Without(s, x) == s
  {
    if s != [] { WithoutAbsent(s[1..], x); }
  }

  /** The others keep their order, and only x goes. */
  lemma {:induction false} WithoutKeeps<T>(s: seq<T>, x: T)
    requires Distinct(s)
    ensures Distinct(Without(s, x)) && x !in Without(s, x)
    ensures forall y :: y in s && y != x <==> y in Without(s, x)
  {
    if s != [] {
      var t := s[1..];
      assert forall y :: y in s <==> y == s[0] || y in t;
      assert forall y :: y in t ==> y != s[0];
      WithoutKeeps(t, x);
      assert s[0] !in Without(t, x);
    }
  }

  class List<T(==)> {
    var head: Node?<T>
    ghost var nodes: seq<Node<T>>

    ghost predicate Valid()
      reads this, nodes
    {
      Distinct(nodes) && head == At(0) &&
      forall i {:trigger nodes[i].next} :: 0 <= i < |nodes| ==> nodes[i].next == At(i + 1)
    }

    ghost function At(i: nat): Node?<T>
      reads this
    {
      if i < |nodes| then nodes[i] else null
    }

    /** list_init */
    constructor ()
      ensures Valid() && nodes == []
    {
      head := null;
      nodes := [];
    }

    /** list_tail */
    method Tail() returns (last: Node?<T>)
      requires Valid()
      ensures last == if nodes == [] then null else nodes[|nodes| - 1]
    {
      if head == null {
        return null;
      }
      ghost var i := 0;
      last := head;
      while last.next != null
        invariant 0 <= i < |nodes| && last == nodes[i]
        decreases |nodes| - i
      {
        last := last.next;
        i := i + 1;
      }
    }

    /** list_length */
    method Length() returns (n: nat)
      requires Valid()
      ensures n == |nodes|
    {
      n := 0;
      var l := head;
      while l != null
        invariant n <= |nodes| && l == At(n)
        decreases |nodes| - n
      {
        n := n + 1;
        l := l.next;
      }
    }

    /** list_remove */
    method Remove(item: Node<T>)
      requires Valid()
      modifies this, nodes
      ensures Valid() && nodes == Without(old(nodes), item)
      ensures forall n :: n in nodes <==> n in old(nodes) && n != item
      ensures item !in old(nodes) ==> head == old(head) && forall n :: n in old(nodes) ==> n.next == old(n.next)
      ensures item in old(nodes) ==> item.next == null
      ensures forall n :: n in old(nodes) ==> n.data == old(n.data)
    {
      hide Without;
      WithoutKeeps(nodes, item);
      if head == null {
        WithoutAbsent(nodes, item);
        return;
      }
      ghost var i := 0;
      var r: Node?<T> := null;
      var l := head;
      while l != null
        invariant i <= |nodes| && l == At(i) && item !in nodes[..i]
        invariant if i == 0 then r == null else r == nodes[i - 1]
        decreases |nodes| - i
      {
        if l == item {
          WithoutAt(nodes, item, i);
          if r == null {
            head := l.next;
          } else {
            r.next := l.next;
          }
          l.next := null;
          nodes := nodes[..i] + nodes[i + 1..];
          return;
        }
        r := l;
        l := l.next;
        i := i + 1;
      }
      assert nodes[..i] == nodes;
      WithoutAbsent(nodes, item);
    }

    /** list_add: an element already on the list moves to its end. */
    method Add(item: Node<T>)
      requires Valid()
      modifies this, nodes, item
      ensures Valid() && nodes == Without(old(nodes), item) + [item]
      ensures forall n :: n in old(nodes) || n == item ==> n.data == old(n.data)
    {
      hide Without;
      Remove(item);
      item.next := null;
      var l := Tail();
      ghost var before := nodes;
      if l == null {
        head := item;
      } else {
        assert l in nodes;
        l.next := item;
      }
      nodes := before + [item];
      assert forall i :: 0 <= i < |before| ==> nodes[i] == before[i];
    }

    /** list_push */
    method Push(item: Node<T>)
      requires Valid()
      modifies this, nodes, item
      ensures Valid() && nodes == [item] + Without(old(nodes), item)
      ensures forall n :: n in old(nodes) || n == item ==> n.data == old(n.data)
    {
      Remove(item);
      item.next := head;
      head := item;
      ghost var before := nodes;
      nodes := [item] + nodes;
      assert forall i :: 0 <= i < |before| ==> nodes[i + 1] == before[i];
    }

    /** list_pop */
    method Pop() returns (first: Node?<T>)
      requires Valid()
      modifies this
      ensures Valid() && first == old(head)
      ensures nodes == if old(nodes) == [] then [] else old(nodes)[1..]
    {
      first := head;
      if head != null {
        head := head.next;
        nodes := nodes[1..];
      }
    }

    /** list_chop */
    method Chop() returns (last: Node?<T>)
      requires Valid()
      modifies this, nodes
      ensures Valid() && if old(nodes) == [] then last == null && nodes == [] else
        old(nodes) == nodes + [last]
      ensures forall n :: n in old(nodes) ==> n.data == old(n.data)
    {
      if head == null {
        return null;
      }
      if head.next == null {
        last := head;
        head := null;
        nodes := [];
        return;
      }
      ghost var i := 0;
      var l := head;
      while l.next.next != null
        invariant 0 <= i < |nodes| - 1 && l == nodes[i] && l.next == nodes[i + 1]
        decreases |nodes| - i
      {
        l := l.next;
        i := i + 1;
      }
      last := l.next;
      l.next := null;
      nodes := nodes[..i + 1];
    }

    /** list_insert. An item that is on the list already cuts out what is between it and prev, or closes a ring. */
    method Insert(prev: Node?<T>, item: Node<T>)
      requires Valid() && (prev != null ==> prev in nodes)
      modifies this, nodes, item
      ensures prev == null ==> Valid() && nodes == [item] + Without(old(nodes), item)
      ensures prev != null && item !in old(nodes) ==>
        var i := Place(old(nodes), prev);
        Valid() && nodes == old(nodes)[..i + 1] + [item] + old(nodes)[i + 1..]
      ensures prev != null && item in old(nodes) ==>
        var i, j := Place(old(nodes), prev), Place(old(nodes), item);
        if j < i then Valid() && nodes == old(nodes)[..j + 1] + old(nodes)[i + 1..]
        else prev.next == item && Ring([item] + (if j == i then [] else old(nodes)[i + 1..j]))
      ensures forall n :: n in old(nodes) || n == item ==> n.data == old(n.data)
    {
      hide Without, Place, Ring;
      if prev == null {
        Push(item);
        return;
      }
      ghost var was, i := nodes, Place(nodes, prev);
      ghost var j := if item in was then Place(was, item) else |was|;
      item.next := prev.next;
      prev.next := item;
      assert Spliced(was, i, item);
      if item !in was {
        nodes := was[..i + 1] + [item] + was[i + 1..];
        PutIn(was, i, item);
      } else if j < i {
        nodes := was[..j + 1] + was[i + 1..];
        CutOut(was, i, j);
      } else {
        Closes(was, i, j);
      }
    }

    /** What the links are then, of a list that was these elements. */
    ghost predicate Spliced(was: seq<Node<T>>, i: nat, item: Node<T>)
      reads this, was, item
    {
      && i < |was| && Distinct(was) && head == was[0] && was[i].next == item
      && (was[i] != item ==> item.next == NthOf(was, i + 1))
      && forall q: nat | q < |was| && q != i && was[q] != item :: was[q].next == NthOf(was, q + 1)
    }

    static ghost function NthOf(s: seq<Node<T>>, k: nat): Node?<T> { if k < |s| then s[k] else null }

    lemma PutIn(was: seq<Node<T>>, i: nat, item: Node<T>)
      requires Spliced(was, i, item) && item !in was && nodes == was[..i + 1] + [item] + was[i + 1..]
      ensures Valid()
    {
      forall k {:trigger nodes[k].next} | 0 <= k < |nodes| ensures nodes[k].next == At(k + 1) {
        assert nodes[k] == if k <= i then was[k] else if k == i + 1 then item else was[k - 1];
      }
    }

    lemma CutOut(was: seq<Node<T>>, i: nat, j: nat)
      requires j < i < |was| && Spliced(was, i, was[j]) && nodes == was[..j + 1] + was[i + 1..]
      ensures Valid()
    {
      forall k {:trigger nodes[k].next} | 0 <= k < |nodes| ensures nodes[k].next == At(k + 1) {
        assert nodes[k] == was[if k <= j then k else k + (i - j)];
      }
    }

    lemma Closes(was: seq<Node<T>>, i: nat, j: nat)
      requires i <= j < |was| && Spliced(was, i, was[j])
      ensures Ring([was[j]] + (if j == i then [] else was[i + 1..j]))
    {
      var ring := [was[j]] + (if j == i then [] else was[i + 1..j]);
      forall q: nat | q < |ring| ensures ring[q].next == ring[if q + 1 == |ring| then 0 else q + 1] {
        assert ring[q] == was[if q == 0 then j else i + q];
      }
    }
  }

  /** Where an element is for the first time. */
  ghost function Place<T>(s: seq<T>, x: T): (i: nat)
    requires x in s
    ensures i < |s| && s[i] == x && x !in s[..i]
  {
    if s[0] == x then 0
    else
      var i := Place(s[1..], x) + 1;
      assert s[..i][1..] == s[1..][..i - 1];
      i
  }

  /** Following the links from any of these elements never ends. */
  ghost predicate Ring<T>(s: seq<Node<T>>)
    reads s
  {
    s != [] && forall q: nat | q < |s| :: s[q].next == s[if q + 1 == |s| then 0 else q + 1]
  }
}
