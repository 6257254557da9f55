/** Tables that share one set of neighbours, with locks and eviction (nbr_table.c). */
module NeighborTables {
  import opened Wrappers
  import opened MemoryBlocks
  import opened Lists
  import opened NeighborKeys

  /** A call of a table's callback for an item that is going to be taken from it. */
  datatype Call = Call(table: nat, slot: nat)

  /** The calls due when a slot used as `m` says is taken, of the tables below n. */
  ghost function CallsFor(callbacks: seq<bool>, m: bv8, slot: nat, n: nat): seq<Call>
    requires n <= |callbacks| <= MAX_TABLES
  {
    if n == 0 then []
    else CallsFor(callbacks, m, slot, n - 1) + (if callbacks[n - 1] && Has(m, n - 1) then [Call(n - 1, slot)] else [])
  }

  /** Exactly the tables that use the slot and have a callback are called, each once. */
  lemma {:induction false} CallsExactly(callbacks: seq<bool>, m: bv8, slot: nat, n: nat)
    requires n <= |callbacks| <= MAX_TABLES
    ensures Distinct(CallsFor(callbacks, m, slot, n))
    ensures forall c :: c in CallsFor(callbacks, m, slot, n) <==>
      c.slot == slot && c.table < n && callbacks[c.table] && Has(m, c.table)
  {
    hide Has;
    if n > 0 {
      CallsExactly(callbacks, m, slot, n - 1);
      var before, call := CallsFor(callbacks, m, slot, n - 1), Call(n - 1, slot);
      assert call !in before;
      if callbacks[n - 1] && Has(m, n - 1) {
        assert CallsFor(callbacks, m, slot, n) == before + [call];
      } else {
        assert CallsFor(callbacks, m, slot, n) == before;
      }
    }
  }

  lemma CallsForFirst(callbacks: seq<bool>, m: bv8, slot: nat)
    requires |callbacks| <= MAX_TABLES
    ensures CallsFor(callbacks, m, slot, 0) == []
  {}

  lemma CallsForMore(callbacks: seq<bool>, m: bv8, slot: nat, n: nat)
    requires n < |callbacks| <= MAX_TABLES
    ensures CallsFor(callbacks, m, slot, n + 1) ==
      CallsFor(callbacks, m, slot, n) + (if callbacks[n] && Has(m, n) then [Call(n, slot)] else [])
  {}

  ghost predicate Unlocked(ks: seq<Key>, locked: seq<bv8>, p: nat) {
    p < |ks| && ks[p].slot < |locked| && locked[ks[p].slot] == 0
  }

  ghost function Weight(ks: seq<Key>, used: seq<bv8>, p: nat): nat {
    if p < |ks| && ks[p].slot < |used| then |Users(used[ks[p].slot], MAX_TABLES)| else 0
  }

  /** The p-th key is not locked, is used by the fewest tables, and is the oldest of those. */
  ghost predicate IsVictim(ks: seq<Key>, used: seq<bv8>, locked: seq<bv8>, p: nat) {
    Unlocked(ks, locked, p) &&
    forall q: nat :: Unlocked(ks, locked, q) ==>
      && Weight(ks, used, p) <= Weight(ks, used, q)
      && (q < p ==> Weight(ks, used, p) < Weight(ks, used, q))
  }

  /** How a neighbour got its slot. */
  datatype How = Present | Unused | Replacing(victim: nat) | Full

  class Tables {
    const keys: seq<Node<Key>>
    const list: List<Key>
    const taken: array<bool>
    const used: array<bv8>
    const locked: array<bv8>
    var callbacks: seq<bool>
    var called: seq<Call>

    ghost function Keys(): seq<Key>
      reads list, list.nodes
    {
      seq(|list.nodes|, i requires 0 <= i < |list.nodes| reads list, list.nodes => list.nodes[i].data)
    }

    /** The fixed storage. */
    ghost predicate Backed()
      reads this`callbacks, keys
    {
      && |keys| == taken.Length == used.Length == locked.Length
      && used != locked && (taken as object) != used && (taken as object) != locked
      && Distinct(keys) && |callbacks| <= MAX_TABLES
      && forall i {:trigger keys[i]} :: 0 <= i < |keys| ==> keys[i].data.slot == i
    }

    /** The list holds the keys of the slots that are taken, but for one that is just being filled. */
    ghost predicate Linked(hole: int)
      reads this`callbacks, keys, list, list.nodes, taken
    {
      && Backed() && list.Valid() && Proper(Keys(), |keys|)
      && (forall n :: n in list.nodes ==> n.data.slot < |keys| && keys[n.data.slot] == n)
      && forall i {:trigger taken[i]} :: 0 <= i < |keys| ==> (keys[i] in list.nodes <==> taken[i] && i != hole)
    }

    /** Only listed slots are used, and only by registered tables. */
    ghost predicate UsedRight(hole: int)
      reads this`callbacks, taken, used
      requires taken.Length == used.Length
    {
      forall i {:trigger used[i]} :: 0 <= i < used.Length ==>
        && (!taken[i] || i == hole ==> used[i] == 0)
        && forall t: nat :: |callbacks| <= t < MAX_TABLES ==> !Has(used[i], t)
    }

    ghost predicate Valid()
      reads this`callbacks, keys, list, list.nodes, taken, used
    {
      Linked(-1) && UsedRight(-1)
    }

    constructor (max: nat)
      ensures Valid() && Keys() == [] && |keys| == max && callbacks == [] && called == []
      ensures fresh(list) && fresh(taken) && fresh(used) && fresh(locked)
    {
      var l := new List<Key>();
      var made: seq<Node<Key>> := [];
      var i := 0;
      while i < max
        invariant |made| == i <= max && Distinct(made)
        invariant forall j :: 0 <= j < i ==> made[j].data.slot == j
        invariant forall j :: 0 <= j < i ==> fresh(made[j])
        invariant fresh(l) && l.Valid() && l.nodes == []
      {
        var n := new Node<Key>(Key(i, NULL_ADDRESS));
        made := made + [n];
        i := i + 1;
      }
      keys, list := made, l;
      taken := new bool[max](_ => false);
      used := new bv8[max](_ => 0);
      locked := new bv8[max](_ => 0);
      callbacks, called := [], [];
      new;
      NoUsers();
    }

    lemma TablesFit()
      requires Valid()
      ensures |callbacks| <= MAX_TABLES && |Keys()| == |list.nodes| && used != locked
    {}

    /** nbr_table_register */
    method Register(callback: bool) returns (index: int)
      requires Valid()
      modifies this`callbacks
      ensures Valid()
      ensures index == if |old(callbacks)| < MAX_TABLES then |old(callbacks)| else -1
      ensures callbacks == if index >= 0 then old(callbacks) + [callback] else old(callbacks)
    {
      if |callbacks| < MAX_TABLES {
        index := |callbacks|;
        callbacks := callbacks + [callback];
      } else {
        index := -1;
      }
    }

    /** index_from_lladdr */
    method IndexFromAddress(lladdr: Option<Address>) returns (index: int)
      requires Valid()
      ensures index == Lookup(Keys(), lladdr.Or(NULL_ADDRESS))
    {
      var a := lladdr.Or(NULL_ADDRESS);
      ghost var ks, k := Keys(), 0;
      var key := list.head;
      while key != null
        invariant 0 <= k <= |ks| && key == list.At(k)
        invariant forall j :: 0 <= j < k ==> ks[j].addr != a
        decreases |ks| - k
      {
        assert key in list.nodes && ks[k] == key.data;
        if key.data.addr == a {
          LookupFinds(ks, a, k);
          return key.data.slot;
        }
        key := key.next;
        k := k + 1;
      }
      LookupMisses(ks, a);
      return -1;
    }

    /** nbr_table_get_from_lladdr: what an association list of the table's own entries would give. */
    method GetFromAddress(t: nat, lladdr: Option<Address>) returns (item: int)
      requires Valid() && t < |callbacks|
      ensures item == Lookup(Entries(Keys(), used[..], t), lladdr.Or(NULL_ADDRESS))
    {
      item := IndexFromAddress(lladdr);
      LookupEntries(Keys(), used[..], t, lladdr.Or(NULL_ADDRESS));
      if item != -1 && !Has(used[item], t) {
        item := -1;
      }
    }

    /** The loop of nbr_table_allocate that looks for the neighbour to replace. */
    method PickVictim() returns (key: Node?<Key>, ghost p: nat)
      requires Valid()
      ensures key == null ==> forall q: nat :: !Unlocked(Keys(), locked[..], q)
      ensures key != null ==> key == list.At(p) && IsVictim(Keys(), used[..], locked[..], p)
    {
      ghost var ks, us, ls := Keys(), used[..], locked[..];
      hide Users, Has;
      var least := 0;
      key, p := null, 0;
      ghost var k := 0;
      var l := list.head;
      while l != null
        invariant 0 <= k <= |ks| && l == list.At(k)
        invariant key == null ==> forall q: nat :: q < k ==> !Unlocked(ks, ls, q)
        invariant key != null ==> p < k && key == list.At(p) && Unlocked(ks, ls, p) && least == Weight(ks, us, p)
        invariant key != null ==> forall q: nat :: q < k && Unlocked(ks, ls, q) ==>
          least <= Weight(ks, us, q) && (q < p ==> least < Weight(ks, us, q))
        decreases |ks| - k
      {
        assert l in list.nodes && ks[k] == l.data;
        var slot := l.data.slot;
        if locked[slot] == 0 {
          var count := CountUsers(used[slot]);
          if key == null || count < least {
            key, p := l, k;
            least := count;
            if count == 0 {
              break;
            }
          }
        }
        l := l.next;
        k := k + 1;
      }
    }

    /** The loop of nbr_table_allocate that tells the tables. */
    method CallTables(slot: nat)
      requires Valid() && slot < used.Length
      modifies this`called
      ensures called == old(called) + CallsFor(callbacks, used[slot], slot, |callbacks|)
    {
      hide *;
      TablesFit();
      CallsForFirst(callbacks, used[slot], slot);
      var i := 0;
      while i < |callbacks|
        invariant 0 <= i <= |callbacks| <= MAX_TABLES && callbacks == old(callbacks)
        invariant called == old(called) + CallsFor(callbacks, used[slot], slot, i)
      {
        CallsForMore(callbacks, used[slot], slot, i);
        if callbacks[i] && Has(used[slot], i) {
          called := called + [Call(i, slot)];
        }
        i := i + 1;
      }
    }

    /** The end of nbr_table_allocate: a neighbour leaves its slot. */
    method Evict(key: Node<Key>, ghost p: nat)
      requires Valid() && p < |list.nodes| && key == list.nodes[p]
      modifies this`called, list, list.nodes, used
      ensures Linked(key.data.slot) && UsedRight(key.data.slot) && taken[key.data.slot] && key in keys
      ensures key.data == old(key.data) && Keys() == Remaining(old(Keys()), p)
      ensures used[..] == old(used[..])[key.data.slot := 0]
      ensures called == old(called) + CallsFor(callbacks, old(used[key.data.slot]), key.data.slot, |callbacks|)
    {
      hide *;
      Apart();
      var slot := key.data.slot;
      SlotOf(p);
      CallTables(slot);
      Unuse(slot);
      Unlink(key, p);
    }

    lemma Apart()
      requires Valid()
      ensures Linked(-1) && UsedRight(-1) && |callbacks| <= MAX_TABLES
        && taken.Length == used.Length == locked.Length == |keys|
      ensures (taken as object) != used && (taken as object) != locked && used != locked && |Keys()| == |list.nodes|
    {}

    lemma SlotOf(p: nat)
      requires Linked(-1) && p < |list.nodes|
      ensures list.nodes[p] in keys && list.nodes[p].data.slot < |keys| == taken.Length
        && taken[list.nodes[p].data.slot]
    {
      assert list.nodes[p] in list.nodes;
    }

    method Unuse(slot: nat)
      requires slot < used.Length == taken.Length && UsedRight(-1) && |callbacks| <= MAX_TABLES
      modifies used
      ensures UsedRight(slot) && used[..] == old(used[..])[slot := 0]
    {
      NoUsers();
      hide Has;
      used[slot] := 0;
    }

    method Unlink(key: Node<Key>, ghost p: nat)
      requires Linked(-1) && p < |list.nodes| && key == list.nodes[p]
      modifies list, list.nodes
      ensures Linked(key.data.slot) && key.data == old(key.data) && Keys() == Remaining(old(Keys()), p)
    {
      hide Without, Proper;
      ghost var ks, nodes := Keys(), list.nodes;
      assert key in list.nodes;
      WithoutAt(nodes, key, p);
      list.Remove(key);
      assert list.nodes == nodes[..p] + nodes[p + 1..];
      assert Keys() == Remaining(ks, p);
      ProperWithout(ks, p, |keys|);
    }

    ghost predicate AllLocked()
      reads this, list, list.nodes, locked
    {
      forall q: nat :: !Unlocked(Keys(), locked[..], q)
    }

    /** nbr_table_allocate: a slot that was never taken, or else that of the neighbour to replace. */
    method Allocate() returns (key: Node?<Key>, ghost how: How)
      requires Valid()
      modifies this`called, list, list.nodes, taken, used
      ensures key == null ==>
        && how == Full && Valid() && unchanged(this`called, list, taken, used)
        && Keys() == old(Keys()) && AllTaken(old(taken[..])) && old(AllLocked())
      ensures key != null ==>
        && key in keys && Linked(key.data.slot) && UsedRight(key.data.slot) && taken[key.data.slot]
        && used[..] == old(used[..])[key.data.slot := 0]
      ensures key != null && !AllTaken(old(taken[..])) ==>
        how == Unused && Keys() == old(Keys()) && called == old(called) && !old(taken[key.data.slot])
      ensures key != null && AllTaken(old(taken[..])) ==>
        && how.Replacing? && IsVictim(old(Keys()), old(used[..]), locked[..], how.victim)
        && how.victim < |old(Keys())| && key.data.slot == old(Keys())[how.victim].slot
        && Keys() == Remaining(old(Keys()), how.victim)
        && called == old(called) + CallsFor(callbacks, old(used[..])[key.data.slot], key.data.slot, |callbacks|)
    {
      hide IsVictim, CallsFor, Unlocked, Has;
      var slot := Alloc(taken);
      if slot != -1 {
        key, how := keys[slot], Unused;
        assert old(used[slot]) == 0;
        assert key.data.slot == slot;
        return;
      }
      ghost var p;
      assert Keys() == old(Keys()) && used[..] == old(used[..]);
      key, p := PickVictim();
      if key == null {
        how := Full;
        assert AllLocked();
        return;
      }
      VictimListed(Keys(), used[..], locked[..], p);
      assert key in list.nodes;
      how := Replacing(p);
      Evict(key, p);
    }

    /** The key of a slot that was just allocated joins the list, with its new address. */
    method Enlist(key: Node<Key>, a: Address)
      requires key in keys && Linked(key.data.slot) && UsedRight(key.data.slot) && taken[key.data.slot]
      requires Lookup(Keys(), a) == -1
      modifies list, list.nodes, key
      ensures Valid() && Keys() == old(Keys()) + [Key(key.data.slot, a)] && key.data.slot == old(key.data.slot)
    {
      hide UsedRight, Proper, Has;
      ghost var ks := Keys();
      Unlisted(ks, a);
      NotYet(key);
      WithoutAbsent(list.nodes, key);
      list.Add(key);
      key.data := Key(key.data.slot, a);
      assert Keys() == ks + [key.data];
      ProperWith(ks, key.data, |keys|);
      assert key in list.nodes;
    }

    lemma NotYet(key: Node<Key>)
      requires key in keys && Linked(key.data.slot) && UsedRight(key.data.slot) && taken[key.data.slot]
      ensures UsedRight(-1) && key !in list.nodes && key.data.slot < |keys| && keys[key.data.slot] == key
      ensures forall k :: 0 <= k < |Keys()| ==> Keys()[k].slot != key.data.slot
    {
      var i :| 0 <= i < |keys| && keys[i] == key;
      forall k | 0 <= k < |Keys()| ensures Keys()[k].slot != key.data.slot {
        assert list.nodes[k] in list.nodes;
      }
    }

    /** nbr_set_bit on used_map */
    method SetUsed(t: nat, item: nat)
      requires Valid() && t < |callbacks| && item < |keys| && taken[item]
      modifies used
      ensures Valid() && used[..] == old(used[..])[item := Marked(old(used[..])[item], t, true)]
    {
      BitsRight(item, t);
      hide Has, Linked, Bit;
      used[item] := Marked(used[item], t, true);
    }

    /** Setting or clearing the bit of a registered table gives no bit to the others. */
    lemma BitsRight(item: nat, t: nat)
      requires Valid() && t < |callbacks| && item < |keys|
      ensures |callbacks| <= MAX_TABLES && |keys| == taken.Length == used.Length && (taken as object) != used
      ensures var with, without := Marked(used[item], t, true), Marked(used[item], t, false);
        && (forall u: nat :: |callbacks| <= u < MAX_TABLES ==> !Has(with, u) && !Has(without, u))
        && (!taken[item] ==> without == 0)
    {
      var m := used[item];
      var with, without := Marked(m, t, true), Marked(m, t, false);
      assert forall u: nat :: |callbacks| <= u < MAX_TABLES ==> !Has(m, u);
      forall u: nat | |callbacks| <= u < MAX_TABLES ensures !Has(with, u) && !Has(without, u) {
        SetBit(m, t, u);
      }
    }

    /** The part of nbr_table_add_lladdr for a neighbour that has no slot yet. */
    method Admit(a: Address) returns (item: int, ghost how: How)
      requires Valid() && Lookup(Keys(), a) == -1
      modifies this`called, list, list.nodes, keys, taken, used
      ensures Valid() && how != Present && (item == -1 <==> how == Full)
      ensures item != -1 ==> 0 <= item < |keys| && used[..] == old(used[..])[item := 0]
      ensures match how {
          case Present => false
          case Unused =>
            && !old(taken[..])[item] && !AllTaken(old(taken[..]))
            && Keys() == old(Keys()) + [Key(item, a)] && called == old(called)
          case Replacing(p) =>
            && AllTaken(old(taken[..])) && p < |old(Keys())| && IsVictim(old(Keys()), old(used[..]), locked[..], p)
            && item == old(Keys())[p].slot && Keys() == Remaining(old(Keys()), p) + [Key(item, a)]
            && called == old(called) + CallsFor(callbacks, old(used[..])[item], item, |callbacks|)
          case Full =>
            && AllTaken(old(taken[..])) && old(AllLocked())
            && Keys() == old(Keys()) && used[..] == old(used[..]) && called == old(called)
        }
    {
      hide IsVictim, CallsFor, Unlocked, Has, UsedRight;
      ghost var ks := Keys();
      var key;
      key, how := Allocate();
      if key == null {
        return -1, how;
      }
      item := key.data.slot;
      if how.Replacing? {
        StillUnlisted(ks, how.victim, a);
      }
      assert forall i :: 0 <= i < |list.nodes| ==> list.nodes[i] in list.nodes && list.nodes[i] in keys;
      Enlist(key, a);
    }

    lemma SlotTaken(k: nat)
      requires Valid() && k < |Keys()|
      ensures Keys()[k].slot < |keys| == taken.Length == used.Length && taken[Keys()[k].slot]
    {
      assert list.nodes[k] in list.nodes;
    }

    /** nbr_table_add_lladdr */
    method Add(t: nat, lladdr: Option<Address>) returns (item: int, ghost how: How)
      requires Valid() && t < |callbacks|
      modifies this`called, list, list.nodes, keys, taken, used
      ensures Valid() && (item == -1 <==> how == Full)
      ensures how == Present <==> Lookup(old(Keys()), lladdr.Or(NULL_ADDRESS)) != -1
      ensures item != -1 ==>
        && 0 <= item < |keys|
        && used[..] == old(used[..])[item := Marked(if how == Present then old(used[..])[item] else 0, t, true)]
      ensures var a := lladdr.Or(NULL_ADDRESS);
        match how {
          case Present =>
            item == Lookup(old(Keys()), a) && Keys() == old(Keys()) && called == old(called)
          case Unused =>
            && !old(taken[..])[item]
            && Keys() == old(Keys()) + [Key(item, a)] && called == old(called)
          case Replacing(p) =>
            && AllTaken(old(taken[..])) && p < |old(Keys())| && IsVictim(old(Keys()), old(used[..]), locked[..], p)
            && item == old(Keys())[p].slot && Keys() == Remaining(old(Keys()), p) + [Key(item, a)]
            && called == old(called) + CallsFor(callbacks, old(used[..])[item], item, |callbacks|)
          case Full =>
            && AllTaken(old(taken[..])) && old(AllLocked())
            && Keys() == old(Keys()) && used[..] == old(used[..]) && called == old(called)
        }
    {
      hide *;
      TablesFit();
      var a := lladdr.Or(NULL_ADDRESS);
      item := IndexFromAddress(lladdr);
      how := Present;
      if item == -1 {
        item, how := Admit(a);
        if item == -1 {
          return;
        }
        TablesFit();
        SlotTaken(|Keys()| - 1);
      } else {
        ghost var k := Listed(Keys(), a);
        SlotTaken(k);
      }
      SetUsed(t, item);
    }

    /** nbr_set_bit on used_map, to clear the bit */
    method ClearUsed(t: nat, item: nat)
      requires Valid() && t < |callbacks| && item < |keys|
      modifies used
      ensures Valid() && used[..] == old(used[..])[item := Marked(old(used[..])[item], t, false)]
    {
      BitsRight(item, t);
      hide Has, Linked, Bit;
      used[item] := Marked(used[item], t, false);
    }

    /** nbr_table_remove */
    method Remove(t: nat, item: nat)
      requires Valid() && t < |callbacks| && item < |keys|
      modifies used, locked
      ensures Valid() && used[..] == old(used[..])[item := Marked(old(used[..])[item], t, false)]
      ensures locked[..] == old(locked[..])[item := Marked(old(locked[..])[item], t, false)]
    {
      assert used != locked && used.Length == locked.Length == |keys|;
      hide *;
      ClearUsed(t, item);
      SetLock(t, item, false);
    }

    lemma LocksApart()
      requires Valid()
      ensures locked.Length == |keys| && used != locked && (taken as object) != locked && |callbacks| <= MAX_TABLES
    {
      hide Has;
    }

    /** nbr_table_lock and nbr_table_unlock */
    method SetLock(t: nat, item: nat, lock: bool)
      requires Valid() && t < |callbacks| && item < |keys|
      modifies locked
      ensures Valid()
      ensures locked[..] == old(locked[..])[item := Marked(old(locked[..])[item], t, lock)]
    {
      hide *;
      LocksApart();
      locked[item] := Marked(locked[item], t, lock);
    }

    /** nbr_table_head */
    method Head(t: nat) returns (item: int)
      requires Valid() && t < |callbacks|
      ensures item == FirstSlot(Entries(Keys(), used[..], t))
    {
      ghost var ks := Keys();
      if list.head == null {
        return -1;
      }
      item := list.head.data.slot;
      assert list.head in list.nodes && ks[0].slot == item;
      EntriesFrom(ks, used[..], t, 0);
      assert ks[0..] == ks;
      if !Has(used[item], t) {
        item := Next(t, item, 0);
      }
    }

    /** nbr_table_next: the item's successor among the table's entries. */
    method Next(t: nat, item: int, ghost p: nat) returns (next: int)
      requires Valid() && t < |callbacks|
      requires item == -1 || (p < |Keys()| && Keys()[p].slot == item)
      ensures next == if item == -1 then -1 else FirstSlot(Entries(Keys()[p + 1..], used[..], t))
    {
      hide *;
      next := item;
      if next == -1 {
        return;
      }
      NodeAt(p);
      ghost var ks, us := Keys(), used[..];
      ghost var k := p;
      ghost var first := FirstSlot(Entries(ks[p + 1..], us, t));
      var more := true;
      while more
        invariant p <= k <= |ks|
        invariant if k < |ks| then next == ks[k].slot else next == -1
        invariant if more then k < |ks| && first == FirstSlot(Entries(ks[k + 1..], us, t)) else next == first
        decreases |ks| - k, more
      {
        NodeAt(k);
        var key := keys[next].next;
        k := k + 1;
        FirstFrom(ks, us, t, k);
        if k < |ks| { NodeAt(k); }
        next := if key == null then -1 else key.data.slot;
        more := next != -1 && !Has(used[next], t);
      }
    }

    lemma NodeAt(k: nat)
      requires Valid() && k < |Keys()|
      ensures |Keys()| == |list.nodes| && used.Length == |keys| && |callbacks| <= MAX_TABLES
      ensures Keys()[k] == list.nodes[k].data && Keys()[k].slot < |keys| && keys[Keys()[k].slot] == list.nodes[k]
      ensures list.nodes[k].next == if k + 1 < |list.nodes| then list.nodes[k + 1] else null
    {
      assert list.nodes[k] in list.nodes;
    }

    /** A client's loop from nbr_table_head over nbr_table_next sees each entry once, in order of insertion. */
    method Enumerate(t: nat) returns (items: seq<int>)
      requires Valid() && t < |callbacks|
      ensures |items| == |Entries(Keys(), used[..], t)|
      ensures forall i :: 0 <= i < |items| ==> items[i] == Entries(Keys(), used[..], t)[i].slot
    {
      hide *;
      TablesFit();
      ghost var ks, us := Keys(), used[..];
      ghost var done: seq<Key>, rest, k := [], Entries(ks, us, t), 0;
      items := [];
      assert ks[0..] == ks;
      var item := Head(t);
      while item != -1
        invariant 0 <= k <= |ks| && rest == Entries(ks[k..], us, t) && item == FirstSlot(rest)
        invariant done + rest == Entries(ks, us, t)
        invariant |items| == |done| && forall i :: 0 <= i < |items| ==> items[i] == done[i].slot
        decreases |rest|
      {
        FirstIs(rest);
        ghost var j := FirstEntry(ks, us, t, k);
        items := items + [item];
        item := Next(t, item, j);
        assert done + rest == done + [rest[0]] + rest[1..];
        done, rest, k := done + [rest[0]], rest[1..], j + 1;
      }
      FirstIs(rest);
      assert done + rest == done;
    }
  }

  ghost function FirstSlot(es: seq<Key>): int {
    if es == [] then -1 else es[0].slot
  }

  lemma FirstIs(es: seq<Key>)
    ensures FirstSlot(es) == -1 <==> es == []
    ensures es != [] ==> FirstSlot(es) == es[0].slot
  {}

  lemma EntriesFrom(ks: seq<Key>, used: seq<bv8>, t: nat, k: nat)
    requires k < |ks| && t < MAX_TABLES
    ensures Entries(ks[k..], used, t) == (if Uses(used, t, ks[k]) then [ks[k]] else []) + Entries(ks[k + 1..], used, t)
  {
    assert ks[k..][0] == ks[k] && ks[k..][1..] == ks[k + 1..];
  }

  lemma FirstFrom(ks: seq<Key>, used: seq<bv8>, t: nat, k: nat)
    requires k <= |ks| && t < MAX_TABLES
    ensures k == |ks| ==> FirstSlot(Entries(ks[k..], used, t)) == -1
    ensures k < |ks| && ks[k].slot < |used| ==>
      && FirstSlot(Entries(ks[k..], used, t)) ==
        (if Has(used[ks[k].slot], t) then ks[k].slot else FirstSlot(Entries(ks[k + 1..], used, t)))
  {
    if k < |ks| { EntriesFrom(ks, used, t, k); }
  }

  /** Where the first entry of the rest of the list is. */
  lemma {:induction false} FirstEntry(ks: seq<Key>, used: seq<bv8>, t: nat, k: nat) returns (j: nat)
    requires k <= |ks| && t < MAX_TABLES && Entries(ks[k..], used, t) != []
    ensures k <= j < |ks| && Entries(ks[k..], used, t)[0] == ks[j]
    ensures Entries(ks[k..], used, t)[1..] == Entries(ks[j + 1..], used, t)
    decreases |ks| - k
  {
    EntriesFrom(ks, used, t, k);
    if Uses(used, t, ks[k]) {
      j := k;
    } else {
      j := FirstEntry(ks, used, t, k + 1);
    }
  }

  lemma {:induction false} Unlisted(ks: seq<Key>, a: Address)
    requires Lookup(ks, a) == -1
    ensures forall k :: 0 <= k < |ks| ==> ks[k].addr != a
  {
    if ks != [] { Unlisted(ks[1..], a); }
  }

  lemma {:induction false} Listed(ks: seq<Key>, a: Address) returns (k: nat)
    requires Lookup(ks, a) != -1
    ensures k < |ks| && ks[k].slot == Lookup(ks, a) && ks[k].addr == a
  {
    if ks[0].addr == a {
      k := 0;
    } else {
      k := Listed(ks[1..], a);
      k := k + 1;
    }
  }

  lemma ProperWithout(ks: seq<Key>, p: nat, max: nat)
    requires Proper(ks, max) && p < |ks|
    ensures Proper(Remaining(ks, p), max)
  {
    var rest := Remaining(ks, p);
    assert forall k :: 0 <= k < |rest| ==> rest[k] == ks[if k < p then k else k + 1];
  }

  lemma ProperWith(ks: seq<Key>, x: Key, max: nat)
    requires Proper(ks, max) && x.slot < max
    requires forall k :: 0 <= k < |ks| ==> ks[k].slot != x.slot && ks[k].addr != x.addr
    ensures Proper(ks + [x], max)
  {}

  lemma StillUnlisted(ks: seq<Key>, p: nat, a: Address)
    requires p < |ks| && Lookup(ks, a) == -1
    ensures Lookup(Remaining(ks, p), a) == -1
  {
    Unlisted(ks, a);
    LookupMisses(Remaining(ks, p), a);
  }

  lemma VictimListed(ks: seq<Key>, used: seq<bv8>, locked: seq<bv8>, p: nat)
    requires IsVictim(ks, used, locked, p)
    ensures p < |ks|
  {}
}
