/** The neighbour table's bitmaps and its list of keys, as values (nbr_table.c). */
module NeighborKeys {
  import opened Lists

  const MAX_TABLES: nat := 8

  type Address = nat

  /** rimeaddr_null */
  const NULL_ADDRESS: Address := 0

  /** A key: the slot it occupies in the array of keys, and the neighbour's link-layer address. */
  datatype Key = Key(slot: nat, addr: Address)

  /** 1 << t */
  function Bit(t: nat): bv8
    requires t < MAX_TABLES
  {
    match t
    case 0 => 1 case 1 => 2 case 2 => 4 case 3 => 8
    case 4 => 16 case 5 => 32 case 6 => 64 case 7 => 128
  }

  predicate Has(m: bv8, t: nat)
    requires t < MAX_TABLES
  {
    m & Bit(t) != 0
  }

  /** The bit of one table set, or cleared. */
  function Marked(m: bv8, t: nat, on: bool): bv8
    requires t < MAX_TABLES
  {
    if on then m | Bit(t) else m & !Bit(t)
  }

  lemma SetBit(m: bv8, t: nat, u: nat)
    requires t < MAX_TABLES && u < MAX_TABLES
    ensures Has(Marked(m, t, true), u) <==> u == t || Has(m, u)
    ensures Has(Marked(m, t, false), u) <==> u != t && Has(m, u)
  {}

  /** The tables below n whose bit is set. */
  ghost function Users(m: bv8, n: nat): set<nat>
    requires n <= MAX_TABLES
  {
    set t: nat | t < n && Has(m, t)
  }

  lemma ShiftedBit(m: bv8, t: nat)
    requires t < MAX_TABLES
    ensures (m >> t) & 1 == 1 <==> Has(m, t)
    ensures (m >> t) >> 1 == m >> (t + 1)
    ensures (m >> t) == 0 ==> !Has(m, t) && m >> (t + 1) == 0
  {}

  lemma {:induction false} NoMoreUsers(m: bv8, t: nat)
    requires t <= MAX_TABLES && m >> t == 0
    ensures Users(m, MAX_TABLES) == Users(m, t)
    decreases MAX_TABLES - t
  {
    if t < MAX_TABLES {
      ShiftedBit(m, t);
      NoMoreUsers(m, t + 1);
      assert Users(m, t + 1) == Users(m, t);
    }
  }

  lemma NoUsers()
    ensures forall t: nat :: t < MAX_TABLES ==> !Has(0, t)
  {}

  lemma OneMoreUser(m: bv8, t: nat)
    requires t < MAX_TABLES
    ensures |Users(m, t + 1)| == |Users(m, t)| + if Has(m, t) then 1 else 0
  {
    assert Users(m, t + 1) == Users(m, t) + if Has(m, t) then {t} else {};
  }

  /** The loop in nbr_table_allocate that counts the tables that use an item. */
  method CountUsers(m: bv8) returns (count: nat)
    ensures count == |Users(m, MAX_TABLES)|
  {
    var used := m;
    ghost var t := 0;
    count := 0;
    while used != 0
      invariant t <= MAX_TABLES && used == m >> t && count == |Users(m, t)|
      decreases MAX_TABLES - t
    {
      ShiftedBit(m, t);
      OneMoreUser(m, t);
      hide Users, Has;
      if used & 1 == 1 {
        count := count + 1;
      }
      used := used >> 1;
      t := t + 1;
    }
    NoMoreUsers(m, t);
  }

  /** Slots are in range, and no two keys share a slot or an address. */
  ghost predicate Proper(ks: seq<Key>, max: nat) {
    (forall k :: 0 <= k < |ks| ==> ks[k].slot < max) &&
    forall j, k :: 0 <= j < k < |ks| ==> ks[j].slot != ks[k].slot && ks[j].addr != ks[k].addr
  }

  /** The slot of an address, or -1. */
  function Lookup(ks: seq<Key>, a: Address): int {
    if ks == [] then -1 else if ks[0].addr == a then ks[0].slot else Lookup(ks[1..], a)
  }

  /** The keys that a table uses, in the order in which their neighbours were inserted. */
  ghost function Entries(ks: seq<Key>, used: seq<bv8>, t: nat): seq<Key>
    requires t < MAX_TABLES
  {
    if ks == [] then [] else (if Uses(used, t, ks[0]) then [ks[0]] else []) + Entries(ks[1..], used, t)
  }

  ghost predicate Uses(used: seq<bv8>, t: nat, k: Key)
    requires t < MAX_TABLES
  {
    k.slot < |used| && Has(used[k.slot], t)
  }

  lemma {:induction false} LookupFinds(ks: seq<Key>, a: Address, k: nat)
    requires k < |ks| && ks[k].addr == a && forall j :: 0 <= j < k ==> ks[j].addr != a
    ensures Lookup(ks, a) == ks[k].slot
  {
    if k > 0 { LookupFinds(ks[1..], a, k - 1); }
  }

  lemma {:induction false} LookupMisses(ks: seq<Key>, a: Address)
    requires forall k :: 0 <= k < |ks| ==> ks[k].addr != a
    ensures Lookup(ks, a) == -1
  {
    if ks != [] { LookupMisses(ks[1..], a); }
  }

  /** Looking up among all keys and then testing the bit is looking up among the table's entries. */
  lemma {:induction false} LookupEntries(ks: seq<Key>, used: seq<bv8>, t: nat, a: Address)
    requires Proper(ks, |used|) && t < MAX_TABLES
    ensures -1 <= Lookup(ks, a) < |used|
    ensures Lookup(Entries(ks, used, t), a) ==
      if Lookup(ks, a) != -1 && Has(used[Lookup(ks, a)], t) then Lookup(ks, a) else -1
  {
    hide Has, Bit, Marked;
    if ks != [] {
      assert Proper(ks[1..], |used|);
      LookupEntries(ks[1..], used, t, a);
      var tail := Entries(ks[1..], used, t);
      assert ([ks[0]] + tail)[1..] == tail && [] + tail == tail;
      if ks[0].addr == a {
        LookupMisses(ks[1..], a);
      }
    }
  }

  lemma {:induction false} EntriesAmong(ks: seq<Key>, used: seq<bv8>, t: nat)
    requires t < MAX_TABLES
    ensures forall k :: k in Entries(ks, used, t) <==> k in ks && Uses(used, t, k)
  {
    if ks != [] {
      EntriesAmong(ks[1..], used, t);
      assert forall k :: k in ks <==> k == ks[0] || k in ks[1..];
    }
  }

  lemma {:induction false} EntriesJoin(a: seq<Key>, b: seq<Key>, used: seq<bv8>, t: nat)
    requires t < MAX_TABLES
    ensures Entries(a + b, used, t) == Entries(a, used, t) + Entries(b, used, t)
  {
    hide Uses;
    if a == [] {
      assert a + b == b;
    } else {
      assert (a + b)[0] == a[0] && (a + b)[1..] == a[1..] + b;
      EntriesJoin(a[1..], b, used, t);
      var x := if Uses(used, t, a[0]) then [a[0]] else [];
      assert Entries(a, used, t) == x + Entries(a[1..], used, t);
      assert x + (Entries(a[1..], used, t) + Entries(b, used, t)) ==
        (x + Entries(a[1..], used, t)) + Entries(b, used, t);
    }
  }

  /** Entries depend only on the bits of the slots of their keys. */
  lemma {:induction false} EntriesFrame(ks: seq<Key>, used: seq<bv8>, used': seq<bv8>, t: nat)
    requires t < MAX_TABLES
    requires forall k :: 0 <= k < |ks| ==> (Uses(used, t, ks[k]) <==> Uses(used', t, ks[k]))
    ensures Entries(ks, used, t) == Entries(ks, used', t)
  {
    if ks != [] {
      EntriesFrame(ks[1..], used, used', t);
    }
  }

  ghost function Remaining(ks: seq<Key>, p: nat): seq<Key>
    requires p < |ks|
  {
    ks[..p] + ks[p + 1..]
  }

  /** Keys without one of them: every table loses just that one. */
  lemma EntriesRemaining(ks: seq<Key>, used: seq<bv8>, p: nat, t: nat)
    requires Proper(ks, |used|) && p < |ks| && t < MAX_TABLES
    ensures Proper(Remaining(ks, p), |used|) && ks[p] !in Remaining(ks, p)
    ensures Entries(Remaining(ks, p), used, t) == Without(Entries(ks, used, t), ks[p])
  {
    hide Entries, Without, Has, Bit;
    var rest := Remaining(ks, p);
    assert forall k :: 0 <= k < |rest| ==> rest[k] == ks[if k < p then k else k + 1];
    assert ks == ks[..p] + ([ks[p]] + ks[p + 1..]);
    EntriesDrop(ks[..p], ks[p], ks[p + 1..], used, t);
  }

  lemma EntriesDrop(a: seq<Key>, x: Key, b: seq<Key>, used: seq<bv8>, t: nat)
    requires t < MAX_TABLES && x !in a && x !in b
    ensures Entries(a + b, used, t) == Without(Entries(a + ([x] + b), used, t), x)
  {
    EntriesJoin(a, [x] + b, used, t);
    EntriesJoin([x], b, used, t);
    EntriesJoin(a, b, used, t);
    EntriesAmong(a, used, t);
    EntriesAmong(b, used, t);
    OneEntry(x, used, t);
    hide Entries, Uses, Without;
    var e, f, es := Entries(a, used, t), Entries(b, used, t), Entries(a + ([x] + b), used, t);
    if Uses(used, t, x) {
      assert es == e + ([x] + f);
      assert es[..|e|] == e && es[|e|] == x && es[|e| + 1..] == f;
      WithoutAt(es, x, |e|);
    } else {
      assert es == e + f;
      WithoutAbsent(es, x);
    }
  }

  lemma OneEntry(x: Key, used: seq<bv8>, t: nat)
    requires t < MAX_TABLES
    ensures Entries([x], used, t) == if Uses(used, t, x) then [x] else []
  {
    assert [x][1..] == [];
  }

  /** A neighbour that is new, or takes the slot of one that goes, enters table t only, and there at the end. */
  lemma EntriesWithNew(ks: seq<Key>, used: seq<bv8>, x: Key, t: nat, u: nat)
    requires Proper(ks, |used|) && x.slot < |used| && t < MAX_TABLES && u < MAX_TABLES
    requires forall k :: 0 <= k < |ks| ==> ks[k].slot != x.slot && ks[k].addr != x.addr
    ensures var used' := used[x.slot := Bit(t)];
      && Proper(ks + [x], |used|)
      && Entries(ks + [x], used', u) == Entries(ks, used, u) + if u == t then [x] else []
  {
    var used' := used[x.slot := Bit(t)];
    assert Proper(ks + [x], |used|);
    EntriesJoin(ks, [x], used', u);
    EntriesFrame(ks, used, used', u);
    OneEntry(x, used', u);
    SetBit(0, t, u);
    assert Has(Bit(t), u) <==> u == t by { assert 0 | Bit(t) == Bit(t); }
  }

  /** Setting or clearing the bit of one table leaves all the others as they are. */
  lemma EntriesOtherTables(ks: seq<Key>, used: seq<bv8>, slot: nat, t: nat, u: nat, add: bool)
    requires Proper(ks, |used|) && slot < |used| && t < MAX_TABLES && u < MAX_TABLES && u != t
    ensures Entries(ks, used[slot := Marked(used[slot], t, add)], u) == Entries(ks, used, u)
  {
    hide Has, Bit, Marked, Entries;
    SetBit(used[slot], t, u);
    EntriesFrame(ks, used, used[slot := Marked(used[slot], t, add)], u);
  }

  /** Clearing the bit takes just that neighbour out of the table. */
  lemma {:induction false} EntriesCleared(ks: seq<Key>, used: seq<bv8>, p: nat, t: nat)
    requires Proper(ks, |used|) && p < |ks| && t < MAX_TABLES
    ensures var used' := used[ks[p].slot := Marked(used[ks[p].slot], t, false)];
      Entries(ks, used', t) == Without(Entries(ks, used, t), ks[p])
  {
    hide Has, Bit, Marked, Entries, Without;
    var x, rest := ks[p], Remaining(ks, p);
    var used' := used[x.slot := Marked(used[x.slot], t, false)];
    EntriesRemaining(ks, used, p, t);
    SetBit(used[x.slot], t, t);
    assert ks == ks[..p] + ([x] + ks[p + 1..]);
    EntriesSkip(ks[..p], x, ks[p + 1..], used', t);
    assert forall k :: 0 <= k < |rest| ==> rest[k] == ks[if k < p then k else k + 1];
    EntriesFrame(rest, used, used', t);
  }

  lemma EntriesSkip(a: seq<Key>, x: Key, b: seq<Key>, used: seq<bv8>, t: nat)
    requires t < MAX_TABLES && !Uses(used, t, x)
    ensures Entries(a + ([x] + b), used, t) == Entries(a + b, used, t)
  {
    EntriesJoin(a, [x] + b, used, t);
    EntriesJoin([x], b, used, t);
    EntriesJoin(a, b, used, t);
    OneEntry(x, used, t);
  }

  /** Setting it puts just that neighbour in. */
  lemma EntriesSet(ks: seq<Key>, used: seq<bv8>, p: nat, t: nat)
    requires Proper(ks, |used|) && p < |ks| && t < MAX_TABLES
    ensures var used' := used[ks[p].slot := Marked(used[ks[p].slot], t, true)];
      && ks[p] in Entries(ks, used', t)
      && Without(Entries(ks, used', t), ks[p]) == Without(Entries(ks, used, t), ks[p])
  {
    hide Has, Bit, Marked, Entries, Without;
    var x := ks[p];
    var used' := used[x.slot := Marked(used[x.slot], t, true)];
    SetBit(used[x.slot], t, t);
    EntriesAmong(ks, used', t);
    EntriesRemaining(ks, used, p, t);
    EntriesRemaining(ks, used', p, t);
    var rest := Remaining(ks, p);
    assert forall k :: 0 <= k < |rest| ==> rest[k] == ks[if k < p then k else k + 1];
    EntriesFrame(rest, used, used', t);
  }
}
