/** Queued packets and what they hold of the pools (csma.c). */
module CsmaPackets {
  import opened Lists
  import opened MemoryBlocks

  /** A struct rdc_buf_list with its metadata; `client` stands for the callback and its argument. */
  datatype Packet = Packet(block: nat, meta: nat, seqno: nat, maxTransmissions: nat, client: nat)

  datatype Field = Block | Meta | Client

  function Get(p: Packet, f: Field): nat {
    match f case Block => p.block case Meta => p.meta case Client => p.client
  }

  ghost function Bag(ps: seq<Packet>, f: Field): multiset<nat> {
    if ps == [] then multiset{} else multiset{Get(ps[0], f)} + Bag(ps[1..], f)
  }

  ghost function Bags(queues: seq<seq<Packet>>, f: Field): multiset<nat> {
    if queues == [] then multiset{} else Bag(queues[0], f) + Bags(queues[1..], f)
  }

  ghost function Length(queues: seq<seq<Packet>>): nat {
    if queues == [] then 0 else |queues[0]| + Length(queues[1..])
  }

  lemma {:induction false} BagJoin(a: seq<Packet>, b: seq<Packet>, f: Field)
    ensures Bag(a + b, f) == Bag(a, f) + Bag(b, f)
  {
    if a == [] {
      assert a + b == b;
    } else {
      assert (a + b)[0] == a[0] && (a + b)[1..] == a[1..] + b;
      BagJoin(a[1..], b, f);
    }
  }

  lemma BagOne(p: Packet, f: Field)
    ensures Bag([p], f) == multiset{Get(p, f)}
  {
    assert [p][1..] == [];
  }

  lemma BagAdd(ps: seq<Packet>, p: Packet, f: Field)
    ensures Bag(ps + [p], f) == Bag(ps, f) + multiset{Get(p, f)} == Bag([p] + ps, f)
  {
    BagJoin(ps, [p], f);
    BagJoin([p], ps, f);
    BagOne(p, f);
  }

  lemma BagDrop(ps: seq<Packet>, k: nat, f: Field)
    requires k < |ps|
    ensures Bag(ps[..k] + ps[k + 1..], f) + multiset{Get(ps[k], f)} == Bag(ps, f)
  {
    assert ps == ps[..k] + ([ps[k]] + ps[k + 1..]);
    BagJoin(ps[..k], [ps[k]] + ps[k + 1..], f);
    BagJoin([ps[k]], ps[k + 1..], f);
    BagJoin(ps[..k], ps[k + 1..], f);
    BagOne(ps[k], f);
  }

  lemma {:induction false} BagSize(ps: seq<Packet>, f: Field)
    ensures |Bag(ps, f)| == |ps|
  {
    if ps != [] { BagSize(ps[1..], f); }
  }

  lemma {:induction false} BagsSize(queues: seq<seq<Packet>>, f: Field)
    ensures |Bags(queues, f)| == Length(queues)
  {
    if queues != [] {
      BagSize(queues[0], f);
      BagsSize(queues[1..], f);
    }
  }

  /** Changing one queue. */
  lemma {:induction false} BagsUpdate(queues: seq<seq<Packet>>, n: nat, q: seq<Packet>, f: Field)
    requires n < |queues|
    ensures Bags(queues[n := q], f) + Bag(queues[n], f) == Bags(queues, f) + Bag(q, f)
    ensures Length(queues[n := q]) + |queues[n]| == Length(queues) + |q|
  {
    hide Bag;
    if n == 0 {
      assert queues[n := q][1..] == queues[1..];
      Shuffle(multiset{}, Bag(q, f) + Bags(queues[1..], f), Bag(queues[0], f) + Bags(queues[1..], f), Bag(queues[0], f),
              Bag(q, f));
    } else {
      assert queues[n := q][1..] == queues[1..][n - 1 := q] && queues[n := q][0] == queues[0];
      BagsUpdate(queues[1..], n - 1, q, f);
      Shuffle(Bag(queues[0], f), Bags(queues[1..][n - 1 := q], f), Bags(queues[1..], f), Bag(queues[n], f), Bag(q, f));
    }
  }

  lemma Shuffle(a: multiset<nat>, b: multiset<nat>, c: multiset<nat>, x: multiset<nat>, y: multiset<nat>)
    requires b + x == c + y
    ensures a + b + x == a + c + y
  {
    assert a + b + x == a + (b + x);
    assert a + c + y == a + (c + y);
  }

  lemma {:induction false} EmptyBags(queues: seq<seq<Packet>>, f: Field)
    requires forall n :: 0 <= n < |queues| ==> queues[n] == []
    ensures Bags(queues, f) == multiset{} && Length(queues) == 0
  {
    if queues != [] { EmptyBags(queues[1..], f); }
  }

  lemma {:induction false} BagsHold(queues: seq<seq<Packet>>, n: nat, k: nat, f: Field)
    requires n < |queues| && k < |queues[n]|
    ensures Get(queues[n][k], f) in Bags(queues, f)
  {
    if n == 0 {
      BagDrop(queues[0], k, f);
      assert Get(queues[0][k], f) in Bag(queues[0], f);
    } else {
      BagsHold(queues[1..], n - 1, k, f);
    }
  }

  /** The blocks in use are exactly those in the bag, each held once. */
  ghost predicate Owned(count: seq<bool>, bag: multiset<nat>) {
    forall s: nat :: bag[s] == if s < |count| && count[s] then 1 else 0
  }

  lemma EmptyOwned(count: seq<bool>)
    requires forall i :: 0 <= i < |count| ==> !count[i]
    ensures Owned(count, multiset{})
  {}

  lemma OwnedTake(count: seq<bool>, bag: multiset<nat>, s: nat)
    requires Owned(count, bag) && s < |count| && !count[s]
    ensures Owned(count[s := true], bag + multiset{s})
  {}

  lemma OwnedGive(count: seq<bool>, bag: multiset<nat>, s: nat)
    requires Owned(count, bag + multiset{s})
    ensures s < |count| && count[s] && Owned(count[s := false], bag)
  {
    assert (bag + multiset{s})[s] >= 1;
  }

  function Dropped(q: seq<Packet>, k: nat): seq<Packet>
    requires k < |q|
  {
    q[..k] + q[k + 1..]
  }

  /** Taking a packet out of a queue. */
  lemma BagsDrop(qs: seq<seq<Packet>>, n: nat, k: nat, f: Field)
    requires n < |qs| && k < |qs[n]|
    ensures Bags(qs, f) == Bags(qs[n := Dropped(qs[n], k)], f) + multiset{Get(qs[n][k], f)}
    ensures Length(qs) == Length(qs[n := Dropped(qs[n], k)]) + 1
  {
    var q := Dropped(qs[n], k);
    BagsUpdate(qs, n, q, f);
    BagDrop(qs[n], k, f);
    hide Bags, Bag;
    Cancel(Bags(qs[n := q], f), Bag(q, f), multiset{Get(qs[n][k], f)}, Bags(qs, f));
  }

  lemma Cancel(a: multiset<nat>, b: multiset<nat>, x: multiset<nat>, c: multiset<nat>)
    requires a + (b + x) == c + b
    ensures c == a + x
  {
    assert a + (b + x) == (a + x) + b;
    assert forall s :: c[s] == (a + x)[s] by {
      forall s ensures c[s] == (a + x)[s] {
        assert (c + b)[s] == ((a + x) + b)[s];
      }
    }
  }

  function Joined(q: seq<Packet>, p: Packet, front: bool): seq<Packet> {
    if front then [p] + q else q + [p]
  }

  /** Putting one into a queue, at either end. */
  lemma BagsPut(qs: seq<seq<Packet>>, n: nat, p: Packet, front: bool, f: Field)
    requires n < |qs|
    ensures var q := Joined(qs[n], p, front);
      && Bags(qs[n := q], f) == Bags(qs, f) + multiset{Get(p, f)}
      && Length(qs[n := q]) == Length(qs) + 1
  {
    var q := Joined(qs[n], p, front);
    BagsUpdate(qs, n, q, f);
    BagAdd(qs[n], p, f);
    hide Bags, Bag;
    assert Bags(qs, f) + (Bag(qs[n], f) + multiset{Get(p, f)}) == Bags(qs[n := q], f) + Bag(qs[n], f);
    Cancel(Bags(qs, f), Bag(qs[n], f), multiset{Get(p, f)}, Bags(qs[n := q], f));
  }

  /** The block of a packet that leaves its queue can be returned. */
  lemma DropOwned(qs: seq<seq<Packet>>, n: nat, k: nat, f: Field, count: seq<bool>, after: seq<seq<Packet>>)
    requires n < |qs| && k < |qs[n]| && Owned(count, Bags(qs, f)) && after == qs[n := Dropped(qs[n], k)]
    ensures var s := Get(qs[n][k], f);
      s < |count| && count[s] && Owned(count[s := false], Bags(after, f))
  {
    BagsDrop(qs, n, k, f);
    OwnedGive(count, Bags(after, f), Get(qs[n][k], f));
  }

  lemma DropAll(qs: seq<seq<Packet>>, n: nat, k: nat, packets: seq<bool>, metadata: seq<bool>)
    requires n < |qs| && k < |qs[n]| && Owned(packets, Bags(qs, Block)) && Owned(metadata, Bags(qs, Meta))
    ensures var after, p := qs[n := Dropped(qs[n], k)], qs[n][k];
      && p.block < |packets| && Owned(packets[p.block := false], Bags(after, Block))
      && p.meta < |metadata| && Owned(metadata[p.meta := false], Bags(after, Meta))
      && Bags(qs, Client) == Bags(after, Client) + multiset{p.client} && Length(qs) == Length(after) + 1
  {
    hide Bags, Owned, Length, Dropped;
    var after := qs[n := Dropped(qs[n], k)];
    DropOwned(qs, n, k, Block, packets, after);
    DropOwned(qs, n, k, Meta, metadata, after);
    BagsDrop(qs, n, k, Client);
  }

  /** A packet with blocks that were free joins a queue. */
  lemma Supply(
      qs: seq<seq<Packet>>, n: nat, p: Packet, front: bool, packets: seq<bool>, metadata: seq<bool>)
    requires n < |qs| && Owned(packets, Bags(qs, Block)) && Owned(metadata, Bags(qs, Meta))
    requires p.block < |packets| && !packets[p.block] && p.meta < |metadata| && !metadata[p.meta]
    ensures var after := qs[n := Joined(qs[n], p, front)];
      && Owned(packets[p.block := true], Bags(after, Block))
      && Owned(metadata[p.meta := true], Bags(after, Meta))
      && Bags(after, Client) == Bags(qs, Client) + multiset{p.client}
      && Length(after) == Length(qs) + 1
    ensures qs[n] != [] ==> qs[n][0].block != p.block
  {
    BagsPut(qs, n, p, front, Block);
    BagsPut(qs, n, p, front, Meta);
    BagsPut(qs, n, p, front, Client);
    OwnedTake(packets, Bags(qs, Block), p.block);
    OwnedTake(metadata, Bags(qs, Meta), p.meta);
    if qs[n] != [] { FreeBlockUnused(qs, n, 0, packets, p.block); }
  }

  /** No packet in a queue has a block that is free. */
  lemma FreeBlockUnused(qs: seq<seq<Packet>>, n: nat, k: nat, count: seq<bool>, block: nat)
    requires n < |qs| && k < |qs[n]| && Owned(count, Bags(qs, Block)) && block < |count| && !count[block]
    ensures qs[n][k].block != block
  {
    BagsHold(qs, n, k, Block);
    assert Bags(qs, Block)[block] == 0;
  }

  /** As many blocks are in use as the bag has members. */
  lemma {:induction false} OwnedSize(count: seq<bool>, bag: multiset<nat>)
    requires Owned(count, bag)
    ensures InUse(count) == |bag|
    decreases |count|
  {
    if count == [] {
      assert bag == multiset{};
    } else {
      var n := |count| - 1;
      var rest := count[..n];
      InUseLast(rest, count[n]);
      assert count == rest + [count[n]];
      var smaller := if count[n] then bag - multiset{n} else bag;
      assert Owned(rest, smaller) by {
        forall s: nat ensures smaller[s] == if s < n && rest[s] then 1 else 0 {
          assert bag[s] == if s < |count| && count[s] then 1 else 0;
        }
      }
      OwnedSize(rest, smaller);
      if count[n] { assert bag == smaller + multiset{n}; }
    }
  }

  lemma {:induction false} InUseLast(count: seq<bool>, b: bool)
    ensures InUse(count + [b]) == InUse(count) + if b then 1 else 0
  {
    if count == [] {
      assert count + [b] == [b] && [b][1..] == [];
    } else {
      assert (count + [b])[0] == count[0] && (count + [b])[1..] == count[1..] + [b];
      InUseLast(count[1..], b);
    }
  }

  /** The place in a queue of the first packet with a sequence number, or -1. */
  function Find(ps: seq<Packet>, seqno: nat): (k: int)
    ensures -1 <= k < |ps|
    ensures k >= 0 ==> ps[k].seqno == seqno && forall j :: 0 <= j < k ==> ps[j].seqno != seqno
    ensures k == -1 ==> forall j :: 0 <= j < |ps| ==> ps[j].seqno != seqno
  {
    if ps == [] then -1
    else if ps[0].seqno == seqno then 0
    else
      var k := Find(ps[1..], seqno);
      if k == -1 then -1 else k + 1
  }
}
