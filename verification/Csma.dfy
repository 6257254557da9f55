/** The CSMA layer (csma.c): a queue of packets for every neighbour, retransmissions and callbacks. */
module Csma {
  import opened Bits
  import opened Wrappers
  import opened Lists
  import opened MemoryBlocks
  import opened CsmaPackets

  datatype Status = TxOk | TxCollision | TxNoAck | TxDeferred | TxErr | TxErrFatal

  /** A call of a packet's callback. */
  datatype Report = Report(client: nat, status: Status, transmissions: nat)

  /** CSMA_MAX_MAC_TRANSMISSIONS */
  const DEFAULT_TRANSMISSIONS: nat := 3

  ghost function Clients(calls: seq<Report>): multiset<nat> {
    if calls == [] then multiset{} else Clients(calls[..|calls| - 1]) + multiset{calls[|calls| - 1].client}
  }

  lemma NoClients()
    ensures Clients([]) == multiset{}
  {}

  lemma ClientsMore(calls: seq<Report>, r: Report)
    ensures Clients(calls + [r]) == Clients(calls) + multiset{r.client}
  {
    assert (calls + [r])[..|calls|] == calls;
  }

  lemma {:induction false} ClientsSize(calls: seq<Report>)
    ensures |Clients(calls)| == |calls|
  {
    if calls != [] { ClientsSize(calls[..|calls| - 1]); }
  }

  /** The most transmissions a packet gets. */
  function Cap(p: Packet): nat {
    if p.maxTransmissions == 0 then 1 else p.maxTransmissions
  }

  /** The counter of transmissions after a report. */
  function Counted(status: Status, transmissions: nat): nat {
    if status == TxOk || status == TxNoAck then (transmissions + 1) % 256 else transmissions
  }

  function Again(status: Status, p: Packet, transmissions: nat): bool {
    (status == TxCollision || status == TxNoAck) && transmissions < p.maxTransmissions
  }

  /** The first packet of a queue has tries left. */
  ghost predicate TryLeft(q: seq<Packet>, transmissions: nat) {
    q != [] ==> transmissions < Cap(q[0]) <= 255
  }

  /** Limits of transmissions are kept in eight bits. */
  ghost predicate ShortTries(q: seq<Packet>) {
    forall k :: 0 <= k < |q| ==> Cap(q[k]) <= 255
  }

  lemma DroppedShort(q: seq<Packet>, k: nat)
    requires ShortTries(q) && k < |q|
    ensures ShortTries(Dropped(q, k)) && TryLeft(Dropped(q, k), 0)
    ensures Dropped(q, k) == [] ==> forall tx: nat :: TryLeft(Dropped(q, k), tx)
  {
    var d := Dropped(q, k);
    assert forall i :: 0 <= i < |d| ==> d[i] == q[if i < k then i else i + 1];
  }

  ghost predicate AllTry(queues: seq<seq<Packet>>, counts: seq<nat>) {
    |queues| == |counts| &&
    forall n :: 0 <= n < |queues| ==> TryLeft(queues[n], counts[n]) && ShortTries(queues[n])
  }

  /** A packet's limit of transmissions: the default, or the given one in eight bits. */
  function Limit(attribute: nat): nat {
    if attribute == 0 then DEFAULT_TRANSMISSIONS else attribute % 256
  }

  lemma JoinedIs(q: seq<Packet>, p: Packet, front: bool)
    ensures Joined(q, p, front) == if front then [p] + q else q + [p]
  {}

  lemma JoinedSome(q: seq<Packet>, p: Packet, front: bool)
    ensures Joined(q, p, front) != [] && Joined(q, p, front)[0] == if front || q == [] then p else q[0]
  {}

  lemma {:induction false} AppendRemoved(s: seq<nat>, x: nat)
    ensures x !in s ==> Without(s + [x], x) == s
  {
    if s != [] {
      assert (s + [x])[0] == s[0] && (s + [x])[1..] == s[1..] + [x];
      AppendRemoved(s[1..], x);
    }
  }

  lemma EmptyTries(queues: seq<seq<Packet>>, counts: seq<nat>)
    requires |queues| == |counts| && forall n :: 0 <= n < |queues| ==> queues[n] == []
    ensures AllTry(queues, counts)
  {}

  /** A packet pushed in front of others gets their counter: it has tries left exactly if that is below its limit. */
  lemma PushKeepsTries(queues: seq<seq<Packet>>, counts: seq<nat>, n: nat, p: Packet)
    requires AllTry(queues, counts) && n < |queues| && queues[n] != [] && Cap(p) <= 255
    ensures AllTry(queues[n := Joined(queues[n], p, true)], counts) <==> counts[n] < Cap(p)
  {
    var after := queues[n := Joined(queues[n], p, true)];
    assert after[n][0] == p;
    assert counts[n] >= Cap(p) ==> !TryLeft(after[n], counts[n]);
  }

  /** A packet that joins at the end, or an empty queue, keeps the tries left. */
  lemma JoinKeepsTries(queues: seq<seq<Packet>>, counts: seq<nat>, n: nat, p: Packet, front: bool, counts': seq<nat>)
    requires AllTry(queues, counts) && n < |queues| && Cap(p) <= 255
    requires !front || queues[n] == []
    requires counts' == counts || (queues[n] == [] && counts' == counts[n := 0])
    requires queues[n] == [] ==> counts'[n] == 0
    ensures AllTry(queues[n := Joined(queues[n], p, front)], counts')
  {}

  lemma LimitShort(p: Packet, attribute: nat)
    requires p.maxTransmissions == Limit(attribute)
    ensures Cap(p) <= 255
    ensures p.maxTransmissions == if attribute == 0 then 3 else attribute % 256
  {}

  lemma EmptyKeepsTries(queues: seq<seq<Packet>>, counts: seq<nat>, n: int, counts': seq<nat>)
    requires AllTry(queues, counts)
    requires counts' == counts || (0 <= n < |counts| && queues[n] == [] && counts' == counts[n := 0])
    ensures AllTry(queues, counts')
  {}

  /** What the layer knows, with the counter and timer of one neighbour. */
  datatype MacView = MacView(
    queues: seq<seq<Packet>>, neighbors: seq<nat>, reports: seq<Report>, transmissions: nat, timer: Option<nat>)

  /** The delay before a retransmission, after a number of transmissions. */
  function RetryDelay(timebase: nat, transmissions: nat, random: nat): (delay: nat)
    requires timebase > 0
    ensures timebase <= delay < timebase * (1 + if transmissions + 1 > 3 then 3 else transmissions + 1)
  {
    var backoff := if transmissions + 1 > 3 then 3 else transmissions + 1;
    timebase + random % (backoff * timebase)
  }

  function Decided(v: MacView, n: nat, k: nat, status: Status, random: nat, timebase: nat): MacView
    requires n < |v.queues| && k < |v.queues[n]| && timebase > 0
  {
    var q, q' := v.queues[n], Dropped(v.queues[n], k);
    if Again(status, q[k], v.transmissions) then
      v.(timer := Some(RetryDelay(timebase, v.transmissions, random)))
    else
      MacView(v.queues[n := q'],
        if q' == [] then Without(v.neighbors, n) else v.neighbors,
        v.reports + [Report(q[k].client, status, v.transmissions)],
        if q' == [] then v.transmissions else 0,
        if q' == [] then None else Some(timebase))
  }

  function Reported(v: MacView, n: nat, number: nat, status: Status, random: nat, timebase: nat): MacView
    requires n < |v.queues| && timebase > 0
  {
    var v', k := v.(transmissions := Counted(status, v.transmissions)), Find(v.queues[n], number);
    if k == -1 then v' else Decided(v', n, k, status, random, timebase)
  }

  /** Packet k has left its queue, and its callback has heard the status and the counter; the others are as before. */
  ghost predicate Finished(v: MacView, v': MacView, n: nat, k: nat, status: Status, tx: nat, timebase: nat)
    requires n < |v.queues| && k < |v.queues[n]|
  {
    var q := v.queues[n];
    && |v'.queues| == |v.queues| && v'.queues[n] == q[..k] + q[k + 1..]
    && (forall j | 0 <= j < |v.queues| && j != n :: v'.queues[j] == v.queues[j])
    && v'.reports == v.reports + [Report(q[k].client, status, tx)]
    && if |q| == 1 then v'.neighbors == Without(v.neighbors, n) && v'.timer == None && v'.transmissions == tx
       else v'.neighbors == v.neighbors && v'.timer == Some(timebase) && v'.transmissions == 0
  }

  /** The packet waits for another try, at most three times the timebase longer than the least. */
  ghost predicate Retried(v: MacView, v': MacView, tx: nat, timebase: nat) {
    && v'.timer.Some? && timebase <= v'.timer.value < timebase * (1 + if tx + 1 > 3 then 3 else tx + 1)
    && v' == v.(transmissions := tx, timer := v'.timer)
  }

  /** What a report does, by its status and the tries that are left; a report on no packet in the queue is counted. */
  ghost predicate Answers(v: MacView, v': MacView, n: nat, number: nat, status: Status, timebase: nat)
    requires n < |v.queues|
  {
    var sent := status == TxOk || status == TxNoAck;
    var k, tx := Find(v.queues[n], number), if sent then (v.transmissions + 1) % 256 else v.transmissions;
    if k == -1 then v' == v.(transmissions := tx)
    else if (status == TxCollision || status == TxNoAck) && tx < v.queues[n][k].maxTransmissions then
      Retried(v, v', tx, timebase)
    else Finished(v, v', n, k, status, tx, timebase)
  }

  lemma ReportedAnswers(v: MacView, n: nat, number: nat, status: Status, random: nat, timebase: nat)
    requires n < |v.queues| && timebase > 0
    ensures Answers(v, Reported(v, n, number, status, random, timebase), n, number, status, timebase)
  {
    hide Without, RetryDelay, Retried, Finished, Find, Dropped;
    var k, tx := Find(v.queues[n], number), Counted(status, v.transmissions);
    DelayRetries(v, tx, random, timebase);
    if k != -1 { LeavesFinished(v, n, k, status, tx, timebase); }
  }

  lemma DelayRetries(v: MacView, tx: nat, random: nat, timebase: nat)
    requires timebase > 0
    ensures Retried(v, v.(transmissions := tx, timer := Some(RetryDelay(timebase, tx, random))), tx, timebase)
  {
    hide RetryDelay;
  }

  lemma LeavesFinished(v: MacView, n: nat, k: nat, status: Status, tx: nat, timebase: nat)
    requires n < |v.queues| && k < |v.queues[n]|
    ensures var q' := Dropped(v.queues[n], k);
      Finished(v, MacView(v.queues[n := q'],
                          if q' == [] then Without(v.neighbors, n) else v.neighbors,
                          v.reports + [Report(v.queues[n][k].client, status, tx)],
                          if q' == [] then tx else 0,
                          if q' == [] then None else Some(timebase)), n, k, status, tx, timebase)
  {
    hide Without;
  }

  /** Every delay within the bounds is drawn. */
  lemma RetrySpread(timebase: nat, transmissions: nat, delay: nat)
    requires timebase > 0
    requires timebase <= delay < timebase * (1 + if transmissions + 1 > 3 then 3 else transmissions + 1)
    ensures RetryDelay(timebase, transmissions, delay - timebase) == delay
  {
    var backoff := if transmissions + 1 > 3 then 3 else transmissions + 1;
    assert timebase * (1 + backoff) == timebase + backoff * timebase;
    DivMod(delay - timebase, 0, delay - timebase, backoff * timebase);
  }

  /** A report on a neighbour's first packet: it is not over its limit, and what is first then has tries left. */
  lemma ReportKeepsTries(
      v: MacView, counts: seq<nat>, n: nat, status: Status, random: nat, timebase: nat, counts': seq<nat>)
    requires AllTry(v.queues, counts) && n < |counts| == |counts'| && v.queues[n] != [] && timebase > 0
    requires v.transmissions == counts[n] && counts' == counts[n := counts'[n]]
    requires counts'[n] ==
      Decided(v.(transmissions := Counted(status, counts[n])), n, 0, status, random, timebase).transmissions
    ensures Counted(status, counts[n]) <= Cap(v.queues[n][0])
    ensures AllTry(
        Decided(v.(transmissions := Counted(status, counts[n])), n, 0, status, random, timebase).queues, counts')
  {
    DroppedShort(v.queues[n], 0);
  }

  /** struct neighbor_queue */
  class Neighbor {
    var addr: nat
    var transmissions: nat
    var collisions: nat
    var deferrals: nat
    var queue: seq<Packet>
    var timer: Option<nat>

    constructor ()
      ensures queue == [] && transmissions == 0
    {
      addr, transmissions, collisions, deferrals := 0, 0, 0, 0;
      queue, timer := [], None;
    }
  }

  method MakePool(max: nat) returns (pool: seq<Neighbor>)
    ensures |pool| == max && Distinct(pool)
    ensures forall j :: 0 <= j < max ==> fresh(pool[j]) && pool[j].queue == [] && pool[j].transmissions == 0
  {
    pool := [];
    while |pool| < max
      invariant |pool| <= max && Distinct(pool)
      invariant forall j :: 0 <= j < |pool| ==> fresh(pool[j]) && pool[j].queue == [] && pool[j].transmissions == 0
    {
      var n := new Neighbor();
      pool := pool + [n];
    }
  }

  class Mac {
    const pool: seq<Neighbor>
    const neighborMemb: array<bool>
    const packetMemb: array<bool>
    const metadataMemb: array<bool>
    const bufferCapacity: nat
    /** The check interval of the radio duty cycling layer, or what stands in for it. */
    const timebase: nat
    var buffers: nat
    var neighbors: seq<nat>
    var seqno: nat
    var reports: seq<Report>
    ghost var offered: multiset<nat>
    ghost var orderly: bool

    ghost function Queues(): seq<seq<Packet>>
      reads pool
    {
      seq(|pool|, i requires 0 <= i < |pool| reads pool => pool[i].queue)
    }

    ghost function View(n: nat): MacView
      reads this`neighbors, this`reports, pool
      requires n < |pool|
    {
      MacView(Queues(), neighbors, reports, pool[n].transmissions, pool[n].timer)
    }

    ghost predicate Storage()
      reads this`seqno
    {
      && Distinct(pool) && timebase > 0
      && neighborMemb.Length == |pool| && packetMemb.Length == metadataMemb.Length == bufferCapacity
      && neighborMemb != packetMemb && neighborMemb != metadataMemb && packetMemb != metadataMemb
      && seqno < 0x10000
    }

    /** Every listed neighbour has its own address and something to send; `hole` is one just being filled. */
    ghost predicate Listed(hole: int)
      reads this`neighbors, pool, neighborMemb
      requires neighborMemb.Length == |pool|
    {
      && Distinct(neighbors)
      && (forall n :: n in neighbors ==> n < |pool|)
      && (forall m, n :: m in neighbors && n in neighbors && pool[m].addr == pool[n].addr ==> m == n)
      && (forall n :: 0 <= n < |pool| ==> (n in neighbors <==> neighborMemb[n]))
      && (forall n :: 0 <= n < |pool| && n != hole ==> (n in neighbors <==> pool[n].queue != []))
    }

    /** The blocks in use are those of the packets in the queues. */
    ghost predicate Accounted()
      reads this`buffers, this`offered, this`reports, pool, packetMemb, metadataMemb
    {
      Stocked() && offered == Clients(reports) + Bags(Queues(), Client)
    }

    /**
     * Unless an acknowledgement jumped a queue at its limit, or a report came that was not of a first packet, all
     * first packets have tries left.
     */
    ghost predicate TriesLeft()
      reads this`orderly, pool
    {
      orderly ==> AllTry(Queues(), Counts())
    }

    ghost function Timers(): seq<Option<nat>>
      reads pool
    {
      seq(|pool|, i requires 0 <= i < |pool| reads pool => pool[i].timer)
    }

    ghost function Counts(): seq<nat>
      reads pool
    {
      seq(|pool|, i requires 0 <= i < |pool| reads pool => pool[i].transmissions)
    }

    ghost predicate Valid()
      reads this, pool, neighborMemb, packetMemb, metadataMemb
    {
      Storage() && Listed(-1) && Accounted() && TriesLeft()
    }

    lemma QueueAt(n: nat)
      requires n < |pool|
      ensures |Queues()| == |Counts()| == |pool| && Queues()[n] == pool[n].queue && Counts()[n] == pool[n].transmissions
    {}

    /** init */
    constructor (maxNeighbors: nat, maxPackets: nat, timebase: nat)
      requires timebase > 0
      ensures Valid() && |pool| == maxNeighbors && bufferCapacity == maxPackets && this.timebase == timebase
      ensures offered == multiset{} && reports == [] && neighbors == [] && orderly
      ensures fresh(neighborMemb) && fresh(packetMemb) && fresh(metadataMemb)
      ensures forall j :: 0 <= j < |pool| ==> fresh(pool[j]) && pool[j].queue == [] && pool[j].transmissions == 0
    {
      hide *;
      var made := MakePool(maxNeighbors);
      pool := made;
      neighborMemb := new bool[maxNeighbors](_ => false);
      packetMemb := new bool[maxPackets](_ => false);
      metadataMemb := new bool[maxPackets](_ => false);
      bufferCapacity, this.timebase, buffers, neighbors, seqno := maxPackets, timebase, 0, [], 0;
      reports, offered, orderly := [], multiset{}, true;
      new;
      Initial();
    }

    lemma Initial()
      requires Distinct(pool) && timebase > 0 && neighborMemb.Length == |pool|
      requires packetMemb.Length == metadataMemb.Length == bufferCapacity && buffers == 0
      requires neighborMemb != packetMemb && neighborMemb != metadataMemb && packetMemb != metadataMemb
      requires neighbors == [] && seqno == 0 && reports == [] && offered == multiset{}
      requires forall j :: 0 <= j < |pool| ==> pool[j].queue == [] && pool[j].transmissions == 0
      requires forall j :: 0 <= j < |pool| ==> !neighborMemb[j]
      requires forall j :: 0 <= j < bufferCapacity ==> !packetMemb[j]
      requires forall j :: 0 <= j < bufferCapacity ==> !metadataMemb[j]
      ensures Valid()
    {
      hide Bags, Length, Owned, AllTry, TryLeft, ShortTries, Clients;
      ghost var qs := Queues();
      NoClients();
      EmptyBags(qs, Block);
      EmptyBags(qs, Meta);
      EmptyBags(qs, Client);
      EmptyOwned(packetMemb[..]);
      EmptyOwned(metadataMemb[..]);
      EmptyTries(qs, Counts());
    }

    /** What the pools and the callbacks add up to. */
    lemma Balance()
      requires Valid()
      ensures |offered| == |reports| + Length(Queues())
      ensures InUse(packetMemb[..]) == InUse(metadataMemb[..]) == buffers == Length(Queues())
      ensures InUse(neighborMemb[..]) == |neighbors|
    {
      ClientsSize(reports);
      BagsSize(Queues(), Client);
      BagsSize(Queues(), Block);
      BagsSize(Queues(), Meta);
      OwnedSize(packetMemb[..], Bags(Queues(), Block));
      OwnedSize(metadataMemb[..], Bags(Queues(), Meta));
      forall s: nat ensures multiset(neighbors)[s] == if s < |pool| && neighborMemb[..][s] then 1 else 0 {
        DistinctOnce(neighbors, s);
      }
      OwnedSize(neighborMemb[..], multiset(neighbors));
    }

    /** neighbor_queue_from_addr */
    method NeighborFromAddress(addr: nat) returns (n: int)
      requires Storage() && Listed(-1)
      ensures n == -1 ==> forall m :: m in neighbors ==> pool[m].addr != addr
      ensures n != -1 ==> n in neighbors && pool[n].addr == addr
    {
      var i := 0;
      while i < |neighbors|
        invariant 0 <= i <= |neighbors|
        invariant forall m :: m in neighbors && m in neighbors[..i] ==> pool[m].addr != addr
      {
        assert neighbors[i] in neighbors && neighbors[..i + 1] == neighbors[..i] + [neighbors[i]];
        if pool[neighbors[i]].addr == addr {
          return neighbors[i];
        }
        i := i + 1;
      }
      assert neighbors[..i] == neighbors;
      return -1;
    }

    /** The blocks in use are those of the packets in the queues. */
    ghost predicate Stocked()
      reads this`buffers, pool, packetMemb, metadataMemb
    {
      StockedFor(Queues())
    }

    ghost predicate StockedFor(queues: seq<seq<Packet>>)
      reads this`buffers, packetMemb, metadataMemb
    {
      && Owned(packetMemb[..], Bags(queues, Block)) && Owned(metadataMemb[..], Bags(queues, Meta))
      && buffers == Length(queues) <= bufferCapacity
    }

    /** The first part of free_packet: the packet's blocks return to their pools. */
    method TakeOut(n: nat, k: nat)
      requires Storage() && Listed(-1) && Stocked() && n < |pool| && k < |pool[n].queue|
      modifies this`buffers, pool[n], packetMemb, metadataMemb
      ensures Listed(n) && n in neighbors
      ensures pool[n].addr == old(pool[n].addr) && pool[n].transmissions == old(pool[n].transmissions)
      ensures Stocked() && Queues() == old(Queues())[n := Dropped(old(pool[n].queue), k)]
      ensures Bags(old(Queues()), Client) == Bags(Queues(), Client) + multiset{old(pool[n].queue)[k].client}
    {
      hide Bags, Owned, Length, Dropped, Listed, Queues;
      var p := pool[n].queue[k];
      QueueAt(n);
      DropAll(Queues(), n, k, packetMemb[..], metadataMemb[..]);
      Shorten(n, k);
      buffers := buffers - 1;
      Free(metadataMemb, p.meta);
      Free(packetMemb, p.block);
      assert packetMemb[..] == old(packetMemb[..])[p.block := false];
      assert metadataMemb[..] == old(metadataMemb[..])[p.meta := false];
    }

    method Shorten(n: nat, k: nat)
      requires Storage() && Listed(-1) && n < |pool| && k < |pool[n].queue|
      modifies pool[n]
      ensures Listed(n) && n in neighbors
      ensures pool[n].addr == old(pool[n].addr) && pool[n].transmissions == old(pool[n].transmissions)
      ensures Queues() == old(Queues())[n := Dropped(old(pool[n].queue), k)]
    {
      hide Dropped;
      pool[n].queue := Dropped(pool[n].queue, k);
    }

    /** The second part: the neighbour starts over with its next packet, or goes when there is none. */
    method Proceed(n: nat)
      requires Storage() && Listed(n) && n in neighbors
      modifies this`neighbors, pool[n], neighborMemb
      ensures pool[n].addr == old(pool[n].addr) && pool[n].queue == old(pool[n].queue) && Queues() == old(Queues())
      ensures Storage() && Listed(-1)
      ensures pool[n].queue == [] ==>
        && neighbors == Without(old(neighbors), n) && pool[n].timer == None
        && pool[n].transmissions == old(pool[n].transmissions)
      ensures pool[n].queue != [] ==>
        && neighbors == old(neighbors) && pool[n].timer == Some(timebase)
        && pool[n].transmissions == pool[n].collisions == pool[n].deferrals == 0
    {
      if pool[n].queue != [] {
        pool[n].transmissions, pool[n].collisions, pool[n].deferrals := 0, 0, 0;
        pool[n].timer := Some(timebase);
      } else {
        pool[n].timer := None;
        WithoutKeeps(neighbors, n);
        neighbors := Without(neighbors, n);
        Free(neighborMemb, n);
      }
    }

    /** The packet that carries a sequence number, or -1. */
    method Locate(n: nat, number: nat) returns (k: int)
      requires n < |pool|
      ensures k == Find(pool[n].queue, number)
    {
      ghost var q := pool[n].queue;
      var i := 0;
      assert q[0..] == q;
      while i < |pool[n].queue|
        invariant 0 <= i <= |q|
        invariant Find(q, number) == if Find(q[i..], number) == -1 then -1 else i + Find(q[i..], number)
      {
        assert q[i..][0] == q[i] && q[i..][1..] == q[i + 1..];
        if pool[n].queue[i].seqno == number {
          return i;
        }
        i := i + 1;
      }
      return -1;
    }

    /** free_packet and then the packet's callback. */
    method Complete(n: nat, k: nat, status: Status, transmissions: nat)
      requires Storage() && Listed(-1) && Accounted() && n < |pool| && k < |pool[n].queue|
      modifies this`buffers, this`neighbors, this`reports, pool[n], packetMemb, metadataMemb, neighborMemb
      ensures Storage() && Listed(-1) && Accounted()
      ensures Queues() == old(Queues())[n := Dropped(old(pool[n].queue), k)]
      ensures reports == old(reports) + [Report(old(pool[n].queue)[k].client, status, transmissions)]
      ensures pool[n].addr == old(pool[n].addr)
      ensures pool[n].queue == [] ==>
        && neighbors == Without(old(neighbors), n) && pool[n].timer == None
        && pool[n].transmissions == old(pool[n].transmissions)
      ensures pool[n].queue != [] ==>
        && neighbors == old(neighbors) && pool[n].timer == Some(timebase)
        && pool[n].transmissions == pool[n].collisions == pool[n].deferrals == 0
    {
      hide Bags, Owned, Length, Dropped, Without, Clients, StockedFor, Listed, Queues;
      var client := pool[n].queue[k].client;
      TakeOut(n, k);
      Proceed(n);
      var r := Report(client, status, transmissions);
      ClientsMore(reports, r);
      reports := reports + [r];
    }

    /** The counters of packet_sent. */
    method CountStatus(n: nat, status: Status)
      requires Storage() && Listed(-1) && Accounted() && n < |pool|
      modifies pool[n]
      ensures Storage() && Listed(-1) && Accounted()
      ensures Queues() == old(Queues()) && pool[n].timer == old(pool[n].timer) && pool[n].addr == old(pool[n].addr)
      ensures pool[n].transmissions == Counted(status, old(pool[n].transmissions))
    {
      hide Bags, Owned, Length, Clients;
      match status {
        case TxOk | TxNoAck =>
          pool[n].transmissions := (pool[n].transmissions + 1) % 256;
        case TxCollision =>
          pool[n].collisions := (pool[n].collisions + 1) % 256;
        case TxDeferred =>
          pool[n].deferrals := (pool[n].deferrals + 1) % 256;
        case _ =>
      }
      assert Queues() == old(Queues());
    }

    /** The part of packet_sent for the packet the report is about. */
    method Decide(n: nat, k: nat, status: Status, random: nat)
      requires Storage() && Listed(-1) && Accounted() && n < |pool| && k < |pool[n].queue|
      modifies this`buffers, this`neighbors, this`reports, pool[n], packetMemb, metadataMemb, neighborMemb
      ensures Storage() && Listed(-1) && Accounted()
      ensures View(n) == Decided(old(View(n)), n, k, status, random, timebase) && pool[n].addr == old(pool[n].addr)
    {
      hide Bags, Owned, Length, Without, Clients, Dropped;
      ghost var qs := Queues();
      var p, tx := pool[n].queue[k], pool[n].transmissions;
      assert qs[n] == pool[n].queue;
      if status == TxCollision || status == TxNoAck {
        var time := RetryDelay(timebase, tx, random);
        if tx < p.maxTransmissions {
          pool[n].timer := Some(time);
          assert Queues() == qs;
        } else {
          Complete(n, k, status, tx);
          assert Queues()[n] == pool[n].queue;
        }
      } else {
        Complete(n, k, status, tx);
        assert Queues()[n] == pool[n].queue;
      }
    }

    /**
     * packet_sent: a packet that met a collision or no acknowledgement is tried again while it has tries left;
     * otherwise, and on every other outcome, its callback is called and it is gone. An orderly report is of a
     * first packet, which then has not been transmitted more often than it may.
     */
    method PacketSent(n: nat, status: Status, number: nat, random: nat)
      requires Valid() && n < |pool|
      modifies this, pool, packetMemb, metadataMemb, neighborMemb
      ensures Valid() && offered == old(offered)
      ensures Answers(old(View(n)), View(n), n, number, status, timebase)
      ensures View(n) == Reported(old(View(n)), n, number, status, random, timebase)
      ensures Counts() == old(Counts())[n := pool[n].transmissions]
      ensures forall j :: 0 <= j < |pool| && j != n ==> pool[j].timer == old(pool[j].timer)
      ensures forall j :: 0 <= j < |pool| ==> pool[j].addr == old(pool[j].addr)
      ensures orderly == (old(orderly) && Find(old(pool[n].queue), number) == 0)
      ensures orderly ==> Counted(status, old(pool[n].transmissions)) <= Cap(old(pool[n].queue)[0])
    {
      hide Bags, Owned, Length, Without, Clients, Dropped, AllTry, Cap, Find, Decided, Accounted, Listed, Stocked,
        Storage, Answers;
      ghost var v, cs := View(n), Counts();
      assert v.queues[n] == pool[n].queue && v.transmissions == cs[n];
      var at := Handle(n, status, number, random);
      ReportedAnswers(v, n, number, status, random, timebase);
      if orderly && at == 0 {
        ReportKeepsTries(v, cs, n, status, random, timebase, Counts());
      }
      orderly := orderly && at == 0;
    }

    /** The body of packet_sent; it tells where in its queue the packet was. */
    method Handle(n: nat, status: Status, number: nat, random: nat) returns (k: int)
      requires Storage() && Listed(-1) && Accounted() && n < |pool|
      modifies this`buffers, this`neighbors, this`reports, pool[n], packetMemb, metadataMemb, neighborMemb
      ensures Storage() && Listed(-1) && Accounted()
      ensures View(n) == Reported(old(View(n)), n, number, status, random, timebase)
        && pool[n].addr == old(pool[n].addr)
      ensures k == Find(old(pool[n].queue), number) && timebase > 0
      ensures Counts() == old(Counts())[n := pool[n].transmissions]
      ensures forall j :: 0 <= j < |pool| && j != n ==> pool[j].timer == old(pool[j].timer)
    {
      hide Bags, Owned, Length, Without, Clients, Dropped, Find, Decided, Stocked, Accounted, Listed;
      ghost var v := View(n);
      assert v.queues[n] == pool[n].queue;
      CountStatus(n, status);
      assert View(n) == v.(transmissions := Counted(status, v.transmissions)) && Queues()[n] == pool[n].queue;
      k := Locate(n, number);
      if k != -1 {
        Decide(n, k, status, random);
      }
    }

    /** Whether a neighbour with an address is listed. */
    ghost predicate Knows(addr: nat)
      reads this`neighbors, pool
    {
      exists n :: n in neighbors && n < |pool| && pool[n].addr == addr
    }

    /** A block for the neighbour, and its place on the list, if it is new. */
    method FindNeighbor(addr: nat) returns (n: int)
      requires Storage() && Listed(-1) && Stocked()
      modifies this`neighbors, pool, neighborMemb
      ensures Storage() && Listed(n) && Stocked() && Queues() == old(Queues())
      ensures n == -1 <==> !old(Knows(addr)) && old(|neighbors|) == |pool|
      ensures old(|neighbors|) <= |pool| && Timers() == old(Timers())
      ensures n == -1 ==> neighbors == old(neighbors) && Counts() == old(Counts()) && Listed(-1)
      ensures n != -1 ==> n in neighbors && 0 <= n < |pool| && pool[n].addr == addr
      ensures n != -1 && old(Knows(addr)) ==>
        neighbors == old(neighbors) && Listed(-1) && Counts() == old(Counts()) && pool[n].queue != []
      ensures n != -1 && !old(Knows(addr)) ==>
        n !in old(neighbors) && neighbors == old(neighbors) + [n] && pool[n].queue == []
          && Counts() == old(Counts())[n := 0]
    {
      ListedSize();
      n := NeighborFromAddress(addr);
      if n == -1 {
        n := AddNeighbor(addr);
      }
    }

    method AddNeighbor(addr: nat) returns (n: int)
      requires Storage() && Listed(-1) && Stocked() && !Knows(addr)
      modifies this`neighbors, pool, neighborMemb
      ensures Storage() && Listed(n) && Stocked() && Queues() == old(Queues())
      ensures n == -1 <==> old(|neighbors|) == |pool|
      ensures Timers() == old(Timers())
      ensures n == -1 ==> neighbors == old(neighbors) && Counts() == old(Counts()) && Listed(-1)
      ensures n != -1 ==>
        && n in neighbors && 0 <= n < |pool| && pool[n].addr == addr
        && n !in old(neighbors) && neighbors == old(neighbors) + [n] && pool[n].queue == []
           && Counts() == old(Counts())[n := 0]
    {
      hide StockedFor, Queues, Counts, Timers;
      ListedSize();
      n := Alloc(neighborMemb);
      if n != -1 {
        QueueAt(n);
        StartOver(n, addr);
        neighbors := neighbors + [n];
      }
    }

    /** The fields of a neighbour that was just allocated. */
    method StartOver(n: nat, addr: nat)
      requires n < |pool| && Distinct(pool) && pool[n].queue == []
      modifies pool[n]
      ensures pool[n].addr == addr && pool[n].queue == []
      ensures |Counts()| == |pool| && Queues() == old(Queues()) && Counts() == old(Counts())[n := 0]
      ensures Timers() == old(Timers())
    {
      pool[n].addr := addr;
      pool[n].transmissions, pool[n].collisions, pool[n].deferrals := 0, 0, 0;
      pool[n].queue := [];
      assert Queues() == old(Queues()) && Timers() == old(Timers());
    }

    /** A block for the packet, one for its metadata, and a queue buffer: all three or none. */
    method TakeBlocks() returns (block: int, meta: int)
      requires Storage()
      modifies this`buffers, packetMemb, metadataMemb
      ensures Storage()
      ensures block != -1 <==>
        !AllTaken(old(packetMemb[..])) && !AllTaken(old(metadataMemb[..])) && old(buffers) < bufferCapacity
      ensures block == -1 ==>
        packetMemb[..] == old(packetMemb[..]) && metadataMemb[..] == old(metadataMemb[..]) && buffers == old(buffers)
      ensures block != -1 ==>
        && 0 <= block < packetMemb.Length && !old(packetMemb[..])[block]
        && packetMemb[..] == old(packetMemb[..])[block := true]
        && 0 <= meta < metadataMemb.Length && !old(metadataMemb[..])[meta]
        && metadataMemb[..] == old(metadataMemb[..])[meta := true]
        && buffers == old(buffers) + 1
    {
      meta := -1;
      block := Alloc(packetMemb);
      if block != -1 {
        meta := Alloc(metadataMemb);
        if meta != -1 {
          if buffers < bufferCapacity {
            buffers := buffers + 1;
            return;
          }
          Free(metadataMemb, meta);
        }
        Free(packetMemb, block);
        block := -1;
      }
    }

    /** The blocks are there unless as many packets are queued as there can be. */
    method TakeForPacket() returns (block: int, meta: int)
      requires Storage() && Stocked()
      modifies this`buffers, packetMemb, metadataMemb
      ensures Storage() && Queues() == old(Queues()) && (block == -1 ==> Stocked())
      ensures block != -1 <==> Length(old(Queues())) < bufferCapacity
      ensures block != -1 ==>
        && 0 <= block < packetMemb.Length && !old(packetMemb[..])[block]
        && packetMemb[..] == old(packetMemb[..])[block := true]
        && 0 <= meta < metadataMemb.Length && !old(metadataMemb[..])[meta]
        && metadataMemb[..] == old(metadataMemb[..])[meta := true]
        && buffers == old(buffers) + 1
    {
      RunOutTogether();
      hide Owned, Bags, Length, AllTaken;
      block, meta := TakeBlocks();
    }

    /** The three pools run out together, exactly when that many packets are queued. */
    lemma RunOutTogether()
      requires Storage() && Stocked()
      ensures AllTaken(packetMemb[..]) <==> Length(Queues()) == bufferCapacity
      ensures AllTaken(metadataMemb[..]) <==> Length(Queues()) == bufferCapacity
      ensures buffers < bufferCapacity <==> Length(Queues()) != bufferCapacity
    {
      OwnedSize(packetMemb[..], Bags(Queues(), Block));
      OwnedSize(metadataMemb[..], Bags(Queues(), Meta));
      BagsSize(Queues(), Block);
      BagsSize(Queues(), Meta);
      FullExactly(packetMemb[..]);
      FullExactly(metadataMemb[..]);
    }

    /** The packet joins the queue, at its front if it is an acknowledgement, and is sent at once if it is first. */
    method Enqueue(n: nat, p: Packet, ack: bool)
      requires Storage() && Listed(n) && n in neighbors && n < |pool|
      requires pool[n].queue != [] ==> pool[n].queue[0].block != p.block
      requires StockedFor(Queues()[n := Joined(pool[n].queue, p, ack)])
      modifies pool[n]
      ensures Listed(-1) && Stocked()
      ensures Queues() == old(Queues())[n := Joined(old(pool[n].queue), p, ack)]
      ensures pool[n].addr == old(pool[n].addr) && Counts() == old(Counts())
      ensures |Timers()| == |pool|
      ensures Timers() == if ack || old(pool[n].queue) == [] then old(Timers())[n := Some(0)] else old(Timers())
    {
      hide Owned, Bags, Length, StockedFor, Listed, Joined, Queues, Counts;
      QueueAt(n);
      JoinedSome(pool[n].queue, p, ack);
      Append(n, p, ack);
      if pool[n].queue[0].block == p.block {
        SendNow(n);
      }
    }

    method Append(n: nat, p: Packet, ack: bool)
      requires Storage() && Listed(n) && n in neighbors && n < |pool|
      modifies pool[n]
      ensures Listed(-1) && Queues() == old(Queues())[n := Joined(old(pool[n].queue), p, ack)]
      ensures Counts() == old(Counts()) && pool[n].addr == old(pool[n].addr) && Timers() == old(Timers())
      ensures pool[n].queue == Joined(old(pool[n].queue), p, ack)
    {
      if ack {
        pool[n].queue := [p] + pool[n].queue;
      } else {
        pool[n].queue := pool[n].queue + [p];
      }
      assert Counts() == old(Counts()) && Timers() == old(Timers());
    }

    method SendNow(n: nat)
      requires Storage() && Listed(-1) && n < |pool|
      modifies pool[n]
      ensures Listed(-1) && Queues() == old(Queues()) && Counts() == old(Counts())
      ensures pool[n].queue == old(pool[n].queue) && pool[n].addr == old(pool[n].addr)
      ensures |Timers()| == |pool| && Timers() == old(Timers())[n := Some(0)]
    {
      pool[n].timer := Some(0);
      assert Counts() == old(Counts()) && Timers() == old(Timers())[n := Some(0)];
    }

    lemma Stocks(queues: seq<seq<Packet>>)
      requires Owned(packetMemb[..], Bags(queues, Block)) && Owned(metadataMemb[..], Bags(queues, Meta))
      requires buffers == Length(queues) <= bufferCapacity
      ensures StockedFor(queues)
    {}

    lemma PacketReady(n: nat)
      requires Storage() && Stocked() && n < |pool|
      ensures |Queues()| == |Timers()| == |pool| && Queues()[n] == pool[n].queue && Stocked() == StockedFor(Queues())
      ensures packetMemb.Length == metadataMemb.Length == bufferCapacity && buffers == Length(Queues())
      ensures neighborMemb != packetMemb && neighborMemb != metadataMemb && packetMemb != metadataMemb
      ensures Owned(packetMemb[..], Bags(Queues(), Block)) && Owned(metadataMemb[..], Bags(Queues(), Meta))
    {
      hide Owned, Bags, Length;
    }

    /** The middle of send_packet: the packet gets its blocks and joins its neighbour's queue. */
    method QueuePacket(n: nat, number: nat, limit: nat, client: nat, ack: bool) returns (queued: bool, ghost p: Packet)
      requires Storage() && Stocked() && Listed(n) && n in neighbors && n < |pool|
      modifies this`buffers, pool[n], packetMemb, metadataMemb
      ensures queued ==> Listed(-1)
      ensures !queued ==> Listed(n) && (old(Listed(-1)) ==> Listed(-1))
      ensures Storage() && Stocked() && Counts() == old(Counts()) && pool[n].addr == old(pool[n].addr)
      ensures queued <==> Length(old(Queues())) < bufferCapacity
      ensures !queued ==> Queues() == old(Queues())
      ensures queued ==>
        && p.seqno == number && p.client == client && p.maxTransmissions == limit
        && Queues() == old(Queues())[n := Joined(old(pool[n].queue), p, ack)]
        && Bags(Queues(), Client) == Bags(old(Queues()), Client) + multiset{client}
        && |Timers()| == |pool|
        && Timers() == (if ack || old(pool[n].queue) == [] then old(Timers())[n := Some(0)] else old(Timers()))
      ensures !queued ==> Timers() == old(Timers())
    {
      hide *;
      ghost var qs := Queues();
      PacketReady(n);
      var block, meta := TakeForPacket();
      p := Packet(0, 0, number, limit, client);
      queued := block != -1;
      assert Queues() == qs;
      if queued {
        var packet := Packet(block, meta, number, limit, client);
        p := packet;
        Supply(qs, n, p, ack, old(packetMemb[..]), old(metadataMemb[..]));
        Stocks(qs[n := Joined(qs[n], p, ack)]);
        Enqueue(n, packet, ack);
      }
    }

    /** What is left of send_packet when there is no block: a neighbour that was listed for it leaves again. */
    method Refuse(n: nat)
      requires Storage() && Listed(n) && Stocked() && n in neighbors
      requires pool[n].queue != [] ==> Listed(-1)
      modifies this`neighbors, neighborMemb
      ensures Storage() && Listed(-1)
      ensures neighbors == if pool[n].queue == [] then Without(old(neighbors), n) else old(neighbors)
    {
      if |pool[n].queue| == 0 {
        WithoutKeeps(neighbors, n);
        neighbors := Without(neighbors, n);
        Free(neighborMemb, n);
      }
    }

    /** The next sequence number, never zero. */
    method NextNumber() returns (number: nat)
      requires Storage()
      modifies this`seqno
      ensures Storage() && 0 < number < 0x10000 && number == (if old(seqno) == 0 then 1 else old(seqno))
      ensures seqno == (number + 1) % 0x10000
    {
      if seqno == 0 {
        seqno := seqno + 1;
      }
      number := seqno;
      seqno := (seqno + 1) % 0x10000;
    }

    /** The packet joins its neighbour's queue, if the pools allow. */
    method Offer(addr: nat, number: nat, limit: nat, client: nat, ack: bool)
        returns (queued: bool, ghost n: int, ghost p: Packet)
      requires Storage() && Listed(-1) && Stocked()
      modifies this`buffers, this`neighbors, pool, packetMemb, metadataMemb, neighborMemb
      ensures Storage() && Listed(-1) && Stocked()
      ensures queued <==>
        (old(Knows(addr)) || old(|neighbors|) < |pool|) && Length(old(Queues())) < bufferCapacity
      ensures !queued ==> Queues() == old(Queues()) && neighbors == old(neighbors)
      ensures queued ==>
        && 0 <= n < |pool| && pool[n].addr == addr
        && neighbors == (if old(Knows(addr)) then old(neighbors) else old(neighbors) + [n])
        && p.client == client && p.maxTransmissions == limit && p.seqno == number
        && Queues() == old(Queues())[n := Joined(old(Queues())[n], p, ack)]
        && Bags(Queues(), Client) == Bags(old(Queues()), Client) + multiset{client}
      ensures |Timers()| == |pool|
      ensures Timers() ==
        if queued && (ack || old(Queues())[n] == []) then old(Timers())[n := Some(0)] else old(Timers())
      ensures Counts() == old(Counts()) ||
        (0 <= n < |pool| && old(Queues())[n] == [] && Counts() == old(Counts())[n := 0])
      ensures queued && old(Queues())[n] == [] ==> Counts()[n] == 0
    {
      hide Bags, Owned, Length, Stocked, Joined, Knows, Without, Distinct, Listed;
      ghost var ns := neighbors;
      n, p, queued := -1, Packet(0, 0, 0, 0, 0), false;
      var m := FindNeighbor(addr);
      if m != -1 {
        n := m;
        assert old(Queues())[m] == Queues()[m] == pool[m].queue;
        queued, p := QueuePacket(m, number, limit, client, ack);
        assert Queues()[m] == pool[m].queue;
        JoinedSome(old(Queues())[m], p, ack);
        if !queued {
          AppendRemoved(ns, m);
          Refuse(m);
        }
      }
    }

    /** The body of send_packet. */
    method Submit(addr: nat, client: nat, attribute: nat, ack: bool)
        returns (queued: bool, ghost n: int, ghost p: Packet)
      requires Storage() && Listed(-1) && Accounted()
      modifies this`seqno, this`buffers, this`neighbors, this`reports, this`offered, pool, packetMemb, metadataMemb,
        neighborMemb
      ensures Storage() && Listed(-1) && Accounted() && offered == old(offered) + multiset{client}
      ensures queued <==>
        (old(Knows(addr)) || old(|neighbors|) < |pool|) && Length(old(Queues())) < bufferCapacity
      ensures !queued ==>
        && Queues() == old(Queues()) && neighbors == old(neighbors)
        && reports == old(reports) + [Report(client, TxErr, 1)]
      ensures queued ==>
        && 0 <= n < |pool| && pool[n].addr == addr && reports == old(reports)
        && neighbors == (if old(Knows(addr)) then old(neighbors) else old(neighbors) + [n])
        && p.client == client && p.maxTransmissions == Limit(attribute)
        && p.seqno == (if old(seqno) == 0 then 1 else old(seqno)) < 0x10000
        && Queues() == old(Queues())[n := Joined(old(Queues())[n], p, ack)]
      ensures seqno == ((if old(seqno) == 0 then 1 else old(seqno)) + 1) % 0x10000 && |Timers()| == |pool|
      ensures Timers() ==
        if queued && (ack || old(Queues())[n] == []) then old(Timers())[n := Some(0)] else old(Timers())
      ensures Counts() == old(Counts()) ||
        (0 <= n < |pool| && old(Queues())[n] == [] && Counts() == old(Counts())[n := 0])
      ensures queued && old(Queues())[n] == [] ==> Counts()[n] == 0
    {
      hide Bags, Owned, Length, Stocked, Joined, Clients, Listed, Limit, Distinct, Knows, Queues, Counts;
      var number := NextNumber();
      queued, n, p := Offer(addr, number, Limit(attribute), client, ack);
      Answer(queued, client);
    }

    static lemma OneMore(all: multiset<nat>, a: multiset<nat>, b: multiset<nat>, x: nat)
      requires all + multiset{} == a + b
      ensures all + multiset{x} == a + multiset{x} + b
    {
      assert all == a + b;
    }

    /** The end of send_packet: a packet that was not queued is reported at once. */
    method Answer(queued: bool, client: nat)
      requires Stocked()
      requires offered + (if queued then multiset{client} else multiset{}) == Clients(reports) + Bags(Queues(), Client)
      modifies this`reports, this`offered
      ensures Accounted() && offered == old(offered) + multiset{client}
      ensures reports == if queued then old(reports) else old(reports) + [Report(client, TxErr, 1)]
    {
      hide Bags, Stocked, Clients, Queues;
      if !queued {
        var r := Report(client, TxErr, 1);
        ClientsMore(reports, r);
        OneMore(offered, Clients(reports), Bags(Queues(), Client), client);
        reports := reports + [r];
      }
      offered := offered + multiset{client};
    }

    /**
     * send_packet: a packet is queued exactly if its neighbour is known or there is a block for a new one, and not
     * all the packets' blocks are queued; otherwise its callback hears of an error at once.
     */
    method SendPacket(addr: nat, client: nat, attribute: nat, ack: bool)
        returns (queued: bool, ghost n: int, ghost p: Packet)
      requires Valid() && attribute < 0x10000
      modifies this, pool, packetMemb, metadataMemb, neighborMemb
      ensures Valid() && offered == old(offered) + multiset{client}
      ensures queued <==>
        (old(Knows(addr)) || old(|neighbors|) < |pool|) && Length(old(Queues())) < bufferCapacity
      ensures !queued ==>
        && Queues() == old(Queues()) && neighbors == old(neighbors)
        && reports == old(reports) + [Report(client, TxErr, 1)]
      ensures queued ==>
        && 0 <= n < |pool| && pool[n].addr == addr && reports == old(reports)
        && neighbors == (if old(Knows(addr)) then old(neighbors) else old(neighbors) + [n])
        && p.client == client && p.maxTransmissions == Limit(attribute)
        && p.seqno == (if old(seqno) == 0 then 1 else old(seqno)) < 0x10000
        && Queues() == old(Queues())[n := Joined(old(Queues())[n], p, ack)]
      ensures seqno == ((if old(seqno) == 0 then 1 else old(seqno)) + 1) % 0x10000 && |Timers()| == |pool|
      ensures Timers() ==
        if queued && (ack || old(Queues())[n] == []) then old(Timers())[n := Some(0)] else old(Timers())
      ensures Counts() == old(Counts()) ||
        (0 <= n < |pool| && old(Queues())[n] == [] && Counts() == old(Counts())[n := 0])
      ensures queued && old(Queues())[n] == [] ==> Counts()[n] == 0
      ensures queued ==> p.maxTransmissions == if attribute == 0 then 3 else attribute % 256
      ensures queued ==> pool[n].queue == if ack then [p] + old(pool[n].queue) else old(pool[n].queue) + [p]
      // the first packets keep tries left, but for an acknowledgement pushed where its limit is already reached
      ensures orderly ==
        (old(orderly) && !(queued && ack && old(Queues())[n] != [] && old(Counts())[n] >= Cap(p)))
      ensures old(orderly) ==> (orderly <==> AllTry(Queues(), Counts()))
    {
      hide Bags, Owned, Length, Stocked, Joined, Clients, Listed, AllTry, Limit, Cap, Accounted, Storage, Knows;
      ghost var qs, cs := Queues(), Counts();
      queued, n, p := Submit(addr, client, attribute, ack);
      if queued {
        LimitShort(p, attribute);
        assert qs[n] == old(pool[n].queue) && Queues()[n] == pool[n].queue;
        JoinedIs(qs[n], p, ack);
      }
      if orderly {
        if !queued {
          EmptyKeepsTries(qs, cs, n, Counts());
        } else {
          if ack && qs[n] != [] {
            PushKeepsTries(qs, cs, n, p);
            orderly := cs[n] < Cap(p);
          } else {
            JoinKeepsTries(qs, cs, n, p, ack, Counts());
          }
        }
      }
    }

    /** A full pool of neighbours has them all on the list. */
    lemma ListedSize()
      requires Storage() && Listed(-1)
      ensures |neighbors| <= |pool| && (AllTaken(neighborMemb[..]) <==> |neighbors| == |pool|)
    {
      forall s: nat ensures multiset(neighbors)[s] == if s < |pool| && neighborMemb[..][s] then 1 else 0 {
        DistinctOnce(neighbors, s);
      }
      OwnedSize(neighborMemb[..], multiset(neighbors));
      FullExactly(neighborMemb[..]);
    }
  }

  lemma {:induction false} DistinctOnce(s: seq<nat>, x: nat)
    requires Distinct(s)
    ensures multiset(s)[x] == if x in s then 1 else 0
  {
    if s != [] {
      assert s == [s[0]] + s[1..];
      DistinctOnce(s[1..], x);
    }
  }
}
