/**
 * Runs of the CSMA layer (csma.c): packets are reported once and then gone, and an acknowledgement is pushed in front
 * of a packet that has already failed.
 */
module CsmaRun {
  import opened Wrappers
  import opened CsmaPackets
  import opened Csma

  /** There is room for one neighbour, of address 7, and two packets, and this is the neighbour's queue. */
  ghost predicate Alone(m: Mac, q: seq<Packet>, transmissions: nat)
    reads m, m.pool, m.neighborMemb, m.packetMemb, m.metadataMemb
  {
    && m.Valid() && |m.pool| == 1 && m.bufferCapacity == 2 && m.timebase == 1
    && m.Queues() == [q] && m.Counts() == [transmissions]
    && (if q == [] then m.neighbors == [] else m.Knows(7))
  }

  method Send(m: Mac, client: nat, limit: nat, ack: bool, ghost q: seq<Packet>, ghost tx: nat) returns (ghost p: Packet)
    requires Alone(m, q, tx) && |q| <= 1 && 1 <= limit <= 255 && (q == [] ==> tx == 0)
    modifies m, m.pool, m.neighborMemb, m.packetMemb, m.metadataMemb
    ensures Alone(m, Joined(q, p, ack), tx) && p.client == client && p.maxTransmissions == limit
    ensures m.reports == old(m.reports)
    ensures m.orderly == (old(m.orderly) && !(ack && q != [] && tx >= limit))
  {
    hide Bags, Owned, AllTry;
    OneQueue(q);
    ghost var n;
    var queued;
    queued, n, p := m.SendPacket(7, client, limit, ack);
    assert m.Queues() == [Joined(q, p, ack)];
    assert m.Counts() == [tx] by { assert |m.Counts()| == 1; }
    assert m.pool[0].queue == m.Queues()[0];
  }

  method Fail(m: Mac, ghost q: seq<Packet>, ghost tx: nat)
    requires Alone(m, q, tx) && q != [] && tx <= 254
    modifies m, m.pool, m.neighborMemb, m.packetMemb, m.metadataMemb
    ensures m.orderly == old(m.orderly)
    ensures m.Valid()
    ensures if tx + 1 < q[0].maxTransmissions then Alone(m, q, tx + 1) && m.reports == old(m.reports)
      else m.reports == old(m.reports) + [Report(q[0].client, TxNoAck, tx + 1)]
  {
    hide *;
    AloneMeans(m, q, tx);
    FirstReported(m.View(0), TxNoAck, 0, 1);
    FailedStays(m.View(0), q, tx);
    m.PacketSent(0, TxNoAck, m.pool[0].queue[0].seqno, 0);
    AloneAgain(m, q, tx + 1);
  }

  lemma AloneMeans(m: Mac, q: seq<Packet>, transmissions: nat)
    requires Alone(m, q, transmissions)
    ensures m.Valid() && |m.pool| == 1 && m.bufferCapacity == 2 && m.timebase == 1 && m.pool[0].queue == q
    ensures var v := m.View(0);
      v.queues == [q] && v.transmissions == transmissions && v.reports == m.reports && v.neighbors == m.neighbors
    ensures m.Counts() == [transmissions] && (q != [] ==> m.pool[0].addr == 7 && 0 in m.neighbors)
  {
    hide Mac.Valid;
    assert m.Queues()[0] == m.pool[0].queue && m.Counts()[0] == m.pool[0].transmissions;
  }

  lemma AloneAgain(m: Mac, q: seq<Packet>, transmissions: nat)
    requires m.Valid() && |m.pool| == 1 && m.bufferCapacity == 2 && m.timebase == 1 && q != []
    ensures var v := m.View(0);
      v.queues == [q] && v.transmissions == transmissions && m.pool[0].addr == 7 && 0 in m.neighbors ==>
        Alone(m, q, transmissions)
    ensures m.View(0).reports == m.reports && m.View(0).neighbors == m.neighbors
  {
    hide Mac.Valid;
    assert |m.Counts()| == 1 && m.Counts()[0] == m.pool[0].transmissions;
  }

  /** What FirstReported says for a packet that was not acknowledged. */
  lemma FailedStays(v: MacView, q: seq<Packet>, tx: nat)
    requires v.queues == [q] && q != [] && v.transmissions == tx <= 254
    ensures Again(TxNoAck, q[0], Counted(TxNoAck, tx)) <==> tx + 1 < q[0].maxTransmissions
    ensures Counted(TxNoAck, tx) == tx + 1
  {}

  method Start() returns (m: Mac)
    ensures Alone(m, [], 0) && m.reports == [] && m.orderly
    ensures fresh(m) && fresh(m.pool) && fresh(m.neighborMemb) && fresh(m.packetMemb) && fresh(m.metadataMemb)
  {
    m := new Mac(1, 2, 1);
    assert |m.Queues()| == 1 && |m.Counts()| == 1;
  }

  /**
   * A packet fails a number of times, an acknowledgement with its own limit is pushed in front of it, and fails until
   * it is given up. It is sent as many times as its limit is above the failures counted before, and once if it is not;
   * and its callback is told of transmissions that were not its own.
   */
  method PushAfterFailures(failures: nat, limit: nat) returns (m: Mac, tries: nat)
    requires failures <= 254 && 1 <= limit <= 255
    ensures m.Valid() && fresh(m)
    ensures tries == if limit > failures then limit - failures else 1
    ensures m.reports == [Report(2, TxNoAck, failures + tries)]
    ensures m.orderly <==> failures < limit
  {
    hide *;
    m := Start();
    ghost var p := Send(m, 1, failures + 1, false, [], 0);
    ghost var q := Joined([], p, false);
    JoinedFirst([], p, false);
    var i := 0;
    while i < failures
      invariant 0 <= i <= failures && m.orderly && Alone(m, q, i) && m.reports == []
    {
      Fail(m, q, i);
      i := i + 1;
    }
    ghost var ack := Send(m, 2, limit, true, q, failures);
    JoinedFirst(q, ack, true);
    ghost var both := Joined(q, ack, true);
    tries := 1;
    Fail(m, both, failures);
    while failures + tries < limit
      invariant tries > 0 && (m.orderly <==> failures < limit)
      invariant failures + tries <= limit || tries == 1
      invariant if failures + tries < limit then Alone(m, both, failures + tries) && m.reports == []
        else m.Valid() && m.reports == [Report(2, TxNoAck, failures + tries)]
    {
      Fail(m, both, failures + tries);
      tries := tries + 1;
    }
  }

  lemma JoinedFirst(q: seq<Packet>, p: Packet, front: bool)
    requires front || q == []
    ensures |Joined(q, p, front)| == |q| + 1 && Joined(q, p, front)[0] == p
  {}

  lemma OneQueue(q: seq<Packet>)
    ensures Length([q]) == |q|
  {
    assert [q][1..] == [];
  }

  /** A report of the sequence number of a queue's first packet. */
  lemma FirstReported(v: MacView, status: Status, random: nat, timebase: nat)
    requires |v.queues| == 1 && v.queues[0] != [] && timebase > 0
    ensures Find(v.queues[0], v.queues[0][0].seqno) == 0
    ensures var p, tx := v.queues[0][0], Counted(status, v.transmissions);
      var after := Reported(v, 0, p.seqno, status, random, timebase);
      if Again(status, p, tx) then after == v.(transmissions := tx, timer := Some(RetryDelay(timebase, tx, random)))
      else after.reports == v.reports + [Report(p.client, status, tx)]
  {}

  /** A packet is offered, or the radio duty cycling layer reports on a transmission to a neighbour. */
  datatype Event =
    | Offered(addr: nat, client: nat, attribute: nat, ack: bool)
    | Sent(n: nat, status: Status, number: nat, random: nat)

  datatype Moment = Moment(queues: seq<seq<Packet>>, reports: seq<Report>, offered: multiset<nat>)

  ghost function MomentOf(m: Mac): Moment
    reads m, m.pool
  {
    Moment(m.Queues(), m.reports, m.offered)
  }

  /** Every packet offered is waiting or reported. */
  ghost predicate Balanced(x: Moment) { x.offered == Clients(x.reports) + Bags(x.queues, Client) }

  /** Callbacks are not taken back. */
  ghost predicate Later(x: Moment, y: Moment) { x.reports <= y.reports && x.offered <= y.offered }

  /** The report is of a packet in the queue and is the last one: it was sent, or cannot be. */
  ghost predicate Ends(e: Event, x: Moment) {
    && e.Sent? && e.n < |x.queues| && Find(x.queues[e.n], e.number) != -1
    && e.status != TxCollision && e.status != TxNoAck
  }

  /** The client of the packet that it is of. */
  ghost function ClientOf(e: Event, x: Moment): nat
    requires Ends(e, x)
  {
    x.queues[e.n][Find(x.queues[e.n], e.number)].client
  }

  /** Then one callback is made, with its status. */
  ghost predicate Told(e: Event, x: Moment, y: Moment) {
    Ends(e, x) ==>
      && |y.reports| == |x.reports| + 1 && x.reports <= y.reports
      && y.reports[|x.reports|].client == ClientOf(e, x) && y.reports[|x.reports|].status == e.status
  }

  ghost predicate Waits(queues: seq<seq<Packet>>, client: nat) {
    exists n: nat, k: nat | n < |queues| && k < |queues[n]| :: queues[n][k].client == client
  }

  /** From then on the packet is not in any queue, and its callback is not called again. */
  ghost predicate Over(ms: seq<Moment>, i: nat, client: nat) {
    forall j: nat | i < j < |ms| :: !Waits(ms[j].queues, client) && Clients(ms[j].reports)[client] == 1
  }

  /**
   * Over any run of packets offered and transmissions reported: a packet whose transmission is acknowledged, or cannot
   * be made, is reported with that status there and then; and if its client offered it only once it is never sent
   * again, as it is in no queue, and never reported again.
   */
  method Serve(m: Mac, es: seq<Event>) returns (ghost ms: seq<Moment>)
    requires m.Valid()
    requires forall i | 0 <= i < |es| :: if es[i].Sent? then es[i].n < |m.pool| else es[i].attribute < 0x10000
    modifies m, m.pool, m.packetMemb, m.metadataMemb, m.neighborMemb
    ensures m.Valid() && |ms| == |es| + 1 && ms[0] == old(MomentOf(m)) && ms[|es|] == MomentOf(m)
    ensures forall i: nat | i <= |es| :: Balanced(ms[i])
    ensures forall i: nat | i < |es| :: Later(ms[i], ms[i + 1]) && Told(es[i], ms[i], ms[i + 1])
    ensures forall i: nat | i < |es| && Ends(es[i], ms[i]) ::
      m.offered[ClientOf(es[i], ms[i])] <= 1 ==> Over(ms, i, ClientOf(es[i], ms[i]))
  {
    hide *;
    ms := [MomentOf(m)];
    BalancedNow(m);
    var i := 0;
    while i < |es|
      invariant 0 <= i <= |es| && |ms| == i + 1 && m.Valid() && ms[0] == old(MomentOf(m)) && ms[i] == MomentOf(m)
      invariant forall j: nat | j <= i :: Balanced(ms[j])
      invariant forall j: nat | j < i :: Later(ms[j], ms[j + 1]) && Told(es[j], ms[j], ms[j + 1])
    {
      Happen(m, es[i]);
      ms := ms + [MomentOf(m)];
      i := i + 1;
    }
    MomentShows(m);
    forall j: nat | j < |es| && Ends(es[j], ms[j]) && m.offered[ClientOf(es[j], ms[j])] <= 1
      ensures Over(ms, j, ClientOf(es[j], ms[j]))
    {
      OverAfter(ms, j, es[j]);
    }
  }

  lemma MomentShows(m: Mac)
    ensures MomentOf(m).offered == m.offered
  {}

  lemma BalancedNow(m: Mac)
    requires m.Valid()
    ensures Balanced(MomentOf(m))
  {
    hide Bags, Clients, Owned, AllTry;
  }

  method Happen(m: Mac, e: Event)
    requires m.Valid() && if e.Sent? then e.n < |m.pool| else e.attribute < 0x10000
    modifies m, m.pool, m.packetMemb, m.metadataMemb, m.neighborMemb
    ensures m.Valid() && Balanced(MomentOf(m)) && Later(old(MomentOf(m)), MomentOf(m))
    ensures Told(e, old(MomentOf(m)), MomentOf(m))
  {
    hide Bags, Clients, Owned, AllTry, Reported, RetryDelay, Find;
    match e {
      case Offered(addr, client, attribute, ack) =>
        var queued;
        ghost var n, p;
        queued, n, p := m.SendPacket(addr, client, attribute, ack);
      case Sent(n, status, number, random) =>
        m.PacketSent(n, status, number, random);
    }
    BalancedNow(m);
  }

  lemma {:induction false} LaterOn(ms: seq<Moment>, i: nat, j: nat)
    requires i <= j < |ms| && forall k: nat | k < |ms| - 1 :: Later(ms[k], ms[k + 1])
    ensures Later(ms[i], ms[j])
    decreases j
  {
    if i < j { LaterOn(ms, i, j - 1); }
  }

  lemma OverAfter(ms: seq<Moment>, i: nat, e: Event)
    requires i + 1 < |ms| && Ends(e, ms[i]) && Told(e, ms[i], ms[i + 1])
    requires ms[|ms| - 1].offered[ClientOf(e, ms[i])] <= 1 && (forall k: nat | k < |ms| :: Balanced(ms[k]))
    requires forall k: nat | k < |ms| - 1 :: Later(ms[k], ms[k + 1])
    ensures Over(ms, i, ClientOf(e, ms[i]))
  {
    hide Bags, Clients, Waits;
    var client := ClientOf(e, ms[i]);
    forall j: nat | i < j < |ms| ensures !Waits(ms[j].queues, client) && Clients(ms[j].reports)[client] == 1 {
      LaterOn(ms, i + 1, j);
      LaterOn(ms, j, |ms| - 1);
      HeardOf(ms[j].reports, |ms[i].reports|);
      NotWaiting(ms[j].queues, client);
      assert Balanced(ms[j]);
    }
  }

  lemma {:induction false} HeardOf(reports: seq<Report>, k: nat)
    requires k < |reports|
    ensures Clients(reports)[reports[k].client] >= 1
  {
    if k < |reports| - 1 { HeardOf(reports[..|reports| - 1], k); }
  }

  lemma NotWaiting(queues: seq<seq<Packet>>, client: nat)
    requires Bags(queues, Client)[client] == 0
    ensures !Waits(queues, client)
  {
    hide Bags;
    if n: nat, k: nat :| n < |queues| && k < |queues[n]| && queues[n][k].client == client {
      BagsHold(queues, n, k, Client);
    }
  }
}
