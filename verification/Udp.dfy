/** The UDP socket table: ports, the ephemeral-port cursor and receive queues. */
module Udp {
  import opened Links
  import opened Sequences

  const SOCKETS := 32
  const FIRST := 49152
  const LAST := 65535
  const HEADER := 8

  datatype Sock = Sock(inUse: bool, port: nat, rxQueue: int, rxCount: int)

  // ---- Invariant ----

  ghost predicate PortsDistinct(socks: seq<Sock>) {
    forall i, j :: 0 <= i < j < |socks| && socks[i].inUse && socks[j].inUse && socks[i].port != 0 ==>
      socks[i].port != socks[j].port
  }

  /** One socket's receive queue: linked in arrival order, counted, and empty
      when the socket is not in use. */
  ghost predicate QueueOk(s: Sock, next: map<int, int>, q: seq<int>) {
    && Chain(next, s.rxQueue, q) && NoDup(q) && NoNull(q)
    && (s.inUse ==> s.rxCount == |q|)
    && (!s.inUse ==> q == [])
  }

  predicate NoNull(q: seq<int>) {
    forall i :: 0 <= i < |q| ==> q[i] != 0
  }

  ghost predicate Apart(queues: seq<seq<int>>) {
    forall i, j :: 0 <= i < j < |queues| ==> forall m :: m in queues[i] ==> m !in queues[j]
  }

  ghost predicate Inv(socks: seq<Sock>, next: map<int, int>, queues: seq<seq<int>>) {
    && |socks| == |queues| == SOCKETS
    && (forall i: nat :: i < SOCKETS ==> QueueOk(socks[i], next, queues[i]))
    && Apart(queues)
    && PortsDistinct(socks)
    && forall i :: 0 <= i < SOCKETS ==> socks[i].port <= LAST
  }

  predicate Taken(socks: seq<Sock>, port: nat) {
    exists i :: 0 <= i < |socks| && socks[i].inUse && socks[i].port == port
  }

  // ---- Ephemeral ports ----

  /** The cursor after one more probe. */
  function Probe(cursor: nat): nat {
    if cursor >= LAST then FIRST + 1 else cursor + 1
  }

  function Probes(cursor: nat, t: nat): nat {
    if t == 0 then cursor else Probe(Probes(cursor, t - 1))
  }

  lemma {:induction false} ProbesAre(cursor: nat, t: nat)
    requires FIRST <= cursor <= LAST && t > 0
    ensures Probes(cursor, t) == FIRST + 1 + (cursor - FIRST - 1 + t) % (LAST - FIRST)
  {
    if t > 1 {
      ProbesAre(cursor, t - 1);
    }
  }

  /** Consecutive probes visit distinct ports until they have visited them all. */
  lemma ProbesDistinct(cursor: nat, s: nat, t: nat)
    requires FIRST <= cursor <= LAST && 0 < s < t < s + (LAST - FIRST)
    ensures Probes(cursor, s) != Probes(cursor, t)
    ensures FIRST < Probes(cursor, t) <= LAST
  {
    ProbesAre(cursor, s);
    ProbesAre(cursor, t);
  }

  /** Sockets holding the first t probed ports. */
  ghost predicate Owners(socks: seq<Sock>, cursor: nat, owners: seq<nat>) {
    forall t: nat :: t < |owners| ==> OwnerAt(socks, cursor, owners, t)
  }

  predicate OwnerAt(socks: seq<Sock>, cursor: nat, owners: seq<nat>, t: nat)
    requires t < |owners|
  {
    owners[t] < |socks| && socks[owners[t]].inUse && socks[owners[t]].port == Probes(cursor, t + 1)
  }

  /** A socket has one port, so at most as many probes fail as there are sockets. */
  lemma FewFailures(socks: seq<Sock>, cursor: nat, owners: seq<nat>)
    requires FIRST <= cursor <= LAST && |owners| < LAST - FIRST && Owners(socks, cursor, owners)
    ensures |owners| <= |socks|
  {
    forall s, t | 0 <= s < t < |owners| ensures owners[s] != owners[t] {
      assert OwnerAt(socks, cursor, owners, s) && OwnerAt(socks, cursor, owners, t);
      ProbesDistinct(cursor, s + 1, t + 1);
    }
    forall t | 0 <= t < |owners| ensures owners[t] < |socks| {
      assert OwnerAt(socks, cursor, owners, t);
    }
    Pigeonhole(owners, |socks|);
  }
}
