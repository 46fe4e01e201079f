/** The UDP socket calls, updating the table and the queues in place. */
module UdpSockets {
  import opened Links
  import opened Sequences
  import opened Udp

  // ---- One socket or one queue changes ----

  lemma SockUpdate(socks: seq<Sock>, next: map<int, int>, queues: seq<seq<int>>, i: nat, s: Sock)
    requires Inv(socks, next, queues) && i < SOCKETS && QueueOk(s, next, queues[i]) && s.port <= LAST
    requires s.inUse && s.port != 0 ==> forall j :: 0 <= j < |socks| && j != i && socks[j].inUse ==> socks[j].port != s.port
    ensures Inv(socks[i := s], next, queues)
  {
  }

  /** A queue that changes with its links, when the links changed belong to it. */
  lemma QueueUpdate(socks: seq<Sock>, next: map<int, int>, queues: seq<seq<int>>,
                    i: nat, s: Sock, next': map<int, int>, q: seq<int>)
    requires Inv(socks, next, queues) && i < SOCKETS && QueueOk(s, next', q)
    requires s.inUse ==> socks[i].inUse
    requires s.port == socks[i].port
    requires forall m :: m in q && m !in queues[i] ==> forall j: nat :: j < SOCKETS ==> m !in queues[j]
    requires forall m :: m in next && m !in q ==> m in next' && next'[m] == next[m]
    ensures Inv(socks[i := s], next', queues[i := q])
  {
    var socks', queues' := socks[i := s], queues[i := q];
    forall j: nat | j < SOCKETS ensures QueueOk(socks'[j], next', queues'[j]) {
      if j != i {
        assert QueueOk(socks[j], next, queues[j]);
        forall k | 0 <= k < |queues[j]| ensures queues[j][k] !in q {
          assert queues[j][k] in queues[j];
          NotBoth(queues, i, j, queues[j][k]);
        }
        ChainSame(next, next', socks[j].rxQueue, queues[j]);
      }
    }
    forall a, b | 0 <= a < b < |queues'| ensures forall m :: m in queues'[a] ==> m !in queues'[b] {
      forall m | m in queues'[a] ensures m !in queues'[b] {
        NotBoth(queues, a, b, m);
      }
    }
  }

  lemma NotBoth(queues: seq<seq<int>>, a: nat, b: nat, m: int)
    requires Apart(queues) && a < |queues| && b < |queues| && a != b
    ensures !(m in queues[a] && m in queues[b])
  {
  }

  lemma ChainSame(link: map<int, int>, link': map<int, int>, head: int, q: seq<int>)
    requires Chain(link, head, q)
    requires forall i :: 0 <= i < |q| && q[i] in link ==> q[i] in link' && link'[q[i]] == link[q[i]]
    ensures Chain(link', head, q)
  {
    forall i: nat | i < |q| ensures ChainAt(link', q, i) {
      assert ChainAt(link, q, i);
    }
  }

  /** Only the queue of socket i moved: no port, no in-use flag, no other socket. */
  ghost predicate OnlyQueue(a: seq<Sock>, b: seq<Sock>, i: nat) {
    && |a| == |b| && i < |a| && b[i].inUse == a[i].inUse && b[i].port == a[i].port
    && forall j :: 0 <= j < |a| && j != i ==> b[j] == a[j]
  }

  /** m is the buffer of the datagram. */
  datatype Received = Fails | Waits | Got(m: int)

  class SocketTable {
    var socks: seq<Sock>
    var next: map<int, int>
    var cursor: nat
    ghost var queues: seq<seq<int>>

    ghost predicate Valid()
      reads this
    {
      Inv(socks, next, queues) && FIRST <= cursor <= LAST
    }

    constructor ()
      ensures Valid() && socks == seq(SOCKETS, _ => Sock(false, 0, 0, 0))
    {
      socks := seq(SOCKETS, _ => Sock(false, 0, 0, 0));
      next := map[];
      cursor := FIRST;
      queues := seq(SOCKETS, _ => []);
    }

    method Socket() returns (i: int)
      requires Valid()
      modifies this`socks
      ensures Valid()
      ensures i == -1 ==> socks == old(socks) && forall j :: 0 <= j < SOCKETS ==> socks[j].inUse
      ensures i != -1 ==> 0 <= i < SOCKETS && !old(socks)[i].inUse && socks == old(socks)[i := Sock(true, 0, 0, 0)]
      ensures i != -1 ==> forall j :: 0 <= j < i ==> old(socks)[j].inUse
    {
      i := 0;
      while i < SOCKETS
        invariant 0 <= i <= SOCKETS
        invariant forall j :: 0 <= j < i ==> socks[j].inUse
      {
        if !socks[i].inUse {
          assert QueueOk(socks[i], next, queues[i]);
          SockUpdate(socks, next, queues, i, Sock(true, 0, 0, 0));
          socks := socks[i := Sock(true, 0, 0, 0)];
          return;
        }
        i := i + 1;
      }
      i := -1;
    }

    method PortTaken(port: nat, except: int) returns (r: Option<nat>)
      requires |socks| == SOCKETS
      ensures r.Some? ==> r.value < SOCKETS && r.value != except && socks[r.value].inUse && socks[r.value].port == port
      ensures r.None? ==> forall j :: 0 <= j < SOCKETS && j != except ==> !(socks[j].inUse && socks[j].port == port)
    {
      var i := 0;
      while i < SOCKETS
        invariant 0 <= i <= SOCKETS
        invariant forall j :: 0 <= j < i && j != except ==> !(socks[j].inUse && socks[j].port == port)
      {
        if i != except && socks[i].inUse && socks[i].port == port {
          return Some(i);
        }
        i := i + 1;
      }
      return None;
    }

    /** udp_ephemeral_port never fails: its probes are distinct ports, and each
        failing one uses up a socket. */
    method EphemeralPort() returns (p: nat)
      requires Valid()
      modifies this`cursor
      ensures Valid()
      ensures FIRST < p <= LAST && !Taken(socks, p)
    {
      var tries := 0;
      ghost var owners: seq<nat> := [];
      while tries < LAST - FIRST
        invariant 0 <= tries <= SOCKETS && |owners| == tries
        invariant cursor == Probes(old(cursor), tries) && FIRST <= cursor <= LAST
        invariant Owners(socks, old(cursor), owners)
      {
        if cursor >= LAST {
          cursor := FIRST;
        }
        cursor := cursor + 1;
        p := cursor;
        var holder := PortTaken(p, -1);
        if holder.None? {
          return;
        }
        OneMoreOwner(socks, old(cursor), owners, holder.value);
        owners := owners + [holder.value];
        FewFailures(socks, old(cursor), owners);
        tries := tries + 1;
      }
      assert false;
    }

    method Bind(sock: int, port: nat) returns (ok: bool)
      requires Valid() && port <= LAST
      modifies this`socks, this`cursor
      ensures Valid()
      ensures !ok ==> socks == old(socks)
      ensures ok <==>
        && 0 <= sock < SOCKETS && old(socks)[sock].inUse
        && (port == 0 || forall j :: 0 <= j < SOCKETS && j != sock ==> !(old(socks)[j].inUse && old(socks)[j].port == port))
      ensures ok ==> socks == old(socks)[sock := old(socks)[sock].(port := socks[sock].port)] && socks[sock].port != 0
      ensures ok && port != 0 ==> socks[sock].port == port
    {
      if sock < 0 || sock >= SOCKETS || !socks[sock].inUse {
        return false;
      }
      var p := port;
      if p == 0 {
        p := EphemeralPort();
      }
      var holder := PortTaken(p, sock);
      if holder.Some? {
        return false;
      }
      assert QueueOk(socks[sock], next, queues[sock]);
      SockUpdate(socks, next, queues, sock, socks[sock].(port := p));
      socks := socks[sock := socks[sock].(port := p)];
      return true;
    }

    /** The source port of a send: an unbound socket gets an ephemeral one. */
    method SourcePort(sock: nat) returns (p: nat)
      requires Valid() && sock < SOCKETS && socks[sock].inUse
      modifies this`socks, this`cursor
      ensures Valid() && p != 0
      ensures socks == old(socks)[sock := old(socks)[sock].(port := p)]
      ensures old(socks)[sock].port != 0 ==> p == old(socks)[sock].port
      ensures old(socks)[sock].port == 0 ==> FIRST < p <= LAST && !Taken(old(socks), p)
    {
      p := socks[sock].port;
      if p == 0 {
        p := EphemeralPort();
        assert QueueOk(socks[sock], next, queues[sock]);
        SockUpdate(socks, next, queues, sock, socks[sock].(port := p));
        socks := socks[sock := socks[sock].(port := p)];
      }
    }

    /** udp_rx of a packet of len bytes in buffer m: queued last at the socket
        bound to the port, dropped if there is none or it has no header. */
    method Rx(m: int, len: nat, dport: nat) returns (to: int)
      requires Valid() && m != 0
      requires forall i: nat :: i < SOCKETS ==> m !in queues[i]
      modifies this`socks, this`next, this`queues
      ensures Valid()
      ensures to == -1 ==> socks == old(socks) && queues == old(queues) && (len < HEADER || !Taken(socks, dport))
      ensures to != -1 ==>
        && 0 <= to < SOCKETS && old(socks)[to].inUse && old(socks)[to].port == dport && len >= HEADER
        && queues == old(queues)[to := old(queues)[to] + [m]] && OnlyQueue(old(socks), socks, to)
    {
      if len < HEADER {
        return -1;
      }
      var holder := PortTaken(dport, -1);
      if holder.None? {
        return -1;
      }
      to := holder.value;
      Enqueue(to, m);
    }

    method Enqueue(i: nat, m: int)
      requires Valid() && i < SOCKETS && socks[i].inUse && m != 0
      requires forall j: nat :: j < SOCKETS ==> m !in queues[j]
      modifies this`socks, this`next, this`queues
      ensures Valid() && queues == old(queues)[i := old(queues)[i] + [m]]
      ensures OnlyQueue(old(socks), socks, i)
    {
      var s := socks[i];
      ghost var q := queues[i];
      assert QueueOk(s, next, q);
      ghost var next0 := next;
      ChainElsewhere(next, s.rxQueue, q, m, 0);
      next := next[m := 0];
      if s.rxQueue == 0 {
        assert q == [] by { HeadNull(next, s.rxQueue, q); }
        s := s.(rxQueue := m);
      } else {
        var tail := Tail(s.rxQueue, q);
        ChainAppend(next0, s.rxQueue, q, m);
        next := next[tail := m];
      }
      s := s.(rxCount := s.rxCount + 1);
      AppendQueue(q, m);
      assert QueueOk(s, next, q + [m]) by {
        if q == [] {
          assert ChainAt(next, [m], 0);
        }
      }
      QueueUpdate(socks, next0, queues, i, s, next, q + [m]);
      socks := socks[i := s];
      queues := queues[i := q + [m]];
    }

    method Tail(head: int, ghost q: seq<int>) returns (tail: int)
      requires Chain(next, head, q) && q != [] && NoNull(q)
      ensures tail == q[|q| - 1]
    {
      tail := head;
      ghost var i: nat := 0;
      assert ChainAt(next, q, 0);
      while next[tail] != 0
        invariant i < |q| && tail == q[i] && ChainAt(next, q, i)
        decreases |q| - i
      {
        tail := next[tail];
        i := i + 1;
        assert ChainAt(next, q, i);
      }
    }

    /** One look of udp_recvfrom at its queue: it fails on a socket not in use,
        waits while the queue is empty, and otherwise takes the oldest datagram. */
    method Recv(sock: int) returns (r: Received)
      requires Valid()
      modifies this`socks, this`queues
      ensures Valid()
      ensures r.Fails? <==> !(0 <= sock < SOCKETS && old(socks)[sock].inUse)
      ensures r.Waits? <==> 0 <= sock < SOCKETS && old(socks)[sock].inUse && old(queues)[sock] == []
      ensures !r.Got? ==> socks == old(socks) && queues == old(queues)
      ensures r.Got? ==>
        && old(queues)[sock] == [r.m] + queues[sock] && queues == old(queues)[sock := queues[sock]]
        && OnlyQueue(old(socks), socks, sock)
    {
      if sock < 0 || sock >= SOCKETS || !socks[sock].inUse {
        return Fails;
      }
      var s := socks[sock];
      ghost var q := queues[sock];
      assert QueueOk(s, next, q);
      if s.rxCount == 0 {
        return Waits;
      }
      ChainPop(next, s.rxQueue, q);
      var m := s.rxQueue;
      s := s.(rxQueue := next[m], rxCount := s.rxCount - 1);
      assert q == [m] + q[1..];
      QueueUpdate(socks, next, queues, sock, s, next, q[1..]);
      socks := socks[sock := s];
      queues := queues[sock := q[1..]];
      return Got(m);
    }

    /** udp_close: the queue is freed; rx_count is left as it is. */
    method Close(sock: int)
      requires Valid()
      modifies this`socks, this`queues
      ensures Valid()
      ensures 0 <= sock < SOCKETS ==> !socks[sock].inUse && queues == old(queues)[sock := []]
      ensures forall j :: 0 <= j < SOCKETS && j != sock ==> socks[j] == old(socks)[j]
    {
      if sock < 0 || sock >= SOCKETS {
        return;
      }
      var s := socks[sock];
      ghost var q := queues[sock];
      assert QueueOk(s, next, q);
      var head := s.rxQueue;
      while head != 0
        invariant Chain(next, head, q) && socks == old(socks) && queues == old(queues)
        decreases |q|
      {
        ChainPop(next, head, q);
        head := next[head];
        q := q[1..];
      }
      s := s.(rxQueue := 0, inUse := false);
      QueueUpdate(socks, next, queues, sock, s, next, []);
      socks := socks[sock := s];
      queues := queues[sock := []];
    }
  }

  lemma HeadNull(link: map<int, int>, head: int, q: seq<int>)
    requires Chain(link, head, q) && head == 0 && NoNull(q)
    ensures q == []
  {
  }

  lemma AppendQueue(q: seq<int>, m: int)
    requires NoDup(q) && NoNull(q) && m != 0 && m !in q
    ensures NoDup(q + [m]) && NoNull(q + [m])
  {
    assert [] + [m] == [m];
  }

  lemma OneMoreOwner(socks: seq<Sock>, cursor: nat, owners: seq<nat>, i: nat)
    requires Owners(socks, cursor, owners)
    requires i < |socks| && socks[i].inUse && socks[i].port == Probes(cursor, |owners| + 1)
    ensures Owners(socks, cursor, owners + [i])
  {
    forall t: nat | t < |owners| + 1 ensures OwnerAt(socks, cursor, owners + [i], t) {
      if t < |owners| {
        assert OwnerAt(socks, cursor, owners, t);
      }
    }
  }
}
