/**
 * kernel/sched.c as it is written: threads linked into a circular doubly linked
 * ready ring and a singly linked zombie list, updated in place.  A thread is an
 * address, 0 is NULL, and a pointer field of struct thread is a map from address
 * to address.  Each method is proved to perform the transition of SchedState that
 * carries its name.
 */
module SchedRing {
  import opened Sequences
  import opened SchedState
  import SchedRuns

  type Ptr = int

  function Wrap(n: nat, k: nat): nat
    requires k < 2 * n
  {
    if k < n then k else k - n
  }

  /** The ring in the order a search starting after position c visits it. */
  function Round<T>(ring: seq<T>, c: nat): (r: seq<T>)
    requires c < |ring|
    ensures |r| == |ring|
    ensures forall t :: t in r ==> t in ring
  {
    ring[c + 1..] + ring[..c + 1]
  }

  /** A search that stopped at its i-th visit found what Pick finds. */
  lemma {:induction false} PickAt<T>(s: State<T>, c: nat, i: nat)
    requires Wf(s) && s.cur in s.ring && c == IndexOf(s.ring, s.cur) && i < |s.ring|
    requires forall j :: 0 <= j < i ==> s.tcb[Round(s.ring, c)[j]].state != Ready
    requires i == |s.ring| - 1 || s.tcb[Round(s.ring, c)[i]].state == Ready
    ensures var t := Round(s.ring, c)[i]; Pick(s) == if s.tcb[t].state == Ready then t else s.idle
  {
    assert Others(s.ring, s.cur) + [s.cur] == Round(s.ring, c);
    FirstReadyAt(Round(s.ring, c), s.tcb, i);
    hide Others, Round, FirstReady, Sequences.IndexOf;
  }

  lemma {:induction false} FirstReadyAt<T>(q: seq<T>, tcb: map<T, Tcb>, i: nat)
    requires forall t :: t in q ==> t in tcb
    requires i < |q| && forall j :: 0 <= j < i ==> tcb[q[j]].state != Ready
    ensures tcb[q[i]].state == Ready ==> FirstReady(q, tcb) == Some(q[i])
    ensures tcb[q[i]].state != Ready && i == |q| - 1 ==> FirstReady(q, tcb) == None
  {
    if i > 0 {
      assert forall j :: 0 <= j < i - 1 ==> q[1..][j] == q[j + 1];
      FirstReadyAt(q[1..], tcb, i - 1);
    }
  }

  lemma {:induction false} FirstWithPidAt<T>(q: seq<T>, tcb: map<T, Tcb>, pid: int, i: nat)
    requires forall t :: t in q ==> t in tcb
    requires i < |q| && tcb[q[i]].pid == pid && forall j :: 0 <= j < i ==> tcb[q[j]].pid != pid
    ensures FirstWithPid(q, tcb, pid) == Some(q[i])
  {
    if i > 0 {
      assert forall j :: 0 <= j < i - 1 ==> q[1..][j] == q[j + 1];
      FirstWithPidAt(q[1..], tcb, pid, i - 1);
    }
  }

  ghost predicate LinkedNext(ring: seq<Ptr>, next: map<Ptr, Ptr>, i: nat)
    requires i < |ring|
  {
    ring[i] in next && next[ring[i]] == ring[Wrap(|ring|, i + 1)]
  }

  ghost predicate LinkedPrev(ring: seq<Ptr>, prev: map<Ptr, Ptr>, i: nat)
    requires i < |ring|
  {
    ring[i] in prev && prev[ring[i]] == ring[Wrap(|ring|, i + |ring| - 1)]
  }

  /** head and the next and prev pointers spell out the ring. */
  ghost predicate RingOf(ring: seq<Ptr>, head: Ptr, next: map<Ptr, Ptr>, prev: map<Ptr, Ptr>) {
    && ring != [] && head == ring[0]
    && (forall i :: 0 <= i < |ring| ==> LinkedNext(ring, next, i))
    && (forall i :: 0 <= i < |ring| ==> LinkedPrev(ring, prev, i))
  }

  ghost predicate LinkedList(q: seq<Ptr>, next: map<Ptr, Ptr>, i: nat)
    requires i < |q|
  {
    q[i] in next && next[q[i]] == if i + 1 < |q| then q[i + 1] else 0
  }

  /** head and the next pointers spell out the null-terminated list. */
  ghost predicate ListOf(q: seq<Ptr>, head: Ptr, next: map<Ptr, Ptr>) {
    && head == (if q == [] then 0 else q[0])
    && (forall i :: 0 <= i < |q| ==> LinkedList(q, next, i))
  }

  /** Following next from the i-th visited thread reaches the following one. */
  lemma {:induction false} RoundNext(ring: seq<Ptr>, head: Ptr, next: map<Ptr, Ptr>, prev: map<Ptr, Ptr>, c: nat, i: nat)
    requires RingOf(ring, head, next, prev) && c < |ring| && i < |ring|
    ensures ring[c] in next && next[ring[c]] == Round(ring, c)[0]
    ensures Round(ring, c)[i] in next
    ensures i + 1 < |ring| ==> next[Round(ring, c)[i]] == Round(ring, c)[i + 1]
    ensures i + 1 == |ring| ==> Round(ring, c)[i] == ring[c]
  {
    assert LinkedNext(ring, next, c) && LinkedNext(ring, next, Wrap(|ring|, c + 1 + i));
  }

  lemma BuryKeys<T>(s: State<T>, status: int)
    requires Wf(s) && s.cur in s.ring && s.cur != s.main
    ensures var b := SchedState.Bury(s, status);
      b.cur == s.cur && b.main == s.main && b.idle == s.idle && b.tcb.Keys == s.tcb.Keys
  {
  }

  lemma RingHead(ring: seq<Ptr>, head: Ptr, next: map<Ptr, Ptr>, prev: map<Ptr, Ptr>)
    requires RingOf(ring, head, next, prev)
    ensures ring != [] && head == ring[0]
  {
  }

  lemma ListAt(q: seq<Ptr>, head: Ptr, next: map<Ptr, Ptr>, i: nat)
    requires ListOf(q, head, next) && i < |q|
    ensures LinkedList(q, next, i)
  {
  }

  lemma ListFrame(q: seq<Ptr>, head: Ptr, next: map<Ptr, Ptr>, next': map<Ptr, Ptr>)
    requires ListOf(q, head, next)
    requires forall t :: t in q && t in next ==> t in next' && next'[t] == next[t]
    ensures ListOf(q, head, next')
  {
    forall i | 0 <= i < |q| ensures LinkedList(q, next', i) {
      assert LinkedList(q, next, i);
      var t := q[i];
      assert t in q && t in next;
    }
  }

  lemma RingFrame(ring: seq<Ptr>, head: Ptr, next: map<Ptr, Ptr>, prev: map<Ptr, Ptr>, next': map<Ptr, Ptr>)
    requires RingOf(ring, head, next, prev)
    requires forall t :: t in ring && t in next ==> t in next' && next'[t] == next[t]
    ensures RingOf(ring, head, next', prev)
  {
    forall i | 0 <= i < |ring| ensures LinkedNext(ring, next', i) {
      assert LinkedNext(ring, next, i);
      var t := ring[i];
      assert t in ring && t in next;
    }
  }

  /** Unlinking position k: its predecessor, or the head, takes over its next pointer. */
  lemma {:induction false} ListUnlink(q: seq<Ptr>, head: Ptr, next: map<Ptr, Ptr>, k: nat)
    requires ListOf(q, head, next) && NoDup(q) && k < |q|
    ensures q[k] in next
    ensures k == 0 ==> ListOf(Without(q, k), next[q[0]], next)
    ensures k > 0 ==> ListOf(Without(q, k), head, next[q[k - 1] := next[q[k]]])
  {
    assert LinkedList(q, next, k);
    var r := Without(q, k);
    var next' := if k == 0 then next else next[q[k - 1] := next[q[k]]];
    forall i | 0 <= i < |r| ensures LinkedList(r, next', i) {
      assert LinkedList(q, next, i) && LinkedList(q, next, i + 1);
    }
  }

  /** Unlinking position c: its neighbours are joined to each other. */
  lemma {:induction false} RingUnlink(ring: seq<Ptr>, head: Ptr, next: map<Ptr, Ptr>, prev: map<Ptr, Ptr>, c: nat)
    requires RingOf(ring, head, next, prev) && NoDup(ring) && c < |ring| && |ring| > 1
    ensures ring[c] in next && ring[c] in prev
    ensures var left := Without(ring, c);
      && (c == 0 ==> next[ring[0]] == left[0])
      && RingOf(left, left[0], next[prev[ring[c]] := next[ring[c]]], prev[next[ring[c]] := prev[ring[c]]])
  {
    assert LinkedNext(ring, next, c) && LinkedPrev(ring, prev, c);
    var left := Without(ring, c);
    var before, after := prev[ring[c]], next[ring[c]];
    var next', prev' := next[before := after], prev[after := before];
    forall i | 0 <= i < |left| ensures LinkedNext(left, next', i) {
      assert LinkedNext(ring, next, if i < c then i else i + 1);
    }
    forall i | 0 <= i < |left| ensures LinkedPrev(left, prev', i) {
      assert LinkedPrev(ring, prev, if i < c then i else i + 1);
    }
  }

  /** The insertion of the spawn functions: t goes in just before the head. */
  lemma {:induction false} RingInsert(ring: seq<Ptr>, head: Ptr, next: map<Ptr, Ptr>, prev: map<Ptr, Ptr>, t: Ptr)
    requires RingOf(ring, head, next, prev) && NoDup(ring) && t !in ring
    ensures head in prev && prev[head] == ring[|ring| - 1]
    ensures var last := ring[|ring| - 1];
            RingOf(ring + [t], head, next[t := head][last := t], prev[t := last][head := t])
  {
    var n := |ring|;
    assert LinkedPrev(ring, prev, 0);
    var last := ring[n - 1];
    var next', prev', ring' := next[t := head][last := t], prev[t := last][head := t], ring + [t];
    forall i | 0 <= i < |ring'| ensures LinkedNext(ring', next', i) {
      if i < n { assert LinkedNext(ring, next, i); }
    }
    forall i | 0 <= i < |ring'| ensures LinkedPrev(ring', prev', i) {
      if i < n { assert LinkedPrev(ring, prev, i); }
    }
  }

  /** A spawn keeps the ring linked, one thread longer, and the zombie list as it was. */
  lemma SpawnLinks(s: State<Ptr>, head: Ptr, zombieHead: Ptr, next: map<Ptr, Ptr>, prev: map<Ptr, Ptr>, t: Ptr)
    requires Wf(s) && t !in s.tcb && RingOf(s.ring, head, next, prev) && ListOf(s.zombies, zombieHead, next)
    ensures head in prev
    ensures var next' := next[t := head][prev[head] := t];
      RingOf(s.ring + [t], head, next', prev[t := prev[head]][head := t]) && ListOf(s.zombies, zombieHead, next')
  {
    RingInsert(s.ring, head, next, prev, t);
    ListFrame(s.zombies, zombieHead, next, next[t := head][prev[head] := t]);
  }

  lemma SpawnWf<T>(s: State<T>, t: T, user: bool)
    requires Wf(s) && t !in s.tcb
    ensures s.cur in s.tcb && Wf(SchedState.Spawn(s, t, user))
  {
  }

  lemma SwitchWf<T>(s: State<T>)
    requires Wf(s) && s.cur in s.ring
    ensures s.cur in s.tcb && Wf(PutDown(s)) && PutDown(s).cur == s.cur && PutDown(s).ring == s.ring
    ensures Wf(SchedState.Dispatch(PutDown(s), Pick(PutDown(s))))
  {
    var p := PutDown(s);
    var t := Pick(p);
    assert t in s.ring || t == s.idle;
    hide SchedState.Pick;
  }

  lemma {:induction false} RingNeighbours(ring: seq<Ptr>, head: Ptr, next: map<Ptr, Ptr>, prev: map<Ptr, Ptr>, c: nat)
    requires RingOf(ring, head, next, prev) && NoDup(ring) && c < |ring| && |ring| > 1
    ensures ring[c] in next && next[ring[c]] in ring && next[ring[c]] != ring[c]
    ensures ring[c] in prev && prev[ring[c]] in ring && prev[ring[c]] != ring[c]
  {
    assert LinkedNext(ring, next, c) && LinkedPrev(ring, prev, c);
  }

  lemma {:induction false} ListPush(q: seq<Ptr>, head: Ptr, next: map<Ptr, Ptr>, t: Ptr)
    requires ListOf(q, head, next) && t !in q
    ensures ListOf([t] + q, t, next[t := head])
  {
    var r, next' := [t] + q, next[t := head];
    forall i | 0 <= i < |r| ensures LinkedList(r, next', i) {
      if i > 0 { assert LinkedList(q, next, i - 1) && r[i] == q[i - 1]; }
    }
  }

  lemma TwoInRing<T>(q: seq<T>, t: T, u: T)
    requires t in q && u in q && t != u
    ensures |q| > 1
  {
  }

  lemma {:induction false} ExitWf<T>(s: State<T>, status: int)
    requires Wf(s) && s.cur in s.ring && s.cur != s.main
    ensures Wf(SchedState.Exit(s, status))
  {
    var b := SchedState.Bury(s, status);
    BuryWf(s, status);
    var r := SchedState.Exit(s, status);
    assert r.ring == b.ring && r.zombies == b.zombies && r.tcb.Keys == b.tcb.Keys && r.cur == b.ring[0];
  }

  lemma {:induction false} BuryWf<T>(s: State<T>, status: int)
    requires Wf(s) && s.cur in s.ring && s.cur != s.main
    ensures var b := SchedState.Bury(s, status); b.ring != [] && Wf(b.(cur := b.ring[0]))
  {
    var b := SchedState.Bury(s, status);
    assert forall z :: z in b.zombies <==> z in s.zombies || z == s.cur;
  }

  /** The control blocks left when of the zombies `seen` only the claimed ones were kept. */
  ghost function Remaining<T>(s: State<T>, seen: seq<T>): map<T, Tcb>
    requires Wf(s)
  {
    map t | t in s.tcb && (t in seen ==> t in Claimed(s)) :: s.tcb[t]
  }

  /** Looking up a pid depends on the ring threads only, not on the zombie list. */
  lemma {:induction false} FindFrame<T>(s: State<T>, r: State<T>, pid: int)
    requires Findable(s) && Findable(r)
    requires r.ring == s.ring && r.cur == s.cur && r.main == s.main && r.idle == s.idle
    requires r.tcb[s.cur] == s.tcb[s.cur] && r.tcb[s.main] == s.tcb[s.main] && r.tcb[s.idle] == s.tcb[s.idle]
    requires forall t :: t in s.ring ==> r.tcb[t] == s.tcb[t]
    ensures SchedState.FindByPid(r, pid) == SchedState.FindByPid(s, pid)
  {
    FirstWithPidFrame(s.ring, s.tcb, r.tcb, pid);
  }

  lemma {:induction false} FirstWithPidFrame<T>(q: seq<T>, tcb: map<T, Tcb>, tcb': map<T, Tcb>, pid: int)
    requires forall t :: t in q ==> t in tcb && t in tcb' && tcb[t] == tcb'[t]
    ensures FirstWithPid(q, tcb, pid) == FirstWithPid(q, tcb', pid)
  {
    if q != [] { FirstWithPidFrame(q[1..], tcb, tcb', pid); }
  }

  /** The zombie list once its first k members have been looked at. */
  ghost function Visited<T>(s: State<T>, k: nat): seq<T>
    requires Wf(s) && k <= |s.zombies|
  {
    Filter(s.zombies[..k], Claimed(s)) + s.zombies[k..]
  }

  lemma {:induction false} VisitedFacts<T>(s: State<T>, k: nat)
    requires Wf(s) && k <= |s.zombies|
    ensures NoDup(Visited(s, k)) && forall z :: z in Visited(s, k) ==> z in s.zombies
    ensures forall t :: t in s.ring ==> t !in Visited(s, k)
  {
    var front, back := s.zombies[..k], s.zombies[k..];
    FilterMembers(front, Claimed(s));
    assert forall z :: z in Filter(front, Claimed(s)) ==> z in front;
    forall z | z in Filter(front, Claimed(s)) ensures z !in back {
      var i :| 0 <= i < |front| && front[i] == z;
      assert s.zombies[i] == z;
    }
    NoDupConcat(Filter(front, Claimed(s)), back);
  }

  lemma {:induction false} VisitedStep<T>(s: State<T>, k: nat)
    requires Wf(s) && k < |s.zombies|
    ensures var n, z := |Filter(s.zombies[..k], Claimed(s))|, s.zombies[k];
      && n < |Visited(s, k)| && Visited(s, k)[n] == z
      && Visited(s, k + 1) == (if z in Claimed(s) then Visited(s, k) else Without(Visited(s, k), n))
      && |Filter(s.zombies[..k + 1], Claimed(s))| == (if z in Claimed(s) then n + 1 else n)
  {
    hide Claimed, Wf, Sequences.Filter;
    assert s.zombies[..k + 1] == s.zombies[..k] + [s.zombies[k]];
    FilterAppend(s.zombies[..k], s.zombies[k], Claimed(s));
    DropMiddle(Filter(s.zombies[..k], Claimed(s)), s.zombies[k..]);
    assert s.zombies[k..][1..] == s.zombies[k + 1..];
  }

  lemma DropMiddle<T>(front: seq<T>, back: seq<T>)
    requires back != []
    ensures (front + back)[|front|] == back[0]
    ensures (front + [back[0]]) + back[1..] == front + back
    ensures Without(front + back, |front|) == front + back[1..]
  {
    assert back == [back[0]] + back[1..];
  }

  /** The zombie looked at after s.zombies[k] is the next one on the list. */
  lemma VisitedNext<T>(s: State<T>, k: nat)
    requires Wf(s) && k < |s.zombies|
    ensures var n := |Filter(s.zombies[..k], Claimed(s))|;
      && (n + 1 < |Visited(s, k)| <==> k + 1 < |s.zombies|)
      && (k + 1 < |s.zombies| ==> Visited(s, k)[n + 1] == s.zombies[k + 1])
  {
    hide Sequences.Filter, Claimed, Wf;
  }

  lemma {:induction false} RemainingStep<T>(s: State<T>, k: nat)
    requires Wf(s) && k < |s.zombies|
    ensures var z := s.zombies[k];
      && z in Remaining(s, s.zombies[..k])
      && Remaining(s, s.zombies[..k + 1]) ==
           if z in Claimed(s) then Remaining(s, s.zombies[..k]) else Remaining(s, s.zombies[..k]) - {z}
  {
    assert s.zombies[..k + 1] == s.zombies[..k] + [s.zombies[k]];
  }

  lemma {:induction false} RemainingFindable<T>(s: State<T>, seen: seq<T>)
    requires Wf(s) && forall z :: z in seen ==> z in s.zombies
    ensures Findable(s.(tcb := Remaining(s, seen)))
    ensures forall t :: t in s.ring || t == s.idle ==> Remaining(s, seen)[t] == s.tcb[t]
  {
  }

  lemma {:induction false} TickedStep<T>(tcb: map<T, Tcb>, seen: seq<T>, t: T, now: nat)
    requires t in tcb && t !in seen
    ensures Ticked(tcb, seen, now)[t] == tcb[t]
    ensures Ticked(tcb, seen + [t], now) ==
      if Expired(tcb[t], now) then Ticked(tcb, seen, now)[t := tcb[t].(deadline := 0, state := Ready)]
      else Ticked(tcb, seen, now)
  {
  }

  lemma {:induction false} ChildZombieAt<T>(q: seq<T>, tcb: map<T, Tcb>, parent: int, filter: int, i: nat)
    requires forall z :: z in q ==> z in tcb
    requires i < |q| && Matches(tcb[q[i]], parent, filter)
    requires forall j :: 0 <= j < i ==> !Matches(tcb[q[j]], parent, filter)
    ensures SchedState.ChildZombie(q, tcb, parent, filter) == Some(q[i])
  {
    if i > 0 {
      assert forall j :: 0 <= j < i - 1 ==> q[1..][j] == q[j + 1];
      ChildZombieAt(q[1..], tcb, parent, filter, i - 1);
    }
  }

  class Scheduler {
    const mainThread: Ptr
    const idleThread: Ptr
    var current: Ptr
    var readyHead: Ptr
    var zombieHead: Ptr
    var nextPid: int
    var next: map<Ptr, Ptr>
    var prev: map<Ptr, Ptr>
    var tcb: map<Ptr, Tcb>
    ghost var ring: seq<Ptr>
    ghost var zombies: seq<Ptr>

    ghost function Abs(): State<Ptr>
      reads this
    {
      State(mainThread, idleThread, ring, zombies, current, tcb, nextPid)
    }

    ghost predicate Linked()
      reads this
    {
      Wf(Abs()) && RingOf(ring, readyHead, next, prev) && ListOf(zombies, zombieHead, next) && 0 !in tcb
    }

    /** sched_init. */
    constructor (main: Ptr, idle: Ptr)
      requires main != 0 && idle != 0 && main != idle
      ensures Linked() && mainThread == main && idleThread == idle
      ensures Abs() == SchedRuns.Boot(main, idle)
    {
      mainThread, idleThread, current := main, idle, main;
      readyHead, zombieHead, nextPid := main, 0, 3;
      next, prev := map[main := main, idle := 0], map[main := main, idle := 0];
      tcb := map[main := Tcb(1, 0, 0, Running, QUANTUM, 0, None), idle := Tcb(2, 0, 0, Ready, QUANTUM, 0, None)];
      ring, zombies := [main], [];
    }

    // ---- lookups ----

    /** thread_find_by_pid; on entry current may already be off the ring. */
    method FindByPid(pid: int) returns (r: Ptr)
      requires RingOf(ring, readyHead, next, prev) && NoDup(ring) && Findable(Abs()) && 0 !in tcb
      ensures SchedState.FindByPid(Abs(), pid) == if r == 0 then None else Some(r)
    {
      if pid <= 0 { return 0; }
      if tcb[current].pid == pid { return current; }
      if tcb[mainThread].pid == pid { return mainThread; }
      if tcb[idleThread].pid == pid { return idleThread; }
      var t := readyHead;
      ghost var i := 0;
      while true
        invariant 0 <= i < |ring| && t == ring[i]
        invariant forall j :: 0 <= j < i ==> tcb[ring[j]].pid != pid
        decreases |ring| - i
      {
        if tcb[t].pid == pid {
          FirstWithPidAt(ring, tcb, pid, i);
          return t;
        }
        assert LinkedNext(ring, next, i);
        t := next[t];
        i := i + 1;
        if t == readyHead { return 0; }
      }
    }

    /** The search for the next READY thread in sched_yield and sched_suspend. */
    method Search() returns (t: Ptr)
      requires Linked() && current in ring
      ensures t in tcb && t == Pick(Abs())
    {
      ghost var c, i := IndexOf(ring, current), 0;
      RoundNext(ring, readyHead, next, prev, c, 0);
      ghost var r := Round(ring, c);
      t := next[current];
      while t != current && tcb[t].state != Ready
        invariant 0 <= i < |r| && t == r[i]
        invariant forall j :: 0 <= j < i ==> tcb[r[j]].state != Ready
        decreases |r| - i
      {
        RoundNext(ring, readyHead, next, prev, c, i);
        t := next[t];
        i := i + 1;
      }
      if i + 1 < |ring| { RoundNext(ring, readyHead, next, prev, c, i); }
      PickAt(Abs(), c, i);
      if tcb[t].state != Ready {
        t := idleThread;
      }
    }

    // ---- transitions ----

    method SetState(t: Ptr, state: RunState)
      requires t in tcb
      modifies this`tcb
      ensures tcb == old(tcb)[t := old(tcb)[t].(state := state)]
    {
      tcb := tcb[t := tcb[t].(state := state)];
    }

    /** sched_wake. */
    method Wake(t: Ptr)
      requires t == 0 || t in tcb
      modifies this`tcb
      ensures Abs() == if t == 0 then old(Abs()) else SchedState.Wake(old(Abs()), t)
    {
      if t == 0 { return; }
      if tcb[t].state == Blocked { SetState(t, Ready); }
    }

    /** The bookkeeping every context switch ends with. */
    method Dispatch(t: Ptr)
      requires t in tcb
      modifies this`current, this`tcb
      ensures Abs() == SchedState.Dispatch(old(Abs()), t)
    {
      current := t;
      tcb := tcb[t := tcb[t].(state := Running, quantum := QUANTUM)];
    }

    /** sched_suspend. */
    method Suspend()
      requires Linked() && current in ring
      modifies this`current, this`tcb
      ensures Linked() && Abs() == SchedState.Suspend(old(Abs()))
    {
      var t := Search();
      SetState(current, Blocked);
      Dispatch(t);
    }

    /** sched_sleep_ns, given the clock reading. */
    method Sleep(now: nat, ns: nat)
      requires Linked() && current in ring
      modifies this`current, this`tcb
      ensures Linked()
      ensures Abs() == if ns == 0 then old(Abs()) else SchedState.Suspend(SetDeadline(old(Abs()), now + ns))
    {
      if ns == 0 { return; }
      tcb := tcb[current := tcb[current].(deadline := now + ns)];
      Suspend();
    }

    /** sched_spawn (parent 0) and sched_spawn_user_in, at the address kmalloc gave;
        address 0 is a failed allocation and changes nothing. */
    method Spawn(t: Ptr, user: bool)
      requires Linked() && t !in tcb
      modifies this
      ensures Linked()
      ensures Abs() == if t == 0 then old(Abs()) else SchedState.Spawn(old(Abs()), t, user)
    {
      hide Wf, RingOf, ListOf;
      if t == 0 { return; }
      ghost var s := Abs();
      SpawnWf(s, t, user);
      SpawnLinks(s, readyHead, zombieHead, next, prev, t);
      tcb := tcb[t := Tcb(nextPid, if user then tcb[current].pid else 0, 0, Ready, QUANTUM, 0, None)];
      nextPid := nextPid + 1;
      var last := prev[readyHead];
      next := next[t := readyHead];
      prev := prev[t := last];
      next := next[last := t];
      prev := prev[readyHead := t];
      ring := ring + [t];
      assert Abs() == SchedState.Spawn(s, t, user);
    }

    /** Take the current thread off the ring, moving ready_head on if it was the head. */
    method Unlink(ghost c: nat)
      requires RingOf(ring, readyHead, next, prev) && NoDup(ring) && 0 !in ring
      requires c < |ring| && ring[c] == current
      modifies this`readyHead, this`next, this`prev, this`ring
      ensures ring == Without(old(ring), c)
      ensures if ring == [] then readyHead == 0 else RingOf(ring, readyHead, next, prev)
      ensures next.Keys >= old(next.Keys)
      ensures forall t :: t in old(next) && t !in old(ring) ==> next[t] == old(next[t])
    {
      assert LinkedNext(ring, next, c);
      if |ring| > 1 {
        RingUnlink(ring, readyHead, next, prev, c);
        RingNeighbours(ring, readyHead, next, prev, c);
      }
      var self := current;
      if readyHead == self {
        readyHead := next[self];
        if readyHead == self { readyHead := 0; }
      }
      if readyHead != 0 {
        next := next[prev[self] := next[self]];
        prev := prev[next[self] := prev[self]];
      }
      ring := Without(ring, c);
    }

    /** sched_exit up to its search for the parent. */
    method Bury(status: int)
      requires Linked() && current in ring && current != mainThread
      modifies this
      ensures Abs() == SchedState.Bury(old(Abs()), status)
      ensures RingOf(ring, readyHead, next, prev) && ListOf(zombies, zombieHead, next)
    {
      hide Sequences.Without;
      var self := current;
      ghost var c := IndexOf(ring, self);
      tcb := tcb[self := tcb[self].(state := Zombie, status := status)];
      ghost var ring0, zs, next0 := ring, zombies, next;
      TwoInRing(ring, current, mainThread);
      Unlink(c);
      ListFrame(zombies, zombieHead, next0, next);
      WithoutMembers(ring0, c);
      RingFrame(ring, readyHead, next, prev, next[self := zombieHead]);
      ListPush(zombies, zombieHead, next, self);
      next := next[self := zombieHead];
      zombieHead := self;
      zombies := [self] + zombies;
    }

    /** sched_exit; the main thread never leaves its loop. */
    method Exit(status: int)
      requires Linked() && current in ring && current != mainThread
      modifies this
      ensures Linked() && Abs() == SchedState.Exit(old(Abs()), status)
    {
      hide ListOf, RingOf, Sequences.Without, Sequences.IndexOf, SchedState.Bury, SchedState.FindByPid;
      ghost var s := Abs();
      ExitWf(s, status);
      BuryKeys(s, status);
      Bury(status);
      RingHead(ring, readyHead, next, prev);
      if tcb[current].parent > 0 {
        var parent := FindByPid(tcb[current].parent);
        Wake(parent);
      }
      Dispatch(if readyHead != 0 then readyHead else idleThread);
    }

    /** Unlink and free the zombie after `last` (the head when last is 0). */
    method DropZombie(last: Ptr, z: Ptr, ghost k: nat)
      requires RingOf(ring, readyHead, next, prev) && ListOf(zombies, zombieHead, next) && NoDup(zombies)
      requires 0 !in zombies && forall t :: t in ring ==> t !in zombies
      requires k < |zombies| && z == zombies[k] && last == if k == 0 then 0 else zombies[k - 1]
      modifies this`zombieHead, this`next, this`tcb, this`zombies
      ensures zombies == Without(old(zombies), k) && tcb == old(tcb) - {z}
      ensures RingOf(ring, readyHead, next, prev) && ListOf(zombies, zombieHead, next)
    {
      ListUnlink(zombies, zombieHead, next, k);
      if last != 0 {
        RingFrame(ring, readyHead, next, prev, next[last := next[z]]);
        next := next[last := next[z]];
      } else {
        zombieHead := next[z];
      }
      tcb := tcb - {z};
      zombies := Without(zombies, k);
    }

    method IsOrphan(z: Ptr) returns (orphan: bool)
      requires RingOf(ring, readyHead, next, prev) && NoDup(ring) && Findable(Abs()) && 0 !in tcb && z in tcb
      ensures orphan == Orphan(Abs(), z)
    {
      if tcb[z].parent == 0 { return true; }
      var parent := FindByPid(tcb[z].parent);
      orphan := parent == 0;
    }

    /** reap_zombies in progress: the first k zombies of s have been looked at. */
    ghost predicate Reaping(s: State<Ptr>, k: nat, last: Ptr, z: Ptr)
      reads this
      requires Wf(s) && k <= |s.zombies|
    {
      var n := |Filter(s.zombies[..k], Claimed(s))|;
      && Abs() == s.(zombies := Visited(s, k), tcb := Remaining(s, s.zombies[..k]))
      && last == (if n == 0 then 0 else Visited(s, k)[n - 1])
      && z == (if k < |s.zombies| then s.zombies[k] else 0)
      && RingOf(ring, readyHead, next, prev) && ListOf(zombies, zombieHead, next) && 0 !in tcb
    }

    method ReapStep(ghost s: State<Ptr>, ghost k: nat, last: Ptr, z: Ptr) returns (last': Ptr, nxt: Ptr)
      requires Wf(s) && k < |s.zombies| && 0 !in s.zombies && Reaping(s, k, last, z)
      modifies this`zombieHead, this`next, this`tcb, this`zombies
      ensures Reaping(s, k + 1, last', nxt)
    {
      hide Sequences.Filter, Claimed, Visited, Remaining, RingOf, ListOf, Wf, Sequences.Without;
      ghost var n := |Filter(s.zombies[..k], Claimed(s))|;
      VisitedStep(s, k);
      VisitedNext(s, k);
      VisitedFacts(s, k);
      RemainingStep(s, k);
      ListAt(zombies, zombieHead, next, n);
      nxt, last' := next[z], last;
      var orphan := CheckOrphan(s, k, z);
      if orphan {
        DropZombie(last, z, n);
      } else {
        last' := z;
      }
    }

    /** Freeing zombies on the way does not change which of them are orphans. */
    method CheckOrphan(ghost s: State<Ptr>, ghost k: nat, z: Ptr) returns (orphan: bool)
      requires Wf(s) && k < |s.zombies| && z == s.zombies[k] && z in tcb && 0 !in tcb
      requires Abs() == s.(zombies := Visited(s, k), tcb := Remaining(s, s.zombies[..k]))
      requires RingOf(ring, readyHead, next, prev)
      ensures orphan == (z !in Claimed(s))
    {
      RemainingFindable(s, s.zombies[..k]);
      FindFrame(s, Abs(), tcb[z].parent);
      orphan := IsOrphan(z);
    }

    /** reap_zombies: one walk, unlinking behind a trailing pointer. */
    method ReapZombies()
      requires Linked()
      modifies this`zombieHead, this`next, this`tcb, this`zombies
      ensures Linked() && Abs() == ReapOrphans(old(Abs()))
    {
      ghost var s, k := Abs(), 0;
      var last, z := 0, zombieHead;
      while z != 0
        invariant k <= |s.zombies| && Reaping(s, k, last, z)
        decreases |s.zombies| - k
      {
        last, z := ReapStep(s, k, last, z);
        k := k + 1;
      }
      assert s.zombies[..k] == s.zombies;
      assert Abs() == ReapOrphans(s);
    }

    /** sched_yield, with no init process to respawn. */
    method Yield()
      requires Linked() && current in ring
      modifies this
      ensures Linked() && Abs() == SchedState.Yield(old(Abs()))
    {
      ReapZombies();
      assert readyHead != 0 by { assert readyHead == ring[0]; }
      if readyHead == 0 { return; }
      GiveUp();
    }

    /** The second half of sched_yield: the running thread goes back to READY. */
    method GiveUp()
      requires Linked() && current in ring
      modifies this`current, this`tcb
      ensures Linked()
      ensures var s := PutDown(old(Abs())); Abs() == SchedState.Dispatch(s, Pick(s))
    {
      ghost var s := PutDown(Abs());
      SwitchWf(Abs());
      hide RingOf, ListOf, Wf, SchedState.Pick;
      tcb := tcb[current := tcb[current].(state := Ready, quantum := QUANTUM)];
      assert Abs() == s;
      var t := Search();
      Dispatch(t);
    }

    /** The loop of sched_tick. */
    method WakeExpired(now: nat)
      requires RingOf(ring, readyHead, next, prev) && NoDup(ring) && forall t :: t in ring ==> t in tcb
      modifies this`tcb
      ensures tcb == Ticked(old(tcb), ring, now)
    {
      var t := readyHead;
      ghost var i := 0;
      assert tcb == Ticked(old(tcb), ring[..0], now);
      while true
        invariant 0 <= i < |ring| && t == ring[i]
        invariant tcb == Ticked(old(tcb), ring[..i], now)
        decreases |ring| - i
      {
        assert ring[..i + 1] == ring[..i] + [t];
        TickedStep(old(tcb), ring[..i], t, now);
        if Expired(tcb[t], now) {
          tcb := tcb[t := tcb[t].(deadline := 0, state := Ready)];
        }
        assert LinkedNext(ring, next, i);
        t := next[t];
        i := i + 1;
        if t == readyHead { break; }
      }
      assert ring[..i] == ring;
    }

    /** sched_tick at clock reading `now`. */
    method Tick(now: nat)
      requires Linked()
      modifies this`tcb
      ensures Linked() && Abs() == SchedState.Tick(old(Abs()), now)
    {
      if tcb[current].quantum > 0 {
        tcb := tcb[current := tcb[current].(quantum := tcb[current].quantum - 1)];
      }
      if readyHead != 0 { WakeExpired(now); }
    }

    // ---- sys_waitpid ----

    /** sched_child_zombie. */
    method ChildZombie(parent: int, filter: int) returns (z: Ptr)
      requires Linked()
      ensures SchedState.ChildZombie(zombies, tcb, parent, filter) == if z == 0 then None else Some(z)
    {
      ghost var i := 0;
      z := zombieHead;
      while z != 0
        invariant 0 <= i <= |zombies| && z == if i < |zombies| then zombies[i] else 0
        invariant forall j :: 0 <= j < i ==> !Matches(tcb[zombies[j]], parent, filter)
        decreases |zombies| - i
      {
        if tcb[z].parent == parent && (filter <= 0 || tcb[z].pid == filter) {
          ChildZombieAt(zombies, tcb, parent, filter, i);
          return;
        }
        assert LinkedList(zombies, next, i);
        z := next[z];
        i := i + 1;
      }
    }

    /** sched_has_child: any child on the ring or on the zombie list. */
    method HasChild(parent: int) returns (yes: bool)
      requires Linked()
      ensures yes == (LiveChild(Abs(), parent) || ZombieChild(Abs(), parent))
    {
      var t := readyHead;
      ghost var i := 0;
      while true
        invariant 0 <= i < |ring| && t == ring[i]
        invariant forall j :: 0 <= j < i ==> tcb[ring[j]].parent != parent
        decreases |ring| - i
      {
        if tcb[t].parent == parent { return true; }
        assert LinkedNext(ring, next, i);
        t := next[t];
        i := i + 1;
        if t == readyHead { break; }
      }
      yes := HasZombieChild(parent);
    }

    method HasZombieChild(parent: int) returns (yes: bool)
      requires Linked()
      ensures yes == ZombieChild(Abs(), parent)
    {
      var z := zombieHead;
      ghost var i := 0;
      while z != 0
        invariant 0 <= i <= |zombies| && z == if i < |zombies| then zombies[i] else 0
        invariant forall j :: 0 <= j < i ==> tcb[zombies[j]].parent != parent
        decreases |zombies| - i
      {
        if tcb[z].parent == parent { return true; }
        assert LinkedList(zombies, next, i);
        z := next[z];
        i := i + 1;
      }
      return false;
    }

    /** sched_reap_zombie on a listed zombie. */
    method ReapZombie(z: Ptr)
      requires Linked() && z in zombies
      modifies this`zombieHead, this`next, this`tcb, this`zombies
      ensures Linked() && Abs() == Reap(old(Abs()), z)
    {
      ghost var k := IndexOf(zombies, z);
      WithoutMembers(zombies, k);
      var last := 0;
      if zombieHead != z {
        last := zombieHead;
        ghost var i := 0;
        assert LinkedList(zombies, next, 0);
        while next[last] != 0 && next[last] != z
          invariant 0 <= i < k && last == zombies[i] && last in next
          invariant next[last] == zombies[i + 1]
          decreases k - i
        {
          assert LinkedList(zombies, next, i + 1);
          last := next[last];
          i := i + 1;
        }
      }
      DropZombie(last, z, k);
    }

    /** One pass of the loop in sys_waitpid. */
    method WaitPass(filter: int) returns (r: WaitResult)
      requires Linked() && current in ring
      modifies this
      ensures Linked() && (Abs(), r) == SchedState.WaitPass(old(Abs()), filter)
    {
      var me := tcb[current].pid;
      var z := ChildZombie(me, filter);
      if z != 0 {
        r := Reaped(tcb[z].pid, tcb[z].status);
        tcb := tcb[current := tcb[current].(waiting := None)];
        ReapZombie(z);
        return;
      }
      var any := HasChild(me);
      tcb := tcb[current := tcb[current].(waiting := if any then Some(filter) else None)];
      if any {
        Suspend();
        return Waits;
      }
      return NoChild;
    }
  }
}
