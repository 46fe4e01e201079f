/** What every run of the scheduler keeps, from any interleaving of its calls. */
module SchedRuns {
  import opened Sequences
  import opened SchedState

  datatype Step<T> =
    | DoSpawn(t: T, user: bool)
    | DoYield
    | DoSuspend
    | DoDeadline(deadline: nat)
    | DoExit(status: int)
    | DoWake(t: T)
    | DoTick(now: nat)
    | DoWait(filter: int)

  /** The main thread never suspends, waits or exits, and a thread inside
      sys_waitpid does nothing but run the loop again. */
  ghost predicate Enabled<T>(s: State<T>, e: Step<T>)
    requires Wf(s)
  {
    match e
    case DoSpawn(t, _) => t !in s.tcb && s.tcb[s.cur].waiting.None?
    case DoYield => s.tcb[s.cur].waiting.None?
    case DoSuspend => s.cur != s.main && s.tcb[s.cur].waiting.None?
    case DoDeadline(_) => s.tcb[s.cur].waiting.None?
    case DoExit(_) => s.cur != s.main && s.tcb[s.cur].waiting.None?
    case DoWake(t) => t in s.tcb
    case DoTick(_) => true
    case DoWait(f) => s.cur != s.main && (s.tcb[s.cur].waiting.Some? ==> s.tcb[s.cur].waiting.value == f)
  }

  ghost function Next<T>(s: State<T>, e: Step<T>): State<T>
    requires Wf(s) && s.cur in s.ring && Enabled(s, e)
  {
    match e
    case DoSpawn(t, user) => Spawn(s, t, user)
    case DoYield => Yield(s)
    case DoSuspend => Suspend(s)
    case DoDeadline(deadline) => SetDeadline(s, deadline)
    case DoExit(status) => Exit(s, status)
    case DoWake(t) => Wake(s, t)
    case DoTick(now) => Tick(s, now)
    case DoWait(f) => WaitPass(s, f).0
  }

  // ---- the invariant ----

  ghost predicate Shape<T>(s: State<T>) {
    && Wf(s) && s.cur in s.ring && s.ring[0] == s.main
    && s.tcb[s.cur].state == Running
    && (forall t :: t in s.ring && t != s.cur ==> s.tcb[t].state == Ready || s.tcb[t].state == Blocked)
    && s.tcb[s.main].state != Blocked
    && (forall z :: z in s.zombies ==> s.tcb[z].state == Zombie)
    && s.tcb[s.idle].state == Ready
  }

  ghost predicate Pids<T>(s: State<T>) {
    && (forall t :: t in s.tcb ==> 0 < s.tcb[t].pid < s.nextPid && 0 <= s.tcb[t].parent < s.nextPid)
    && (forall t, u :: t in s.tcb && u in s.tcb && s.tcb[t].pid == s.tcb[u].pid ==> t == u)
  }

  /** What a thread blocked in sys_waitpid may rely on. */
  ghost predicate WaiterOk<T>(s: State<T>, t: T, filter: int)
    requires Wf(s) && t in s.tcb
  {
    && (forall z :: z in s.zombies ==> !Matches(s.tcb[z], s.tcb[t].pid, filter))
    && (LiveChild(s, s.tcb[t].pid) || (filter > 0 && ZombieChild(s, s.tcb[t].pid)))
  }

  ghost predicate Waiters<T>(s: State<T>)
    requires Wf(s)
  {
    forall t :: t in s.ring && s.tcb[t].state == Blocked && s.tcb[t].waiting.Some? ==>
      WaiterOk(s, t, s.tcb[t].waiting.value)
  }

  ghost predicate Inv<T>(s: State<T>) {
    Shape(s) && Pids(s) && Waiters(s)
  }

  /** sched_init: main runs alone on the ring, idle is set aside. */
  function Boot<T(==)>(main: T, idle: T): (s: State<T>) {
    State(main, idle, [main], [], main,
          map[main := Tcb(1, 0, 0, Running, QUANTUM, 0, None),
              idle := Tcb(2, 0, 0, Ready, QUANTUM, 0, None)], 3)
  }

  lemma BootInv<T>(main: T, idle: T)
    requires main != idle
    ensures Inv(Boot(main, idle))
  {
  }

  // ---- the pick ----

  /** Under the invariant the search never falls through to the idle thread when
      the caller is READY itself or is not main. */
  lemma PickIsReady<T>(s: State<T>)
    requires Wf(s) && s.cur in s.ring
    requires exists t :: t in s.ring && s.tcb[t].state == Ready
    ensures Pick(s) in s.ring && s.tcb[Pick(s)].state == Ready
  {
    var t :| t in s.ring && s.tcb[t].state == Ready;
    var visit := Others(s.ring, s.cur) + [s.cur];
    OthersCover(s.ring, s.cur);
    assert t in visit;
  }

  lemma OthersCover<T>(ring: seq<T>, cur: T)
    requires NoDup(ring) && cur in ring
    ensures forall t :: t in ring && t != cur ==> t in Others(ring, cur)
    ensures forall t :: t in Others(ring, cur) ==> t in ring && t != cur
  {
    var c := IndexOf(ring, cur);
    var o := Others(ring, cur);
    forall t | t in ring && t != cur ensures t in o {
      var k :| 0 <= k < |ring| && ring[k] == t;
      assert o[if k > c then k - c - 1 else k + |ring| - c - 1] == t;
    }
  }

  // ---- preservation ----

  /** r has the threads, lists and identities of s; only run states may differ. */
  ghost predicate SameThreads<T>(s: State<T>, r: State<T>) {
    && r.main == s.main && r.idle == s.idle && r.nextPid == s.nextPid
    && r.ring == s.ring && r.zombies == s.zombies
    && (forall t :: t in s.tcb ==> t in r.tcb)
    && (forall t :: t in r.tcb ==>
          t in s.tcb && r.tcb[t].pid == s.tcb[t].pid
          && r.tcb[t].parent == s.tcb[t].parent && r.tcb[t].status == s.tcb[t].status)
  }

  /** A waiter keeps its guarantee as long as its own children do not move. */
  lemma WaiterKept<T>(s: State<T>, r: State<T>, t: T, filter: int)
    requires Wf(s) && Wf(r) && t in s.tcb && t in r.tcb && r.tcb[t].pid == s.tcb[t].pid
    requires WaiterOk(s, t, filter)
    requires forall z :: z in r.zombies && r.tcb[z].parent == s.tcb[t].pid ==>
               z in s.zombies && s.tcb[z].parent == r.tcb[z].parent && s.tcb[z].pid == r.tcb[z].pid
    requires forall z :: z in s.zombies && s.tcb[z].parent == s.tcb[t].pid ==>
               z in r.zombies && s.tcb[z].parent == r.tcb[z].parent
    requires forall u :: u in s.ring && s.tcb[u].parent == s.tcb[t].pid ==>
               u in r.ring && r.tcb[u].parent == s.tcb[u].parent
    ensures WaiterOk(r, t, filter)
  {
    var me := s.tcb[t].pid;
    if LiveChild(s, me) {
      var u :| u in s.ring && s.tcb[u].parent == me;
      assert u in r.ring && r.tcb[u].parent == me;
    } else {
      var z :| z in s.zombies && s.tcb[z].parent == me;
      assert z in r.zombies && r.tcb[z].parent == me;
    }
  }

  lemma SameThreadsKeep<T>(s: State<T>, r: State<T>)
    requires Shape(s) && Pids(s) && Wf(r) && SameThreads(s, r)
    requires forall t :: t in r.ring && r.tcb[t].state == Blocked && r.tcb[t].waiting.Some? ==>
               WaiterOk(s, t, r.tcb[t].waiting.value)
    ensures Pids(r) && Waiters(r)
  {
    forall t | t in r.ring && r.tcb[t].state == Blocked && r.tcb[t].waiting.Some?
      ensures WaiterOk(r, t, r.tcb[t].waiting.value)
    {
      WaiterKept(s, r, t, r.tcb[t].waiting.value);
    }
  }

  lemma SpawnInv<T>(s: State<T>, t: T, user: bool)
    requires Inv(s) && t !in s.tcb
    ensures Inv(Spawn(s, t, user))
  {
    SpawnShape(s, t, user);
    var r := Spawn(s, t, user);
    forall u | u in r.ring && r.tcb[u].state == Blocked && r.tcb[u].waiting.Some?
      ensures WaiterOk(r, u, r.tcb[u].waiting.value)
    {
      WaiterKept(s, r, u, r.tcb[u].waiting.value);
    }
  }

  lemma SpawnShape<T>(s: State<T>, t: T, user: bool)
    requires Shape(s) && Pids(s) && t !in s.tcb
    ensures Shape(Spawn(s, t, user)) && Pids(Spawn(s, t, user))
  {
    assert forall u :: u in s.ring + [t] <==> u in s.ring || u == t;
  }

  lemma WakeInv<T>(s: State<T>, t: T)
    requires Inv(s) && t in s.tcb
    ensures Inv(Wake(s, t)) && SameThreads(s, Wake(s, t))
  {
    SameThreadsKeep(s, Wake(s, t));
  }

  lemma SpendInv<T>(s: State<T>)
    requires Inv(s)
    ensures Inv(SpendQuantum(s)) && SameThreads(s, SpendQuantum(s))
  {
    SameThreadsKeep(s, SpendQuantum(s));
  }

  lemma TickedInv<T>(s: State<T>, now: nat)
    requires Inv(s)
    ensures var r := s.(tcb := Ticked(s.tcb, s.ring, now)); Inv(r) && SameThreads(s, r)
  {
    SameThreadsKeep(s, s.(tcb := Ticked(s.tcb, s.ring, now)));
  }

  lemma TickInv<T>(s: State<T>, now: nat)
    requires Inv(s)
    ensures Inv(Tick(s, now)) && SameThreads(s, Tick(s, now))
  {
    SpendInv(s);
    TickedInv(SpendQuantum(s), now);
  }

  lemma ReapOrphansInv<T>(s: State<T>)
    requires Inv(s)
    ensures Inv(ReapOrphans(s))
  {
    var r := ReapOrphans(s);
    FilterMembers(s.zombies, Claimed(s));
    forall t | t in r.ring && r.tcb[t].state == Blocked && r.tcb[t].waiting.Some?
      ensures WaiterOk(r, t, r.tcb[t].waiting.value)
    {
      LiveParentFound(s, t);
      WaiterKept(s, r, t, r.tcb[t].waiting.value);
    }
  }

  lemma LiveParentFound<T>(s: State<T>, t: T)
    requires Shape(s) && Pids(s) && t in s.ring
    ensures FindByPid(s, s.tcb[t].pid) == Some(t)
  {
  }

  lemma YieldInv<T>(s: State<T>)
    requires Inv(s)
    ensures Inv(Yield(s))
  {
    ReapOrphansInv(s);
    SwitchInv(ReapOrphans(s));
  }

  lemma SwitchInv<T>(s: State<T>)
    requires Inv(s)
    ensures Pick(PutDown(s)) in s.ring && Inv(Dispatch(PutDown(s), Pick(PutDown(s))))
  {
    hide SchedState.Pick;
    var put := PutDown(s);
    assert put.tcb[s.cur].state == Ready;
    PickIsReady(put);
    SwitchTo(s, put, Pick(put));
  }

  /** Putting the running thread down and dispatching a READY one keeps the invariant. */
  lemma SwitchTo<T>(s: State<T>, put: State<T>, t: T)
    requires Inv(s) && Wf(put) && SameThreads(s, put) && put.cur == s.cur
    requires put.tcb[s.cur].state == Ready || (put.tcb[s.cur].state == Blocked && s.cur != s.main)
    requires forall u :: u in s.tcb && u != s.cur ==> put.tcb[u] == s.tcb[u]
    requires put.tcb[s.cur].state == Blocked && put.tcb[s.cur].waiting.Some? ==> WaiterOk(s, s.cur, put.tcb[s.cur].waiting.value)
    requires t in s.ring && put.tcb[t].state == Ready
    ensures Inv(Dispatch(put, t))
  {
    DispatchShape(s, put, t);
    var r := Dispatch(put, t);
    forall u | u in r.ring && r.tcb[u].state == Blocked && r.tcb[u].waiting.Some?
      ensures WaiterOk(s, u, r.tcb[u].waiting.value)
    {
      assert u != s.cur ==> r.tcb[u] == s.tcb[u];
    }
    hide WaiterOk;
    SameThreadsKeep(s, r);
  }

  /** Putting the running thread down and dispatching a READY one keeps the shape. */
  lemma DispatchShape<T>(s: State<T>, put: State<T>, t: T)
    requires Shape(s) && Wf(put) && SameThreads(s, put) && put.cur == s.cur
    requires put.tcb[s.cur].state == Ready || (put.tcb[s.cur].state == Blocked && s.cur != s.main)
    requires forall u :: u in s.tcb && u != s.cur ==> put.tcb[u] == s.tcb[u]
    requires t in s.ring && put.tcb[t].state == Ready
    ensures Shape(Dispatch(put, t)) && SameThreads(s, Dispatch(put, t))
  {
  }

  lemma SuspendInv<T>(s: State<T>)
    requires Inv(s) && s.cur != s.main
    requires s.tcb[s.cur].waiting.Some? ==> WaiterOk(s, s.cur, s.tcb[s.cur].waiting.value)
    ensures Inv(Suspend(s))
  {
    hide SchedState.Pick;
    PickIsReady(s);
    var put := s.(tcb := s.tcb[s.cur := s.tcb[s.cur].(state := Blocked)]);
    SwitchTo(s, put, Pick(s));
  }

  /** The shape between two threads: nobody runs, the ring is headed by main. */
  ghost predicate Between<T>(b: State<T>) {
    && b.ring != [] && b.ring[0] == b.main && NoDup(b.ring) && NoDup(b.zombies)
    && (forall t :: t in b.ring ==> t in b.tcb && t !in b.zombies)
    && (forall t :: t in b.ring ==> b.tcb[t].state == Ready || b.tcb[t].state == Blocked)
    && b.tcb[b.main].state == Ready
    && b.idle !in b.ring && b.idle !in b.zombies && b.idle in b.tcb && b.tcb[b.idle].state == Ready
    && (forall z :: z in b.zombies ==> z in b.tcb && b.tcb[z].state == Zombie)
    && (forall t :: t in b.tcb ==> t in b.ring || t in b.zombies || t == b.idle)
  }

  lemma BuryBetween<T>(s: State<T>, status: int)
    requires Shape(s) && s.cur != s.main
    ensures var b := Bury(s, status);
      && Between(b) && (forall t :: t in b.ring ==> t in s.tcb && b.tcb[t] == s.tcb[t])
  {
    var b := Bury(s, status);
    assert forall z :: z in b.zombies <==> z in s.zombies || z == s.cur;
  }

  lemma WakeParentFacts<T>(s: State<T>)
    requires Findable(s) && Pids(s)
    ensures var r := WakeParent(s);
      && Pids(r)
      && (forall t :: t in s.tcb ==>
            r.tcb[t] == s.tcb[t] || (s.tcb[t].state == Blocked && r.tcb[t] == s.tcb[t].(state := Ready)))
      && (forall t :: t in s.ring && s.tcb[t].pid == s.tcb[s.cur].parent ==> r.tcb[t].state != Blocked)
  {
  }

  lemma WakeParentBetween<T>(s: State<T>)
    requires Findable(s) && Between(s)
    ensures Between(WakeParent(s))
  {
  }

  lemma DispatchHead<T>(s: State<T>)
    requires Between(s)
    ensures Shape(Dispatch(s, s.ring[0]))
  {
    assert s.ring[0] in s.ring;
  }

  lemma ExitShape<T>(s: State<T>, status: int)
    requires Shape(s) && s.cur != s.main
    ensures Shape(Exit(s, status))
  {
    BuryBetween(s, status);
    WakeParentBetween(Bury(s, status));
    DispatchHead(WakeParent(Bury(s, status)));
  }

  lemma ExitPids<T>(s: State<T>, status: int)
    requires Shape(s) && Pids(s) && s.cur != s.main
    ensures Pids(Exit(s, status))
  {
    ExitIds(s, status);
  }

  /** A parent blocked when its child exits is READY or RUNNING afterwards. */
  lemma ExitWakesParent<T>(s: State<T>, status: int, t: T)
    requires Shape(s) && Pids(s) && s.cur != s.main && t in s.ring && t != s.cur
    requires Exit(s, status).tcb[t].state == Blocked
    ensures s.tcb[t].state == Blocked && Exit(s, status).tcb[t] == s.tcb[t]
    ensures s.tcb[s.cur].parent != s.tcb[t].pid
  {
    BuryBetween(s, status);
    WakeParentFacts(Bury(s, status));
  }

  /** Exit changes no thread's pid or parent. */
  lemma ExitIds<T>(s: State<T>, status: int)
    requires Wf(s) && s.cur in s.ring && s.cur != s.main
    ensures forall t :: t in s.tcb ==>
              t in Exit(s, status).tcb
              && Exit(s, status).tcb[t].pid == s.tcb[t].pid && Exit(s, status).tcb[t].parent == s.tcb[t].parent
    ensures Exit(s, status).tcb.Keys == s.tcb.Keys && Exit(s, status).nextPid == s.nextPid
    ensures Exit(s, status).zombies == [s.cur] + s.zombies
    ensures Exit(s, status).ring == Bury(s, status).ring
  {
    hide Sequences.Without, Sequences.IndexOf, SchedState.FindByPid, SchedState.FirstWithPid;
  }

  lemma ExitInv<T>(s: State<T>, status: int)
    requires Inv(s) && s.cur != s.main
    ensures Inv(Exit(s, status))
  {
    var r := Exit(s, status);
    ExitShape(s, status);
    ExitPids(s, status);
    ExitIds(s, status);
    forall t | t in r.ring && r.tcb[t].state == Blocked && r.tcb[t].waiting.Some?
      ensures WaiterOk(r, t, r.tcb[t].waiting.value)
    {
      ExitWakesParent(s, status, t);
      WaiterKept(s, r, t, r.tcb[t].waiting.value);
    }
  }

  lemma ReapShape<T>(s: State<T>, z: T)
    requires Shape(s) && Pids(s) && z in s.zombies
    ensures Shape(Reap(s, z)) && Pids(Reap(s, z))
    ensures forall t :: t in Reap(s, z).zombies <==> t in s.zombies && t != z
  {
    WithoutMembers(s.zombies, IndexOf(s.zombies, z));
  }

  lemma ReapInv<T>(s: State<T>, z: T)
    requires Inv(s) && z in s.zombies && s.tcb[z].parent == s.tcb[s.cur].pid
    ensures Inv(Reap(s, z))
  {
    ReapShape(s, z);
    var r := Reap(s, z);
    forall t | t in r.ring && r.tcb[t].state == Blocked && r.tcb[t].waiting.Some?
      ensures WaiterOk(r, t, r.tcb[t].waiting.value)
    {
      WaiterKept(s, r, t, r.tcb[t].waiting.value);
    }
  }

  /** Entering or leaving sys_waitpid touches only the caller's own record. */
  lemma WaitingInv<T>(s: State<T>, w: Option<int>)
    requires Inv(s)
    ensures Inv(SetWaiting(s, w)) && SameThreads(s, SetWaiting(s, w))
  {
    SameThreadsKeep(s, SetWaiting(s, w));
  }

  lemma WaitInv<T>(s: State<T>, filter: int)
    requires Inv(s) && s.cur != s.main
    ensures Inv(WaitPass(s, filter).0)
  {
    var me := s.tcb[s.cur].pid;
    WaitingInv(s, None);
    WaitingInv(s, Some(filter));
    match ChildZombie(s.zombies, s.tcb, me, filter)
    case Some(z) => ReapInv(SetWaiting(s, None), z);
    case None =>
      if LiveChild(s, me) || ZombieChild(s, me) {
        WaiterKept(s, SetWaiting(s, Some(filter)), s.cur, filter);
        SuspendInv(SetWaiting(s, Some(filter)));
      }
  }

  lemma DeadlineInv<T>(s: State<T>, deadline: nat)
    requires Inv(s)
    ensures Inv(SetDeadline(s, deadline)) && SameThreads(s, SetDeadline(s, deadline))
  {
    SameThreadsKeep(s, SetDeadline(s, deadline));
  }

  /** Every enabled step keeps the invariant. */
  lemma StepInv<T>(s: State<T>, e: Step<T>)
    requires Inv(s) && Enabled(s, e)
    ensures Inv(Next(s, e))
  {
    match e
    case DoSpawn(t, user) => SpawnInv(s, t, user);
    case DoYield => YieldInv(s);
    case DoSuspend => SuspendInv(s);
    case DoDeadline(deadline) => DeadlineInv(s, deadline);
    case DoExit(status) => ExitInv(s, status);
    case DoWake(t) => WakeInv(s, t);
    case DoTick(now) => TickInv(s, now);
    case DoWait(f) => WaitInv(s, f);
  }

  // ---- whole runs ----

  ghost predicate CanRun<T>(s: State<T>, es: seq<Step<T>>)
    requires Inv(s)
    decreases |es|
  {
    es == [] || (Enabled(s, es[0]) && (StepInv(s, es[0]); CanRun(Next(s, es[0]), es[1..])))
  }

  ghost function After<T>(s: State<T>, es: seq<Step<T>>): (r: State<T>)
    requires Inv(s) && CanRun(s, es)
    ensures Inv(r)
    decreases |es|
  {
    if es == [] then s else
      StepInv(s, es[0]);
      After(Next(s, es[0]), es[1..])
  }

  /** Scheduler safety: whatever the kernel does after sched_init, exactly one
      thread is RUNNING, it is current and on the ring, the ring is headed by main,
      zombies are off the ring, and the idle thread is never dispatched. */
  lemma RunSafety<T>(main: T, idle: T, es: seq<Step<T>>)
    requires main != idle && (BootInv(main, idle); CanRun(Boot(main, idle), es))
    ensures (BootInv(main, idle);
      var r := After(Boot(main, idle), es);
      && r.ring != [] && r.ring[0] == r.main && NoDup(r.ring)
      && r.cur in r.ring && r.cur != r.idle
      && (forall t :: t in r.tcb ==> (r.tcb[t].state == Running <==> t == r.cur))
      && (forall t :: t in r.tcb ==> (r.tcb[t].state == Zombie <==> t in r.zombies))
      && (forall t :: t in r.ring ==> t !in r.zombies)
      && r.idle !in r.ring && r.idle !in r.zombies)
  {
    BootInv(main, idle);
    var r := After(Boot(main, idle), es);
    assert Shape(r);
  }

  /** Suspending reaches the idle thread exactly when main itself suspends while
      every other ring thread is blocked, which is why main must keep running. */
  lemma SuspendReachesIdle<T>(s: State<T>)
    requires Inv(s)
    ensures Suspend(s).cur == s.idle <==>
              s.cur == s.main && forall t :: t in s.ring && t != s.cur ==> s.tcb[t].state == Blocked
  {
    if exists t :: t in s.ring && s.tcb[t].state == Ready {
      PickIsReady(s);
    }
    assert s.main in s.ring;
  }
}
