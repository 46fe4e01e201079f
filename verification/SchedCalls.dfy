/** What each scheduler call does to every thread, read off the state before and
    after it, and how long a blocked thread stays blocked. */
module SchedCalls {
  import opened Sequences
  import opened SchedState
  import opened SchedRuns
  import opened SchedFairness

  // ---- the next thread ----

  /** The READY thread the fewest ring places behind the current one. */
  ghost predicate Nearest<T>(s: State<T>, t: T) {
    && s.cur in s.ring && t in s.ring && t in s.tcb && t != s.cur && s.tcb[t].state == Ready
    && forall u :: u in s.ring && u in s.tcb && u != s.cur && s.tcb[u].state == Ready ==>
         Gap(s.ring, s.cur, t) <= Gap(s.ring, s.cur, u)
  }

  lemma PlaceIsGap<T>(ring: seq<T>, cur: T, p: nat)
    requires NoDup(ring) && cur in ring && p < |ring| - 1
    ensures var t := Others(ring, cur)[p]; t in ring && t != cur && Gap(ring, cur, t) == p
  {
    var c := IndexOf(ring, cur);
    var j := if p < |ring| - c - 1 then c + 1 + p else p - (|ring| - c - 1);
    assert Others(ring, cur)[p] == ring[j];
    IndexOfUnique(ring, j);
  }

  lemma PickNearest<T>(s: State<T>, some: T)
    requires Wf(s) && s.cur in s.ring && some in s.ring && some != s.cur && s.tcb[some].state == Ready
    ensures Nearest(s, Pick(s))
  {
    var visit := Others(s.ring, s.cur) + [s.cur];
    forall u | u in s.ring && u != s.cur && s.tcb[u].state == Ready
      ensures Pick(s) in s.ring && Pick(s) != s.cur && Gap(s.ring, s.cur, Pick(s)) <= Gap(s.ring, s.cur, u)
    {
      GapIsPlace(s.ring, s.cur, u);
      var p := FirstReadyPlace(visit, s.tcb, Gap(s.ring, s.cur, u));
      PlaceIsGap(s.ring, s.cur, p);
    }
  }

  // ---- sched_suspend, sched_yield ----

  /** Nothing but the control blocks of `a` and `b` and the choice of the current
      thread differs. */
  ghost predicate OnlyThese<T>(s: State<T>, r: State<T>, a: T, b: T) {
    && r.main == s.main && r.idle == s.idle && r.ring == s.ring && r.nextPid == s.nextPid
    && r.zombies == s.zombies && r.tcb.Keys == s.tcb.Keys
    && forall t :: t in s.tcb && t != a && t != b ==> t in r.tcb && r.tcb[t] == s.tcb[t]
  }

  /** After sched_suspend the caller is BLOCKED with its other fields kept, the
      nearest READY thread runs with a full quantum, and no other thread changes. */
  lemma SuspendExact<T>(s: State<T>)
    requires Inv(s) && s.cur != s.main
    ensures var r := Suspend(s);
      && Nearest(s, r.cur) && OnlyThese(s, r, s.cur, r.cur)
      && r.tcb[s.cur] == s.tcb[s.cur].(state := Blocked)
      && r.tcb[r.cur] == s.tcb[r.cur].(state := Running, quantum := 10)
  {
    hide SchedState.Pick;
    PickNearest(s, s.main);
  }

  /** The zombies of a parent that thread_find_by_pid still finds. */
  ghost predicate HasLiveParent<T>(s: State<T>, z: T)
    requires z in s.tcb
  {
    exists p :: (p in s.ring || p == s.idle) && p in s.tcb && s.tcb[p].pid == s.tcb[z].parent
  }

  lemma ClaimedIff<T>(s: State<T>, z: T)
    requires Shape(s) && Pids(s) && z in s.zombies
    ensures z in Claimed(s) <==> HasLiveParent(s, z)
  {
    var pid := s.tcb[z].parent;
    if HasLiveParent(s, z) {
      var p :| (p in s.ring || p == s.idle) && p in s.tcb && s.tcb[p].pid == pid;
      assert pid > 0;
      assert FindByPid(s, pid).Some?;
    } else {
      assert pid > 0 ==> FindByPid(s, pid).None?;
    }
  }

  lemma ReapsOrphans<T>(s: State<T>)
    requires Inv(s)
    ensures var r := ReapOrphans(s);
      && r.zombies == Filter(s.zombies, set z | z in s.zombies && HasLiveParent(s, z))
      && (forall t :: t in r.tcb <==> t in s.tcb && (t in s.zombies ==> HasLiveParent(s, t)))
      && (forall t :: t in r.tcb ==> r.tcb[t] == s.tcb[t])
  {
    forall z | z in s.zombies ensures z in Claimed(s) <==> HasLiveParent(s, z) {
      ClaimedIff(s, z);
    }
    assert Claimed(s) == set z | z in s.zombies && HasLiveParent(s, z);
  }

  /** r has the threads of s; run states and quanta apart, the control blocks agree. */
  lemma SwitchKeeps<T>(s: State<T>)
    requires Wf(s) && s.cur in s.ring
    ensures var r := Dispatch(PutDown(s), Pick(PutDown(s))); SameThreads(s, r)
  {
    hide SchedState.Pick;
  }

  /** The zombies a yield leaves are those whose parent is alive, in their order,
      and the control blocks of the others are freed. */
  lemma YieldReaps<T>(s: State<T>)
    requires Inv(s)
    ensures var r := Yield(s);
      && r.zombies == Filter(s.zombies, set z | z in s.zombies && HasLiveParent(s, z))
      && (forall t :: t in r.tcb <==> t in s.tcb && (t in s.zombies ==> HasLiveParent(s, t)))
      && (forall z :: z in r.zombies ==> z in r.tcb && HasLiveParent(r, z))
  {
    ReapsOrphans(s);
    var o := ReapOrphans(s);
    SwitchKeeps(o);
    var r := Yield(s);
    assert r == Dispatch(PutDown(o), Pick(PutDown(o))) && o.ring == s.ring && o.idle == s.idle;
    hide SchedState.Yield, SchedState.ReapOrphans, SchedState.Pick, SchedState.Dispatch, SchedState.PutDown, Filter;
    FilterMembers(s.zombies, set z | z in s.zombies && HasLiveParent(s, z));
    ParentsStay(s, r);
  }

  lemma ParentsStay<T>(s: State<T>, r: State<T>)
    requires Inv(s) && r.ring == s.ring && r.idle == s.idle
    requires forall t :: t in r.tcb ==> t in s.tcb && r.tcb[t].pid == s.tcb[t].pid && r.tcb[t].parent == s.tcb[t].parent
    requires forall t :: t in s.tcb && t !in s.zombies ==> t in r.tcb
    requires forall z :: z in r.zombies ==> z in r.tcb && HasLiveParent(s, z)
    ensures forall z :: z in r.zombies ==> HasLiveParent(r, z)
  {
    forall z | z in r.zombies ensures HasLiveParent(r, z) {
      var p :| (p in s.ring || p == s.idle) && p in s.tcb && s.tcb[p].pid == s.tcb[z].parent;
      assert p in r.tcb && r.tcb[p].pid == r.tcb[z].parent;
    }
  }

  /** sched_yield frees exactly the zombies whose parent is gone, runs the nearest
      READY thread, or the caller again when there is none, and leaves the caller
      READY; no other thread changes. */
  lemma YieldExact<T>(s: State<T>)
    requires Inv(s)
    ensures var r := Yield(s);
      && r.ring == s.ring && r.main == s.main && r.idle == s.idle && r.nextPid == s.nextPid
      && (if exists t :: t in s.ring && t != s.cur && s.tcb[t].state == Ready then Nearest(s, r.cur) else r.cur == s.cur)
      && r.cur in r.tcb && r.tcb[r.cur] == s.tcb[r.cur].(state := Running, quantum := 10)
      && (r.cur != s.cur ==> s.cur in r.tcb && r.tcb[s.cur] == s.tcb[s.cur].(state := Ready, quantum := 10))
      && (forall t :: t in r.tcb && t != s.cur && t != r.cur ==> t in s.tcb && r.tcb[t] == s.tcb[t])
  {
    ReapsOrphans(s);
    ReapOrphansInv(s);
    var put := PutDown(ReapOrphans(s));
    assert forall t :: t in s.ring ==> t in put.tcb && (t != s.cur ==> put.tcb[t] == s.tcb[t]);
    hide SchedState.Pick, SchedState.ReapOrphans;
    PickIsReady(put);
    if t :| t in s.ring && t != s.cur && s.tcb[t].state == Ready {
      PickNearest(put, t);
      assert Nearest(s, Pick(put));
    }
  }

  // ---- sched_exit, sched_tick, sched_spawn ----

  /** After sched_exit main runs, the caller heads the zombie list with its status,
      its parent is READY if it was BLOCKED, and no other thread changes. */
  lemma ExitExact<T>(s: State<T>, status: int)
    requires Inv(s) && s.cur != s.main
    ensures var r := Exit(s, status);
      && r.cur == s.main && r.zombies == [s.cur] + s.zombies && r.nextPid == s.nextPid
      && (forall t :: t in r.ring <==> t in s.ring && t != s.cur)
      && r.tcb.Keys == s.tcb.Keys
      && r.tcb[s.cur] == s.tcb[s.cur].(state := Zombie, status := status)
      && r.tcb[s.main] == s.tcb[s.main].(state := Running, quantum := 10)
      && (forall t :: t in s.tcb && t != s.cur && t != s.main ==>
            r.tcb[t] == if s.tcb[t].pid == s.tcb[s.cur].parent && s.tcb[t].state == Blocked
                        then s.tcb[t].(state := Ready) else s.tcb[t])
  {
    BuryBetween(s, status);
    var b := Bury(s, status);
    ParentWoken(s, b);
  }

  lemma ParentWoken<T>(s: State<T>, b: State<T>)
    requires Inv(s) && s.cur != s.main && Between(b) && Findable(b) && b.cur == s.cur && b.tcb.Keys == s.tcb.Keys
    requires b.main == s.main && b.idle == s.idle && (forall t :: t in b.ring <==> t in s.ring && t != s.cur)
    requires forall t :: t in s.tcb && t != s.cur ==> b.tcb[t] == s.tcb[t]
    requires b.tcb[s.cur].pid == s.tcb[s.cur].pid && b.tcb[s.cur].parent == s.tcb[s.cur].parent
    requires b.tcb[s.cur].state == Zombie
    ensures var w := WakeParent(b);
      && w.ring == b.ring && w.main == b.main && w.zombies == b.zombies && w.tcb[s.cur] == b.tcb[s.cur]
      && (forall t :: t in s.tcb && t != s.cur ==>
            w.tcb[t] == if s.tcb[t].pid == s.tcb[s.cur].parent && s.tcb[t].state == Blocked
                        then s.tcb[t].(state := Ready) else s.tcb[t])
  {
  }

  /** sched_tick takes one from the current quantum and wakes the ring threads whose
      deadline is set and has come; nothing else changes. */
  lemma TickExact<T>(s: State<T>, now: nat, t: T)
    requires Inv(s) && t in s.tcb
    ensures var r, b := Tick(s, now), s.tcb[t];
      && r.ring == s.ring && r.zombies == s.zombies && r.cur == s.cur && r.nextPid == s.nextPid && r.tcb.Keys == s.tcb.Keys
      && r.tcb[t] ==
           if t == s.cur then b.(quantum := if b.quantum > 0 then b.quantum - 1 else b.quantum)
           else if t in s.ring && b.state == Blocked && 0 < b.deadline <= now then b.(deadline := 0, state := Ready)
           else b
  {
  }

  /** A new thread is READY at the end of the ring with a pid nobody has had; a user
      thread is its spawner's child and nobody else's, a kernel thread nobody's. */
  lemma SpawnExact<T>(s: State<T>, t: T, user: bool)
    requires Inv(s) && t !in s.tcb
    ensures var r := Spawn(s, t, user);
      && r.ring == s.ring + [t] && r.zombies == s.zombies && r.cur == s.cur
      && r.tcb.Keys == s.tcb.Keys + {t} && (forall u :: u in s.tcb ==> r.tcb[u] == s.tcb[u])
      && r.tcb[t].state == Ready && r.tcb[t].deadline == 0 && r.tcb[t].waiting == None
      && (forall u :: u in s.tcb ==> r.tcb[u].pid < r.tcb[t].pid < r.nextPid)
      && (forall u :: u in r.tcb ==> (r.tcb[t].parent == r.tcb[u].pid <==> user && u == s.cur))
  {
  }

  // ---- sys_waitpid ----

  /** t is a child of the current thread. */
  ghost predicate MyChild<T>(s: State<T>, t: T) {
    s.cur in s.tcb && t in s.tcb && s.tcb[t].parent == s.tcb[s.cur].pid
  }

  /** z is an unreaped child the filter admits: any for a filter of 0 or less. */
  ghost predicate Wanted<T>(s: State<T>, z: T, filter: int) {
    MyChild(s, z) && (filter > 0 ==> s.tcb[z].pid == filter)
  }

  /** The i-th zombie is the first one wanted. */
  ghost predicate FirstWanted<T>(s: State<T>, filter: int, i: nat) {
    i < |s.zombies| && Wanted(s, s.zombies[i], filter) && forall j :: 0 <= j < i ==> !Wanted(s, s.zombies[j], filter)
  }

  lemma ChildZombiePlace<T>(q: seq<T>, tcb: map<T, Tcb>, parent: int, filter: int) returns (i: nat)
    requires (forall z :: z in q ==> z in tcb) && ChildZombie(q, tcb, parent, filter).Some?
    ensures i < |q| && ChildZombie(q, tcb, parent, filter) == Some(q[i])
    ensures forall j :: 0 <= j < i ==> !Matches(tcb[q[j]], parent, filter)
  {
    if Matches(tcb[q[0]], parent, filter) {
      i := 0;
    } else {
      i := ChildZombiePlace(q[1..], tcb, parent, filter);
      i := i + 1;
    }
  }

  /** sys_waitpid says there is no child exactly when no thread on the ring and no
      zombie is the caller's child, waits exactly when there is one but no zombie is
      wanted, and otherwise returns a zombie's status. */
  lemma WaitExact<T>(s: State<T>, filter: int)
    requires Inv(s)
    ensures var w := WaitPass(s, filter).1;
      && (w == NoChild <==> forall t :: t in s.ring || t in s.zombies ==> !MyChild(s, t))
      && (w == Waits <==>
            && (exists t :: (t in s.ring || t in s.zombies) && MyChild(s, t))
            && forall z :: z in s.zombies ==> !Wanted(s, z, filter))
      && (w.Reaped? <==> exists z :: z in s.zombies && Wanted(s, z, filter))
  {
    var me := s.tcb[s.cur].pid;
    assert forall z :: z in s.zombies ==> (Matches(s.tcb[z], me, filter) <==> Wanted(s, z, filter));
  }

  /** r is s without its i-th zombie, and with the caller out of sys_waitpid. */
  ghost predicate WithoutZombie<T>(s: State<T>, r: State<T>, i: nat)
    requires s.cur in s.tcb && i < |s.zombies|
  {
    && r.main == s.main && r.idle == s.idle && r.ring == s.ring && r.cur == s.cur && r.nextPid == s.nextPid
    && r.zombies == s.zombies[..i] + s.zombies[i + 1..]
    && r.tcb.Keys == s.tcb.Keys - {s.zombies[i]}
    && (forall t :: t in r.tcb ==> r.tcb[t] == if t == s.cur then s.tcb[t].(waiting := None) else s.tcb[t])
  }

  /** A pass that returns a status takes only that zombie away. */
  lemma ReapEffect<T>(s: State<T>, filter: int) returns (i: nat)
    requires Inv(s) && WaitPass(s, filter).1.Reaped?
    ensures FirstWanted(s, filter, i) && WithoutZombie(s, WaitPass(s, filter).0, i)
    ensures WaitPass(s, filter).1 == Reaped(s.tcb[s.zombies[i]].pid, s.tcb[s.zombies[i]].status)
  {
    var me := s.tcb[s.cur].pid;
    i := ChildZombiePlace(s.zombies, s.tcb, me, filter);
    IndexOfUnique(s.zombies, i);
    assert s.zombies[i] in s.zombies;
  }

  lemma BlockEffect<T>(s: State<T>, filter: int)
    requires Inv(s) && s.cur != s.main
    ensures var r := Suspend(SetWaiting(s, Some(filter)));
      && Nearest(s, r.cur) && OnlyThese(s, r, s.cur, r.cur)
      && r.tcb[s.cur] == s.tcb[s.cur].(state := Blocked, waiting := Some(filter))
      && r.tcb[r.cur] == s.tcb[r.cur].(state := Running, quantum := 10)
  {
    WaitingInv(s, Some(filter));
    hide SchedState.Suspend, Inv;
    var s1 := SetWaiting(s, Some(filter));
    SuspendExact(s1);
    NearestKept(s, s1, Suspend(s1).cur);
  }

  /** A pass that finds no child changes nothing, and one that waits leaves the
      caller BLOCKED and the nearest READY thread running. */
  lemma WaitEffect<T>(s: State<T>, filter: int)
    requires Inv(s) && s.cur != s.main && !WaitPass(s, filter).1.Reaped?
    ensures var (r, w) := WaitPass(s, filter);
      if w == NoChild then r == s.(tcb := s.tcb[s.cur := s.tcb[s.cur].(waiting := None)])
      else
        && Nearest(s, r.cur) && OnlyThese(s, r, s.cur, r.cur)
        && r.tcb[s.cur] == s.tcb[s.cur].(state := Blocked, waiting := Some(filter))
        && r.tcb[r.cur] == s.tcb[r.cur].(state := Running, quantum := 10)
  {
    BlockEffect(s, filter);
    hide SchedState.Suspend, Nearest, OnlyThese, Pids, Waiters, SchedState.ChildZombie;
  }

  lemma NearestKept<T>(s: State<T>, s1: State<T>, t: T)
    requires s1.ring == s.ring && s1.cur == s.cur && s1.tcb.Keys == s.tcb.Keys && Nearest(s1, t)
    requires forall u :: u in s.tcb ==> s1.tcb[u].state == s.tcb[u].state
    ensures Nearest(s, t)
  {
  }

  // ---- how long a blocked thread stays blocked ----

  /** The steps that end t's wait: a wake-up of t, a tick at or after its deadline,
      or the exit of a child of t. */
  ghost predicate Wakes<T>(s: State<T>, e: Step<T>, t: T)
    requires Wf(s) && t in s.tcb && s.cur in s.tcb
  {
    match e
    case DoWake(u) => u == t
    case DoTick(now) => 0 < s.tcb[t].deadline <= now
    case DoExit(_) => s.tcb[s.cur].parent == s.tcb[t].pid
    case _ => false
  }

  /** One step makes a blocked thread READY if it is one of those, and otherwise
      leaves it as it is. */
  lemma StepWakes<T>(s: State<T>, e: Step<T>, t: T)
    requires Inv(s) && Enabled(s, e) && t in s.ring && s.tcb[t].state == Blocked
    ensures var r := Next(s, e);
      && t in r.ring && t in r.tcb && r.cur != t
      && (if Wakes(s, e, t) then r.tcb[t].state == Ready else r.tcb[t] == s.tcb[t])
  {
    hide SchedState.Yield, SchedState.Suspend, SchedState.Exit, SchedState.WaitPass, Pids, Waiters, SchedState.Tick;
    match e
    case DoSpawn(u, user) =>
    case DoYield => YieldExact(s); YieldReaps(s);
    case DoSuspend => SuspendExact(s);
    case DoDeadline(_) =>
    case DoExit(status) => ExitExact(s, status);
    case DoWake(_) =>
    case DoTick(now) => TickExact(s, now, t);
    case DoWait(f) =>
      if WaitPass(s, f).1.Reaped? {
        var i := ReapEffect(s, f);
      } else {
        WaitEffect(s, f);
      }
  }

  /** No step of the run wakes t. */
  ghost predicate Undisturbed<T>(s: State<T>, es: seq<Step<T>>, t: T)
    requires Inv(s) && CanRun(s, es) && t in s.ring && s.tcb[t].state == Blocked
    decreases |es|
  {
    es == [] || (!Wakes(s, es[0], t) && (StepInv(s, es[0]); StepWakes(s, es[0], t); Undisturbed(Next(s, es[0]), es[1..], t)))
  }

  /** Over any run a blocked thread is neither changed nor dispatched until one of
      those steps. */
  lemma {:induction false} BlockedUntilWoken<T>(s: State<T>, es: seq<Step<T>>, t: T)
    requires Inv(s) && CanRun(s, es) && t in s.ring && s.tcb[t].state == Blocked && Undisturbed(s, es, t)
    ensures var r := After(s, es); t in r.ring && r.tcb[t] == s.tcb[t] && r.cur != t
    decreases |es|
  {
    if es != [] {
      StepInv(s, es[0]);
      StepWakes(s, es[0], t);
      BlockedUntilWoken(Next(s, es[0]), es[1..], t);
    }
  }

  /** Sleeping until d leaves the caller BLOCKED with that deadline. */
  lemma Asleep<T>(s: State<T>, d: nat)
    requires Inv(s) && s.cur != s.main && s.tcb[s.cur].waiting.None?
    ensures var a := Suspend(SetDeadline(s, d));
      Inv(a) && s.cur in a.ring && a.tcb[s.cur] == s.tcb[s.cur].(state := Blocked, deadline := d)
  {
    DeadlineInv(s, d);
    SuspendInv(SetDeadline(s, d));
    SuspendExact(SetDeadline(s, d));
  }

  /** A thread that went to sleep until d and was not woken by anything else is
      BLOCKED after a tick before d and READY after one at or past it. */
  lemma SleepsUntilDeadline<T>(s: State<T>, d: nat, es: seq<Step<T>>, now: nat)
    requires Inv(s) && s.cur != s.main && s.tcb[s.cur].waiting.None? && d > 0
    requires (Asleep(s, d); var a := Suspend(SetDeadline(s, d)); CanRun(a, es) && Undisturbed(a, es, s.cur))
    ensures (Asleep(s, d);
      var b := After(Suspend(SetDeadline(s, d)), es);
      s.cur in b.tcb && Tick(b, now).tcb[s.cur].state == if now < d then Blocked else Ready)
  {
    Asleep(s, d);
    var a := Suspend(SetDeadline(s, d));
    BlockedUntilWoken(a, es, s.cur);
    TickExact(After(a, es), now, s.cur);
  }
}
