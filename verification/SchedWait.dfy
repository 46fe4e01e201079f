/** sys_waitpid over whole runs: no child exit is lost, none is reported twice. */
module SchedWait {
  import opened Sequences
  import opened SchedState
  import opened SchedRuns

  datatype ExitRec = ExitRec(pid: int, parent: int, status: int)

  /** What the run has done so far: children that exited, exits handed to a parent. */
  datatype Log = Log(exits: seq<ExitRec>, returned: seq<ExitRec>)

  ghost function Rec<T>(s: State<T>, z: T): ExitRec
    requires z in s.tcb
  {
    ExitRec(s.tcb[z].pid, s.tcb[z].parent, s.tcb[z].status)
  }

  /** The exits still held on the zombie list. */
  ghost function Held<T>(s: State<T>): set<ExitRec>
    requires Wf(s)
  {
    set z | z in s.zombies :: Rec(s, z)
  }

  /** The pids thread_find_by_pid can find. */
  ghost function LivePids<T>(s: State<T>): set<int>
    requires Wf(s)
  {
    (set t | t in s.ring :: s.tcb[t].pid) + {s.tcb[s.idle].pid}
  }

  /** What a step adds to the log. */
  datatype Entry = Nothing | Exited(rec: ExitRec) | Returned(rec: ExitRec)

  ghost function EntryOf<T>(s: State<T>, e: Step<T>): Entry
    requires Inv(s) && Enabled(s, e)
  {
    match e
    case DoExit(status) => Exited(ExitRec(s.tcb[s.cur].pid, s.tcb[s.cur].parent, status))
    case DoWait(f) =>
      (match WaitPass(s, f).1
       case Reaped(pid, status) => Returned(ExitRec(pid, s.tcb[s.cur].pid, status))
       case _ => Nothing)
    case _ => Nothing
  }

  function Enter(log: Log, d: Entry): Log {
    match d
    case Nothing => log
    case Exited(rec) => log.(exits := log.exits + [rec])
    case Returned(rec) => log.(returned := log.returned + [rec])
  }

  /** The books balance: every exit of a living parent is held or was returned. */
  ghost predicate Balanced(held: set<ExitRec>, live: set<int>, nextPid: int, log: Log) {
    && (forall p :: p in live ==> 0 < p < nextPid)
    && (forall e :: e in log.exits ==> 0 < e.pid < nextPid && e.parent < nextPid && e.pid !in live)
    && (forall i, j :: 0 <= i < j < |log.exits| ==> log.exits[i].pid != log.exits[j].pid)
    && (forall e :: e in held ==> e in log.exits)
    && (forall e :: e in log.returned ==> e in log.exits && e !in held)
    && NoDup(log.returned)
    && (forall e :: e in log.exits && e.parent in live ==> e in held || e in log.returned)
  }

  lemma FoundIffLive<T>(s: State<T>, pid: int)
    requires Shape(s) && Pids(s)
    ensures FindByPid(s, pid).Some? <==> pid in LivePids(s)
  {
  }

  // ---- what one step does to the books ----

  lemma QuietStep<T>(s: State<T>, r: State<T>)
    requires Wf(s) && Wf(r) && SameThreads(s, r)
    ensures Held(r) == Held(s) && LivePids(r) == LivePids(s)
  {
    assert forall z :: z in s.zombies ==> Rec(r, z) == Rec(s, z);
    assert forall e :: e in Held(s) ==> e in Held(r);
    assert forall p :: p in LivePids(s) ==> p in LivePids(r);
  }

  lemma SpawnBooks<T>(s: State<T>, t: T, user: bool)
    requires Inv(s) && t !in s.tcb && Wf(Spawn(s, t, user))
    ensures var r := Spawn(s, t, user); Held(r) == Held(s) && LivePids(r) == LivePids(s) + {s.nextPid}
  {
    var r := Spawn(s, t, user);
    assert forall u :: u in r.ring <==> u in s.ring || u == t;
    assert forall z :: z in s.zombies ==> Rec(r, z) == Rec(s, z);
    assert r.tcb[t].pid == s.nextPid;
    assert forall u :: u in s.ring ==> s.tcb[u].pid == r.tcb[u].pid;
    assert forall p :: p in LivePids(s) ==> p in LivePids(r);
    assert forall p :: p in LivePids(r) ==> p in LivePids(s) || p == s.nextPid;
  }

  lemma ReapOrphansBooks<T>(s: State<T>)
    requires Inv(s)
    ensures var r := ReapOrphans(s);
      && LivePids(r) == LivePids(s) && Held(r) <= Held(s)
      && (forall e :: e in Held(s) && e.parent in LivePids(s) ==> e in Held(r))
  {
    var r := ReapOrphans(s);
    FilterMembers(s.zombies, Claimed(s));
    forall e | e in Held(s) && e.parent in LivePids(s) ensures e in Held(r) {
      var z :| z in s.zombies && e == Rec(s, z);
      FoundIffLive(s, e.parent);
      assert z in r.zombies && Rec(r, z) == e;
    }
    assert forall z :: z in r.zombies ==> z in s.zombies && Rec(r, z) == Rec(s, z);
    assert forall u :: u in s.ring ==> r.tcb[u].pid == s.tcb[u].pid;
    assert forall p :: p in LivePids(s) ==> p in LivePids(r);
  }

  lemma ExitBooks<T>(s: State<T>, status: int)
    requires Inv(s) && s.cur != s.main && Wf(Exit(s, status))
    ensures var r := Exit(s, status);
      && Held(r) == Held(s) + {ExitRec(s.tcb[s.cur].pid, s.tcb[s.cur].parent, status)}
      && LivePids(r) == LivePids(s) - {s.tcb[s.cur].pid}
  {
    ExitHeld(s, status);
    ExitLive(s, status);
  }

  lemma ExitHeld<T>(s: State<T>, status: int)
    requires Shape(s) && s.cur != s.main && Wf(Exit(s, status))
    ensures Held(Exit(s, status)) == Held(s) + {ExitRec(s.tcb[s.cur].pid, s.tcb[s.cur].parent, status)}
  {
    hide SchedState.Exit, Held;
    ExitStatus(s, status);
    OneMoreHeld(s, Exit(s, status));
  }

  lemma OneMoreHeld<T>(s: State<T>, r: State<T>)
    requires Wf(s) && Wf(r) && s.cur in r.tcb && r.zombies == [s.cur] + s.zombies
    requires forall t :: t in s.zombies ==> t in r.tcb && Rec(r, t) == Rec(s, t)
    ensures Held(r) == Held(s) + {Rec(r, s.cur)}
  {
    forall e ensures e in Held(r) <==> e in Held(s) || e == Rec(r, s.cur) {
      if e in Held(s) {
        var z :| z in s.zombies && Rec(s, z) == e;
        assert z in r.zombies && Rec(r, z) == e;
      }
      if e == Rec(r, s.cur) {
        assert s.cur in r.zombies;
      }
    }
  }

  lemma ExitLive<T>(s: State<T>, status: int)
    requires Shape(s) && Pids(s) && s.cur != s.main && Wf(Exit(s, status))
    ensures LivePids(Exit(s, status)) == LivePids(s) - {s.tcb[s.cur].pid}
  {
    hide SchedState.Exit, SchedState.Bury, LivePids;
    ExitStatus(s, status);
    ExitIds(s, status);
    OneLessLive(s, Exit(s, status));
  }

  lemma OneLessLive<T>(s: State<T>, r: State<T>)
    requires Wf(s) && Pids(s) && Wf(r) && s.cur in s.ring && r.idle == s.idle
    requires forall t :: t in r.ring <==> t in s.ring && t != s.cur
    requires forall t :: t in s.tcb ==> t in r.tcb && r.tcb[t].pid == s.tcb[t].pid
    ensures LivePids(r) == LivePids(s) - {s.tcb[s.cur].pid}
  {
    assert forall t :: t in s.ring && t != s.cur ==> s.tcb[t].pid in LivePids(r);
  }

  lemma ExitStatus<T>(s: State<T>, status: int)
    requires Shape(s) && s.cur != s.main
    ensures var r := Exit(s, status);
      && s.cur in r.tcb && Rec(r, s.cur) == ExitRec(s.tcb[s.cur].pid, s.tcb[s.cur].parent, status)
      && (forall t :: t in s.tcb && t != s.cur ==> t in r.tcb && Rec(r, t) == Rec(s, t))
      && r.zombies == [s.cur] + s.zombies && r.nextPid == s.nextPid
  {
    hide Sequences.Without, Sequences.IndexOf, SchedState.FindByPid;
  }

  lemma ReapBooks<T>(s: State<T>, z: T)
    requires Inv(s) && z in s.zombies && Wf(Reap(s, z))
    ensures var r := Reap(s, z); Held(r) == Held(s) - {Rec(s, z)} && LivePids(r) == LivePids(s)
  {
    var r := Reap(s, z);
    WithoutMembers(s.zombies, IndexOf(s.zombies, z));
    assert forall u :: u in r.zombies <==> u in s.zombies && u != z;
    assert r.ring == s.ring && r.idle == s.idle && r.tcb == s.tcb - {z};
    hide SchedState.Reap, Sequences.Without, Sequences.IndexOf;
    ReapHeld(s, r, z);
    ReapLive(s, r, z);
  }

  lemma ReapHeld<T>(s: State<T>, r: State<T>, z: T)
    requires Wf(s) && Wf(r) && Pids(s) && z in s.zombies && r.tcb == s.tcb - {z}
    requires forall u :: u in r.zombies <==> u in s.zombies && u != z
    ensures Held(r) == Held(s) - {Rec(s, z)}
  {
    forall e ensures e in Held(r) <==> e in Held(s) - {Rec(s, z)} {
      if e in Held(r) {
        var u :| u in r.zombies && Rec(r, u) == e;
        assert u in s.zombies && Rec(s, u) == e;
      }
      if e in Held(s) && e != Rec(s, z) {
        var u :| u in s.zombies && Rec(s, u) == e;
        assert u in r.zombies && Rec(r, u) == e;
      }
    }
  }

  lemma ReapLive<T>(s: State<T>, r: State<T>, z: T)
    requires Wf(s) && Wf(r) && z in s.zombies && r.ring == s.ring && r.idle == s.idle && r.tcb == s.tcb - {z}
    ensures LivePids(r) == LivePids(s)
  {
    assert forall t :: t in s.ring ==> r.tcb[t].pid == s.tcb[t].pid;
  }

  /** How the held exits and the live pids may move, given what the step logs. */
  ghost predicate Posted(held: set<ExitRec>, live: set<int>, nextPid: int,
                         held': set<ExitRec>, live': set<int>, nextPid': int, d: Entry)
  {
    match d
    case Nothing =>
      && held' <= held && (forall e :: e in held && e.parent in live ==> e in held')
      && ((live' == live && nextPid' == nextPid) || (live' == live + {nextPid} && nextPid' == nextPid + 1))
    case Exited(rec) =>
      && rec.pid in live && rec.parent < nextPid
      && held' == held + {rec} && live' == live - {rec.pid} && nextPid' == nextPid
    case Returned(rec) =>
      rec in held && held' == held - {rec} && live' == live && nextPid' == nextPid
  }

  lemma QuietPosted<T>(s: State<T>, r: State<T>)
    requires Wf(s) && Wf(r) && SameThreads(s, r)
    ensures Posted(Held(s), LivePids(s), s.nextPid, Held(r), LivePids(r), r.nextPid, Nothing)
  {
    QuietStep(s, r);
  }

  lemma SwitchBooks<T>(s: State<T>)
    requires Wf(s) && s.cur in s.ring
    ensures var r := Dispatch(PutDown(s), Pick(PutDown(s)));
      Wf(r) && Held(r) == Held(s) && LivePids(r) == LivePids(s)
  {
    hide SchedState.Pick, Held, LivePids;
    var put := PutDown(s);
    assert put.tcb[s.cur].state == Ready;
    PickIsReady(put);
    QuietStep(s, Dispatch(put, Pick(put)));
  }

  lemma YieldBooks<T>(s: State<T>)
    requires Inv(s) && Wf(Yield(s))
    ensures Posted(Held(s), LivePids(s), s.nextPid, Held(Yield(s)), LivePids(Yield(s)), s.nextPid, Nothing)
    ensures Yield(s).nextPid == s.nextPid
  {
    ReapOrphansInv(s);
    ReapOrphansBooks(s);
    SwitchBooks(ReapOrphans(s));
  }

  lemma SuspendBooks<T>(s: State<T>)
    requires Inv(s) && s.cur != s.main && Wf(Suspend(s))
    ensures Held(Suspend(s)) == Held(s) && LivePids(Suspend(s)) == LivePids(s) && Suspend(s).nextPid == s.nextPid
  {
    PickIsReady(s);
    QuietStep(s, Suspend(s));
  }

  lemma WaitingBooks<T>(s: State<T>, w: Option<int>)
    requires Inv(s)
    ensures Inv(SetWaiting(s, w))
    ensures Held(SetWaiting(s, w)) == Held(s) && LivePids(SetWaiting(s, w)) == LivePids(s)
  {
    WaitingInv(s, w);
    QuietStep(s, SetWaiting(s, w));
  }

  lemma WaitReapBooks<T>(s: State<T>, z: T)
    requires Inv(s) && z in s.zombies && s.tcb[z].parent == s.tcb[s.cur].pid
    ensures var r := Reap(SetWaiting(s, None), z);
      Wf(r) && Held(r) == Held(s) - {Rec(s, z)} && LivePids(r) == LivePids(s) && Rec(s, z) in Held(s) && r.nextPid == s.nextPid
  {
    var s1 := SetWaiting(s, None);
    WaitingBooks(s, None);
    ReapInv(s1, z);
    ReapBooks(s1, z);
    assert Rec(s1, z) == Rec(s, z);
  }

  lemma WaitBlockBooks<T>(s: State<T>, f: int)
    requires Inv(s) && s.cur != s.main && Wf(Suspend(SetWaiting(s, Some(f))))
    ensures var r := Suspend(SetWaiting(s, Some(f)));
      Held(r) == Held(s) && LivePids(r) == LivePids(s) && r.nextPid == s.nextPid
  {
    WaitingBooks(s, Some(f));
    SuspendBooks(SetWaiting(s, Some(f)));
  }

  lemma WaitBooks<T>(s: State<T>, f: int)
    requires Inv(s) && Enabled(s, DoWait(f)) && Wf(WaitPass(s, f).0)
    ensures var r := WaitPass(s, f).0;
      && r.nextPid == s.nextPid
      && Posted(Held(s), LivePids(s), s.nextPid, Held(r), LivePids(r), s.nextPid, EntryOf(s, DoWait(f)))
  {
    hide Held, LivePids, Pids, Waiters, SchedState.ChildZombie, SchedState.Suspend, SchedState.Reap;
    match ChildZombie(s.zombies, s.tcb, s.tcb[s.cur].pid, f)
    case Some(z) => WaitReapBooks(s, z);
    case None =>
      if WaitPass(s, f).1 == Waits { WaitBlockBooks(s, f); } else { WaitingBooks(s, None); }
  }

  lemma ExitPosted<T>(s: State<T>, status: int)
    requires Inv(s) && Enabled(s, DoExit(status)) && Wf(Exit(s, status))
    ensures var r := Exit(s, status);
      r.nextPid == s.nextPid && Posted(Held(s), LivePids(s), s.nextPid, Held(r), LivePids(r), s.nextPid, EntryOf(s, DoExit(status)))
  {
    ExitBooks(s, status);
    ExitStatus(s, status);
    assert s.cur in s.ring;
    assert s.tcb[s.cur].pid in LivePids(s);
  }

  lemma StepBooks<T>(s: State<T>, e: Step<T>)
    requires Inv(s) && Enabled(s, e) && Wf(Next(s, e))
    ensures var r := Next(s, e);
      Posted(Held(s), LivePids(s), s.nextPid, Held(r), LivePids(r), r.nextPid, EntryOf(s, e))
  {
    hide Held, LivePids, Pids, Waiters, SchedState.Yield, SchedState.Suspend, SchedState.Exit, SchedState.WaitPass;
    match e
    case DoSpawn(t, user) => SpawnBooks(s, t, user);
    case DoYield => YieldBooks(s);
    case DoSuspend => SuspendBooks(s);
    case DoDeadline(deadline) => DeadlineInv(s, deadline); QuietPosted(s, SetDeadline(s, deadline));
    case DoExit(status) => ExitPosted(s, status);
    case DoWake(t) => WakeInv(s, t); QuietPosted(s, Wake(s, t));
    case DoTick(now) => TickInv(s, now); QuietPosted(s, Tick(s, now));
    case DoWait(f) => WaitBooks(s, f);
  }

  // ---- the books over a run ----

  lemma PostedBalanced(held: set<ExitRec>, live: set<int>, nextPid: int,
                       held': set<ExitRec>, live': set<int>, nextPid': int, d: Entry, log: Log)
    requires Balanced(held, live, nextPid, log) && Posted(held, live, nextPid, held', live', nextPid', d) && nextPid > 0
    ensures Balanced(held', live', nextPid', Enter(log, d))
  {
    match d
    case Nothing =>
    case Exited(rec) => assert forall e :: e in log.exits + [rec] <==> e in log.exits || e == rec;
    case Returned(rec) => assert forall e :: e in log.returned + [rec] <==> e in log.returned || e == rec;
  }

  ghost function LogAfter<T>(s: State<T>, es: seq<Step<T>>, log: Log): Log
    requires Inv(s) && CanRun(s, es)
    decreases |es|
  {
    if es == [] then log else
      StepInv(s, es[0]);
      LogAfter(Next(s, es[0]), es[1..], Enter(log, EntryOf(s, es[0])))
  }

  lemma {:induction false} RunBalanced<T>(s: State<T>, es: seq<Step<T>>, log: Log)
    requires Inv(s) && CanRun(s, es) && Balanced(Held(s), LivePids(s), s.nextPid, log)
    ensures var r := After(s, es); Balanced(Held(r), LivePids(r), r.nextPid, LogAfter(s, es, log))
    decreases |es|
  {
    if es != [] {
      StepInv(s, es[0]);
      StepBooks(s, es[0]);
      var r := Next(s, es[0]);
      PostedBalanced(Held(s), LivePids(s), s.nextPid, Held(r), LivePids(r), r.nextPid, EntryOf(s, es[0]), log);
      RunBalanced(r, es[1..], Enter(log, EntryOf(s, es[0])));
    }
  }

  /** No lost child exits: after any run from boot, every status handed out is one
      a child of that parent exited with, none is handed out twice, and the exit of
      a child whose parent is alive is on the zombie list unless that parent has
      already been given it. */
  lemma NoLostExits<T>(main: T, idle: T, es: seq<Step<T>>)
    requires main != idle && (BootInv(main, idle); CanRun(Boot(main, idle), es))
    ensures (BootInv(main, idle);
      var r := After(Boot(main, idle), es);
      var log := LogAfter(Boot(main, idle), es, Log([], []));
      && (forall e :: e in log.returned ==> e in log.exits)
      && (forall i, j :: 0 <= i < j < |log.returned| ==> log.returned[i].pid != log.returned[j].pid)
      && (forall e :: e in log.exits && FindByPid(r, e.parent).Some? ==>
            (e in log.returned <==> !exists z :: z in r.zombies && Rec(r, z) == e)))
  {
    BootInv(main, idle);
    var s := Boot(main, idle);
    RunBalanced(s, es, Log([], []));
    var r := After(s, es);
    var log := LogAfter(s, es, Log([], []));
    ReturnedOnce(Held(r), LivePids(r), r.nextPid, log);
    forall e | e in log.exits && FindByPid(r, e.parent).Some?
      ensures e in log.returned <==> !exists z :: z in r.zombies && Rec(r, z) == e
    {
      FoundIffLive(r, e.parent);
      assert e in Held(r) <==> exists z :: z in r.zombies && Rec(r, z) == e;
    }
  }

  lemma ReturnedOnce(held: set<ExitRec>, live: set<int>, nextPid: int, log: Log)
    requires Balanced(held, live, nextPid, log)
    ensures forall i, j :: 0 <= i < j < |log.returned| ==> log.returned[i].pid != log.returned[j].pid
  {
    forall i, j | 0 <= i < j < |log.returned| ensures log.returned[i].pid != log.returned[j].pid {
      var a :| 0 <= a < |log.exits| && log.exits[a] == log.returned[i];
      var b :| 0 <= b < |log.exits| && log.exits[b] == log.returned[j];
    }
  }

  // ---- what a blocked waiter can count on ----

  /** In every reachable state a thread blocked in sys_waitpid has no zombie child
      its filter admits, and has a live child unless it named a pid. */
  lemma BlockedWaiter<T>(main: T, idle: T, es: seq<Step<T>>, t: T)
    requires main != idle && (BootInv(main, idle); CanRun(Boot(main, idle), es))
    ensures (BootInv(main, idle);
      var r := After(Boot(main, idle), es);
      t in r.ring && r.tcb[t].state == Blocked && r.tcb[t].waiting.Some? ==>
        && (forall z :: z in r.zombies ==> !Matches(r.tcb[z], r.tcb[t].pid, r.tcb[t].waiting.value))
        && (LiveChild(r, r.tcb[t].pid) || (r.tcb[t].waiting.value > 0 && ZombieChild(r, r.tcb[t].pid))))
  {
    BootInv(main, idle);
    var r := After(Boot(main, idle), es);
    assert Waiters(r);
  }

  /** sys_waitpid blocks a caller that has no live child exactly when the caller
      named a pid, holds an unreaped child, and none of those has that pid:
      sched_has_child counts zombies whatever the filter. */
  lemma BlocksWithoutLiveChild<T>(s: State<T>, filter: int)
    requires Inv(s) && s.cur != s.main && !LiveChild(s, s.tcb[s.cur].pid)
    ensures var me := s.tcb[s.cur].pid;
      WaitPass(s, filter).1 == Waits <==>
        filter > 0 && ZombieChild(s, me) && forall z :: z in s.zombies && s.tcb[z].parent == me ==> s.tcb[z].pid != filter
  {
  }

  // ---- a run that ends there ----

  function Fresh(pid: int, parent: int, state: RunState): Tcb {
    Tcb(pid, parent, 0, state, QUANTUM, 0, None)
  }

  /** A thread with one child, the child running. */
  function Parenthood(): State<int> {
    State(0, 1, [0, 10, 11], [], 11,
          map[0 := Fresh(1, 0, Ready), 1 := Fresh(2, 0, Ready), 10 := Fresh(3, 1, Ready), 11 := Fresh(4, 3, Running)], 5)
  }

  /** A thread whose only child has exited. */
  function Bereft(): State<int> {
    State(0, 1, [0, 10], [11], 10,
          map[0 := Fresh(1, 0, Ready), 1 := Fresh(2, 0, Ready), 10 := Fresh(3, 1, Running),
              11 := Tcb(4, 3, 7, Zombie, QUANTUM, 0, None)], 5)
  }

  /** Main has spawned a thread. */
  function First(): State<int> {
    State(0, 1, [0, 10], [], 0,
          map[0 := Fresh(1, 0, Running), 1 := Fresh(2, 0, Ready), 10 := Fresh(3, 1, Ready)], 4)
  }

  /** That thread has spawned a child. */
  function Second(): State<int> {
    State(0, 1, [0, 10, 11], [], 10,
          map[0 := Fresh(1, 0, Ready), 1 := Fresh(2, 0, Ready), 10 := Fresh(3, 1, Running), 11 := Fresh(4, 3, Ready)], 5)
  }

  /** A thread that main has spawned and handed over to. */
  function Handover(): State<int> {
    State(0, 1, [0, 10], [], 10,
          map[0 := Fresh(1, 0, Ready), 1 := Fresh(2, 0, Ready), 10 := Fresh(3, 1, Running)], 4)
  }

  /** The child has just exited, and main runs. */
  function Aftermath(): State<int> {
    State(0, 1, [0, 10], [11], 0,
          map[0 := Fresh(1, 0, Running), 1 := Fresh(2, 0, Ready), 10 := Fresh(3, 1, Ready),
              11 := Tcb(4, 3, 7, Zombie, QUANTUM, 0, None)], 5)
  }

  /** Main spawns a thread, which spawns a child, which exits. */
  const BEREAVEMENT: seq<Step<int>> :=
    [DoSpawn(10, true), DoYield, DoSpawn(11, true), DoYield, DoExit(7), DoYield]

  lemma YieldsTo<T>(s: State<T>, t: T)
    requires Wf(s) && s.cur in s.ring && Others(s.ring, s.cur) != [] && Others(s.ring, s.cur)[0] == t
    requires t in s.tcb && s.tcb[t].state == Ready && t != s.cur
    requires forall z :: z in s.zombies ==> !Orphan(s, z)
    ensures Yield(s) == SchedState.Dispatch(PutDown(s), t)
  {
    KeepAll(s.zombies, Claimed(s));
    assert ReapOrphans(s).tcb == s.tcb;
    var p := PutDown(s);
    var q := Others(s.ring, s.cur) + [s.cur];
    assert q[0] == t && p.tcb[t] == s.tcb[t];
    assert FirstReady(q, p.tcb) == Some(t);
  }

  lemma {:induction false} KeepAll<T>(q: seq<T>, keep: set<T>)
    requires forall x :: x in q ==> x in keep
    ensures Filter(q, keep) == q
  {
    if q != [] {
      assert q == [q[0]] + q[1..];
      KeepAll(q[1..], keep);
    }
  }

  lemma Newborn()
    ensures Inv(Boot(0, 1)) && Wf(Boot(0, 1)) && Enabled(Boot(0, 1), DoSpawn(10, true))
    ensures Boot(0, 1).cur in Boot(0, 1).ring && Next(Boot(0, 1), DoSpawn(10, true)) == First()
  {
    BootInv(0, 1);
    hide Shape, Pids, Waiters;
  }

  lemma InvGives<T>(s: State<T>)
    requires Inv(s)
    ensures Wf(s) && s.cur in s.ring && (forall t :: t in s.ring ==> t in s.tcb) && NoDup(s.ring)
  {
  }

  lemma FirstYields()
    requires Inv(First())
    ensures Wf(First()) && Enabled(First(), DoYield) && First().cur in First().ring
    ensures Next(First(), DoYield) == Handover()
  {
    hide Inv, Wf, SchedState.Yield, SchedState.Others, Sequences.IndexOf, NoDup;
    var s := First();
    InvGives(s);
    assert [] + [0] + [10] == s.ring;
    OthersAre([], 0, [10]);
    YieldsTo(s, 10);
  }

  /** The search starts behind the current thread. */
  lemma OthersAre<T>(a: seq<T>, cur: T, b: seq<T>)
    requires NoDup(a + [cur] + b)
    ensures cur in a + [cur] + b && Others(a + [cur] + b, cur) == b + a
  {
    var ring := a + [cur] + b;
    assert ring[|a|] == cur;
    IndexOfUnique(ring, |a|);
  }

  lemma HasChild()
    requires Inv(Handover())
    ensures Wf(Handover()) && Enabled(Handover(), DoSpawn(11, true)) && Handover().cur in Handover().ring
    ensures Next(Handover(), DoSpawn(11, true)) == Second()
  {
    hide Inv, Wf;
    InvGives(Handover());
  }

  lemma SecondYields()
    requires Inv(Second())
    ensures Wf(Second()) && Enabled(Second(), DoYield) && Second().cur in Second().ring
    ensures Next(Second(), DoYield) == Parenthood()
  {
    hide Inv, Wf, SchedState.Yield, SchedState.Others, Sequences.IndexOf, NoDup;
    var s := Second();
    InvGives(s);
    assert [0] + [10] + [11] == s.ring;
    OthersAre([0], 10, [11]);
    YieldsTo(s, 11);
  }

  lemma ChildExits()
    requires Inv(Parenthood())
    ensures Wf(Parenthood()) && Enabled(Parenthood(), DoExit(7)) && Parenthood().cur in Parenthood().ring
    ensures Next(Parenthood(), DoExit(7)) == Aftermath()
  {
    hide Inv, Wf, NoDup, SchedState.Bury;
    var s := Parenthood();
    InvGives(s);
    BuryChild();
    FirstIs(Bury(s, 7));
    hide SchedState.FirstWithPid;
  }

  lemma BuryChild()
    requires Wf(Parenthood())
    ensures var s, b := Parenthood(), Bury(Parenthood(), 7);
      b == s.(ring := [0, 10], zombies := [11], tcb := s.tcb[11 := Tcb(4, 3, 7, Zombie, QUANTUM, 0, None)])
  {
    var s := Parenthood();
    assert s.ring[2] == 11;
    IndexOfUnique(s.ring, 2);
    hide Wf, NoDup, Sequences.IndexOf;
    assert Without(s.ring, 2) == [0, 10];
  }

  lemma FirstIs(b: State<int>)
    requires b.ring == [0, 10] && forall t :: t in b.ring ==> t in b.tcb
    requires b.tcb[0].pid == 1 && b.tcb[10].pid == 3
    ensures FirstWithPid(b.ring, b.tcb, 3) == Some(10)
  {
    assert b.ring[1..] == [10];
  }

  lemma AftermathYields()
    requires Inv(Aftermath())
    ensures Wf(Aftermath()) && Enabled(Aftermath(), DoYield) && Aftermath().cur in Aftermath().ring
    ensures Next(Aftermath(), DoYield) == Bereft()
  {
    hide Inv, Wf, SchedState.Yield, SchedState.Others, Sequences.IndexOf, NoDup, SchedState.FirstWithPid;
    var s := Aftermath();
    InvGives(s);
    assert [] + [0] + [10] == s.ring;
    OthersAre([], 0, [10]);
    FirstIs(s);
    YieldsTo(s, 10);
  }

  /** A step in front of a run. */
  lemma OneMore<T>(s: State<T>, e: Step<T>, es: seq<Step<T>>)
    requires Inv(s) && Enabled(s, e) && Inv(Next(s, e)) && CanRun(Next(s, e), es)
    ensures CanRun(s, [e] + es) && After(s, [e] + es) == After(Next(s, e), es)
  {
    assert ([e] + es)[1..] == es;
    hide Shape, Pids, Waiters, Next;
  }

  lemma BereftReached()
    ensures Inv(Boot(0, 1)) && CanRun(Boot(0, 1), BEREAVEMENT) && After(Boot(0, 1), BEREAVEMENT) == Bereft()
  {
    hide Boot, First, Handover, Second, Parenthood, Aftermath, Bereft, Inv, Enabled, Next, Wf;
    var s0, s1, s2, s3, s4, s5 := Boot(0, 1), First(), Handover(), Second(), Parenthood(), Aftermath();
    Newborn();
    StepInv(s0, DoSpawn(10, true));
    FirstYields();
    StepInv(s1, DoYield);
    HasChild();
    StepInv(s2, DoSpawn(11, true));
    SecondYields();
    StepInv(s3, DoYield);
    ChildExits();
    StepInv(s4, DoExit(7));
    AftermathYields();
    StepInv(s5, DoYield);
    OneMore(s5, DoYield, []);
    OneMore(s4, DoExit(7), [DoYield] + []);
    OneMore(s3, DoYield, [DoExit(7)] + ([DoYield] + []));
    OneMore(s2, DoSpawn(11, true), [DoYield] + ([DoExit(7)] + ([DoYield] + [])));
    OneMore(s1, DoYield, [DoSpawn(11, true)] + ([DoYield] + ([DoExit(7)] + ([DoYield] + []))));
    OneMore(s0, DoSpawn(10, true), [DoYield] + ([DoSpawn(11, true)] + ([DoYield] + ([DoExit(7)] + ([DoYield] + [])))));
    assert [DoSpawn(10, true)] + ([DoYield] + ([DoSpawn(11, true)] + ([DoYield] + ([DoExit(7)] + ([DoYield] + [])))))
      == BEREAVEMENT;
  }

  /** Reached from boot, the thread asks for pid 99, and blocks although it has no
      live child to wait for. */
  lemma StuckWaiter()
    ensures Inv(Boot(0, 1)) && CanRun(Boot(0, 1), BEREAVEMENT)
    ensures var s := After(Boot(0, 1), BEREAVEMENT);
      s.tcb[s.cur].pid == 3 && !LiveChild(s, 3) && WaitPass(s, 99).1 == Waits
  {
    hide Inv, CanRun, After, Bereft;
    BereftReached();
    BereftWaits();
  }

  lemma BereftWaits()
    requires Inv(Bereft())
    ensures var s := Bereft();
      Wf(s) && s.cur in s.tcb && s.tcb[s.cur].pid == 3 && !LiveChild(s, 3) && WaitPass(s, 99).1 == Waits
  {
    hide Pids, Waiters, Shape;
    var s := Bereft();
    InvGives(s);
    assert 11 in s.zombies && s.tcb[11].parent == 3;
    assert !LiveChild(s, 3);
    BlocksWithoutLiveChild(s, 99);
  }
}
