/**
 * The scheduler of kernel/sched.c as transitions on a value: the ready ring in
 * ring order starting at ready_head, the zombie list in list order, and one
 * control block per thread.  T stands for a thread's identity (its address).
 */
module SchedState {
  import opened Sequences

  const QUANTUM := 10

  datatype RunState = Ready | Running | Blocked | Zombie

  /** `waiting` is the thread's place inside sys_waitpid, kept on its kernel stack. */
  datatype Tcb = Tcb(pid: int, parent: int, status: int, state: RunState,
                     quantum: int, deadline: nat, waiting: Option<int>)

  datatype State<T(==)> = State(main: T, idle: T, ring: seq<T>, zombies: seq<T>,
                                cur: T, tcb: map<T, Tcb>, nextPid: int)

  /** Links and tables agree: what every sched_* function relies on. */
  ghost predicate Wf<T>(s: State<T>) {
    && NoDup(s.ring) && NoDup(s.zombies)
    && (forall t :: t in s.ring ==> t !in s.zombies)
    && s.main in s.ring && s.idle !in s.ring && s.idle !in s.zombies
    && (s.cur in s.ring || s.cur == s.idle)
    && s.idle in s.tcb
    && (forall t :: t in s.ring ==> t in s.tcb)
    && (forall t :: t in s.zombies ==> t in s.tcb)
    && (forall t :: t in s.tcb ==> t in s.ring || t in s.zombies || t == s.idle)
  }

  // ---- lookups ----

  function FirstWithPid<T(==)>(q: seq<T>, tcb: map<T, Tcb>, pid: int): (r: Option<T>)
    requires forall t :: t in q ==> t in tcb
    ensures r.Some? ==> r.value in q && tcb[r.value].pid == pid
    ensures r.None? ==> forall t :: t in q ==> tcb[t].pid != pid
  {
    if q == [] then None
    else if tcb[q[0]].pid == pid then Some(q[0])
    else FirstWithPid(q[1..], tcb, pid)
  }

  /** What thread_find_by_pid dereferences. */
  ghost predicate Findable<T>(s: State<T>) {
    && s.cur in s.tcb && s.main in s.tcb && s.idle in s.tcb
    && forall t :: t in s.ring ==> t in s.tcb
  }

  /** thread_find_by_pid: a zombie is found only while it is still current. */
  function FindByPid<T(==)>(s: State<T>, pid: int): (r: Option<T>)
    requires Findable(s)
    ensures r.Some? ==> r.value in s.tcb && s.tcb[r.value].pid == pid && pid > 0
    ensures r.Some? ==> r.value in s.ring || r.value in [s.cur, s.main, s.idle]
  {
    if pid <= 0 then None
    else if s.tcb[s.cur].pid == pid then Some(s.cur)
    else if s.tcb[s.main].pid == pid then Some(s.main)
    else if s.tcb[s.idle].pid == pid then Some(s.idle)
    else FirstWithPid(s.ring, s.tcb, pid)
  }

  /** The other ring threads, in the order the search for the next thread visits them. */
  function Others<T(==)>(ring: seq<T>, cur: T): (r: seq<T>)
    requires cur in ring
    ensures |r| == |ring| - 1
    ensures forall t :: t in r ==> t in ring
  {
    var c := IndexOf(ring, cur);
    ring[c + 1..] + ring[..c]
  }

  function FirstReady<T(==)>(q: seq<T>, tcb: map<T, Tcb>): (r: Option<T>)
    requires forall t :: t in q ==> t in tcb
    ensures r.Some? ==> r.value in q && tcb[r.value].state == Ready
    ensures r.None? ==> forall t :: t in q ==> tcb[t].state != Ready
  {
    if q == [] then None
    else if tcb[q[0]].state == Ready then Some(q[0])
    else FirstReady(q[1..], tcb)
  }

  /** The search shared by sched_yield and sched_suspend: round the ring back to
      the current thread, and the idle thread when nothing on it is READY. */
  function Pick<T(==)>(s: State<T>): (t: T)
    requires Wf(s) && s.cur in s.ring
    ensures t in s.tcb
  {
    match FirstReady(Others(s.ring, s.cur) + [s.cur], s.tcb)
    case Some(t) => t
    case None => s.idle
  }

  // ---- transitions ----

  function Dispatch<T(==)>(s: State<T>, t: T): State<T>
    requires t in s.tcb
  {
    s.(cur := t, tcb := s.tcb[t := s.tcb[t].(state := Running, quantum := QUANTUM)])
  }

  /** sched_wake. */
  function Wake<T(==)>(s: State<T>, t: T): State<T>
    requires t in s.tcb
  {
    if s.tcb[t].state == Blocked then
      s.(tcb := s.tcb[t := s.tcb[t].(state := Ready)])
    else s
  }

  /** The ring insertion of sched_spawn (parent 0) and sched_spawn_user_in (parent current). */
  function Spawn<T(==)>(s: State<T>, t: T, user: bool): State<T>
    requires Wf(s) && t !in s.tcb
  {
    var parent := if user then s.tcb[s.cur].pid else 0;
    s.(ring := s.ring + [t],
       tcb := s.tcb[t := Tcb(s.nextPid, parent, 0, Ready, QUANTUM, 0, None)],
       nextPid := s.nextPid + 1)
  }

  predicate Orphan<T(==)>(s: State<T>, z: T)
    requires Findable(s) && z in s.tcb
  {
    s.tcb[z].parent == 0 || FindByPid(s, s.tcb[z].parent).None?
  }

  /** The zombies whose parent may still ask for them. */
  function Claimed<T(==)>(s: State<T>): set<T>
    requires Wf(s)
  {
    set z | z in s.zombies && !Orphan(s, z)
  }

  /** reap_zombies. */
  function ReapOrphans<T(==)>(s: State<T>): (r: State<T>)
    requires Wf(s)
    ensures Wf(r)
  {
    FilterMembers(s.zombies, Claimed(s));
    s.(zombies := Filter(s.zombies, Claimed(s)),
       tcb := map t | t in s.tcb && (t in s.zombies ==> t in Claimed(s)) :: s.tcb[t])
  }

  function PutDown<T(==)>(s: State<T>): (r: State<T>)
    requires Wf(s) && s.cur in s.ring
    ensures Wf(r)
  {
    s.(tcb := s.tcb[s.cur := s.tcb[s.cur].(state := Ready, quantum := QUANTUM)])
  }

  /** sched_yield: reap, put the caller back to READY, run the next READY thread. */
  function Yield<T(==)>(s: State<T>): State<T>
    requires Wf(s) && s.cur in s.ring
  {
    var s1 := PutDown(ReapOrphans(s));
    Dispatch(s1, Pick(s1))
  }

  function Suspend<T(==)>(s: State<T>): State<T>
    requires Wf(s) && s.cur in s.ring
  {
    var t := Pick(s);
    Dispatch(s.(tcb := s.tcb[s.cur := s.tcb[s.cur].(state := Blocked)]), t)
  }

  /** sched_sleep_ns sets the deadline and then suspends. */
  function SetDeadline<T(==)>(s: State<T>, deadline: nat): (r: State<T>)
    requires Wf(s)
    ensures Wf(r)
  {
    s.(tcb := s.tcb[s.cur := s.tcb[s.cur].(deadline := deadline)])
  }

  /** sched_exit up to its search for the parent: off the ring, onto the zombie list. */
  function Bury<T(==)>(s: State<T>, status: int): (r: State<T>)
    requires Wf(s) && s.cur in s.ring && s.cur != s.main
    ensures Findable(r)
    ensures forall t :: t in s.ring && t != s.cur ==> t in r.ring
    ensures forall t :: t in r.ring ==> t in s.ring && t != s.cur
    ensures NoDup(r.ring) && r.ring != []
  {
    var c := IndexOf(s.ring, s.cur);
    WithoutMembers(s.ring, c);
    s.(ring := Without(s.ring, c), zombies := [s.cur] + s.zombies,
       tcb := s.tcb[s.cur := s.tcb[s.cur].(state := Zombie, status := status)])
  }

  function WakeParent<T(==)>(s: State<T>): (r: State<T>)
    requires Findable(s)
    ensures r.tcb.Keys == s.tcb.Keys
  {
    match FindByPid(s, s.tcb[s.cur].parent)
    case Some(p) => Wake(s, p)
    case None => s
  }

  /** sched_exit: the next thread is the head of the ring, whatever its neighbours. */
  function Exit<T(==)>(s: State<T>, status: int): State<T>
    requires Wf(s) && s.cur in s.ring && s.cur != s.main
  {
    var s1 := WakeParent(Bury(s, status));
    Dispatch(s1, s1.ring[0])
  }

  predicate Expired(b: Tcb, now: nat) {
    b.state == Blocked && b.deadline != 0 && now >= b.deadline
  }

  /** The control blocks once the threads `seen` have been checked for a passed deadline. */
  function Ticked<T(==)>(tcb: map<T, Tcb>, seen: seq<T>, now: nat): (r: map<T, Tcb>)
    ensures r.Keys == tcb.Keys
  {
    map t | t in tcb :: if t in seen && Expired(tcb[t], now) then tcb[t].(deadline := 0, state := Ready) else tcb[t]
  }

  function SpendQuantum<T(==)>(s: State<T>): State<T>
    requires Wf(s)
  {
    var b := s.tcb[s.cur];
    if b.quantum > 0 then s.(tcb := s.tcb[s.cur := b.(quantum := b.quantum - 1)]) else s
  }

  /** sched_tick at clock reading `now`. */
  function Tick<T(==)>(s: State<T>, now: nat): State<T>
    requires Wf(s)
  {
    var s1 := SpendQuantum(s);
    s1.(tcb := Ticked(s1.tcb, s.ring, now))
  }

  // ---- sys_waitpid ----

  predicate Matches(b: Tcb, parent: int, filter: int) {
    b.parent == parent && (filter <= 0 || b.pid == filter)
  }

  /** sched_child_zombie: the first zombie of this parent that the filter admits. */
  function ChildZombie<T(==)>(q: seq<T>, tcb: map<T, Tcb>, parent: int, filter: int): (r: Option<T>)
    requires forall z :: z in q ==> z in tcb
    ensures r.Some? ==> r.value in q && Matches(tcb[r.value], parent, filter)
    ensures r.None? ==> forall z :: z in q ==> !Matches(tcb[z], parent, filter)
  {
    if q == [] then None
    else if Matches(tcb[q[0]], parent, filter) then Some(q[0])
    else ChildZombie(q[1..], tcb, parent, filter)
  }

  ghost predicate LiveChild<T>(s: State<T>, parent: int)
    requires Wf(s)
  {
    exists t :: t in s.ring && s.tcb[t].parent == parent
  }

  ghost predicate ZombieChild<T>(s: State<T>, parent: int)
    requires Wf(s)
  {
    exists z :: z in s.zombies && s.tcb[z].parent == parent
  }

  /** sched_reap_zombie on a listed zombie. */
  function Reap<T(==)>(s: State<T>, z: T): State<T>
    requires Wf(s) && z in s.zombies
  {
    s.(zombies := Without(s.zombies, IndexOf(s.zombies, z)), tcb := s.tcb - {z})
  }

  datatype WaitResult = Reaped(pid: int, status: int) | NoChild | Waits

  function SetWaiting<T(==)>(s: State<T>, w: Option<int>): (r: State<T>)
    requires Wf(s)
    ensures Wf(r)
  {
    s.(tcb := s.tcb[s.cur := s.tcb[s.cur].(waiting := w)])
  }

  /** One pass of the loop in sys_waitpid by the current thread. */
  ghost function WaitPass<T>(s: State<T>, filter: int): (State<T>, WaitResult)
    requires Wf(s) && s.cur in s.ring
  {
    var me := s.tcb[s.cur].pid;
    match ChildZombie(s.zombies, s.tcb, me, filter)
    case Some(z) => (Reap(SetWaiting(s, None), z), Reaped(s.tcb[z].pid, s.tcb[z].status))
    case None =>
      if !LiveChild(s, me) && !ZombieChild(s, me) then (SetWaiting(s, None), NoChild)
      else (Suspend(SetWaiting(s, Some(filter))), Waits)
  }
}
