/** Bounded waiting: a READY thread is dispatched after a number of context
    switches that is known in advance, whatever the other threads do. */
module SchedFairness {
  import opened Sequences
  import opened SchedState
  import opened SchedRuns

  /** How many ring threads the search visits before t. */
  ghost function Gap<T>(ring: seq<T>, cur: T, t: T): (d: nat)
    requires cur in ring && t in ring && cur != t
    ensures d < |ring| - 1
  {
    var c := IndexOf(ring, cur);
    var k := IndexOf(ring, t);
    if k > c then k - c - 1 else k + |ring| - c - 1
  }

  lemma GapIsPlace<T>(ring: seq<T>, cur: T, t: T)
    requires cur in ring && t in ring && cur != t
    ensures Others(ring, cur)[Gap(ring, cur, t)] == t
  {
  }

  /** The first READY thread of a list is at or before any READY one. */
  lemma FirstReadyPlace<T>(q: seq<T>, tcb: map<T, Tcb>, d: nat) returns (p: nat)
    requires forall t :: t in q ==> t in tcb
    requires d < |q| && tcb[q[d]].state == Ready
    ensures p <= d && FirstReady(q, tcb) == Some(q[p])
  {
    if tcb[q[0]].state == Ready {
      p := 0;
    } else {
      p := FirstReadyPlace(q[1..], tcb, d - 1);
      p := p + 1;
    }
  }

  /** Moving p places round the ring brings t closer by p + 1. */
  lemma GapAfterMove<T>(ring: seq<T>, cur: T, t: T, p: nat)
    requires NoDup(ring) && cur in ring && t in ring && cur != t && p < Gap(ring, cur, t)
    ensures var next := Others(ring, cur)[p];
            next in ring && next != t && Gap(ring, next, t) < Gap(ring, cur, t)
  {
    var c := IndexOf(ring, cur);
    var j := if p < |ring| - c - 1 then c + 1 + p else p - (|ring| - c - 1);
    assert Others(ring, cur)[p] == ring[j];
    IndexOfUnique(ring, j);
  }

  /** The search stops at t or strictly before it, and then t is closer. */
  lemma PickMovesCloser<T>(s: State<T>, t: T)
    requires Wf(s) && s.cur in s.ring && t in s.ring && t != s.cur && s.tcb[t].state == Ready
    ensures Pick(s) in s.ring
    ensures Pick(s) != t ==> Gap(s.ring, Pick(s), t) < Gap(s.ring, s.cur, t)
  {
    var visit := Others(s.ring, s.cur) + [s.cur];
    GapIsPlace(s.ring, s.cur, t);
    var p := FirstReadyPlace(visit, s.tcb, Gap(s.ring, s.cur, t));
    assert visit[p] == Others(s.ring, s.cur)[p];
    if p < Gap(s.ring, s.cur, t) {
      GapAfterMove(s.ring, s.cur, t, p);
    }
  }

  /** An exit either moves t towards the head or, jumping back to the head, towards t. */
  lemma ExitMovesCloser<T>(ring: seq<T>, cur: T, t: T)
    requires NoDup(ring) && cur in ring && t in ring && cur != t && cur != ring[0]
    ensures var left := Without(ring, IndexOf(ring, cur));
      && t in left && left != []
      && (IndexOf(left, t) < IndexOf(ring, t)
          || (IndexOf(left, t) == IndexOf(ring, t)
              && (t == left[0] || Gap(left, left[0], t) < Gap(ring, cur, t))))
  {
    var c := IndexOf(ring, cur);
    var k := IndexOf(ring, t);
    var left := Without(ring, c);
    WithoutMembers(ring, c);
    IndexOfUnique(left, if k < c then k else k - 1);
    IndexOfUnique(left, 0);
  }

  // ---- runs ----

  ghost predicate Waiting<T>(s: State<T>, t: T) {
    Inv(s) && t in s.ring && t != s.cur && s.tcb[t].state == Ready
  }

  /** The pair (distance from ready_head, distance from current), read as one
      number in base `width`. */
  ghost function Rank<T>(s: State<T>, t: T, width: nat): nat
    requires Waiting(s, t)
  {
    IndexOf(s.ring, t) * width + Gap(s.ring, s.cur, t)
  }

  /** The steps that reach context_switch. */
  ghost predicate Switches<T>(s: State<T>, e: Step<T>)
    requires Inv(s) && Enabled(s, e)
  {
    match e
    case DoYield => true
    case DoSuspend => true
    case DoExit(_) => true
    case DoWait(f) => WaitPass(s, f).1 == Waits
    case _ => false
  }

  lemma SuspendRank<T>(s: State<T>, t: T, width: nat)
    requires Waiting(s, t) && Waiting(Suspend(s), t)
    ensures Rank(Suspend(s), t, width) < Rank(s, t, width)
  {
    PickMovesCloser(s, t);
  }

  lemma YieldRank<T>(s: State<T>, t: T, width: nat)
    requires Waiting(s, t) && Waiting(Yield(s), t)
    ensures Rank(Yield(s), t, width) < Rank(s, t, width)
  {
    PickMovesCloser(PutDown(ReapOrphans(s)), t);
  }

  lemma ExitRank<T>(s: State<T>, status: int, t: T, width: nat)
    requires Waiting(s, t) && s.cur != s.main && Waiting(Exit(s, status), t) && width >= |s.ring|
    ensures Rank(Exit(s, status), t, width) < Rank(s, t, width)
  {
    ExitMovesCloser(s.ring, s.cur, t);
    var left := Without(s.ring, IndexOf(s.ring, s.cur));
    assert Exit(s, status).ring == left && Exit(s, status).cur == left[0];
    LexicographicDrop(IndexOf(s.ring, t), Gap(s.ring, s.cur, t), IndexOf(left, t), Gap(left, left[0], t), width);
  }

  lemma LexicographicDrop(k: nat, d: nat, k': nat, d': nat, width: nat)
    requires d' < width
    requires k' < k || (k' == k && d' < d)
    ensures k' * width + d' < k * width + d
  {
    if k' < k {
      assert k' * width + width == (k' + 1) * width <= k * width;
    }
  }

  lemma SpawnRank<T>(s: State<T>, u: T, user: bool, t: T, width: nat)
    requires Waiting(s, t) && u !in s.tcb && Waiting(Spawn(s, u, user), t)
    ensures Rank(Spawn(s, u, user), t, width) <= Rank(s, t, width) + 1
  {
    var ring := s.ring + [u];
    assert NoDup(ring);
    assert ring[IndexOf(s.ring, t)] == t && ring[IndexOf(s.ring, s.cur)] == s.cur;
    IndexOfUnique(ring, IndexOf(s.ring, t));
    IndexOfUnique(ring, IndexOf(s.ring, s.cur));
  }

  lemma ExitLeavesReady<T>(s: State<T>, status: int, t: T)
    requires Waiting(s, t) && s.cur != s.main && Exit(s, status).cur != t
    ensures t in Exit(s, status).ring && Exit(s, status).tcb[t].state == Ready
  {
    BuryBetween(s, status);
    WakeParentFacts(Bury(s, status));
  }

  lemma WaitLeavesReady<T>(s: State<T>, f: int, t: T)
    requires Waiting(s, t) && WaitPass(s, f).0.cur != t
    ensures t in WaitPass(s, f).0.ring && WaitPass(s, f).0.tcb[t].state == Ready
  {
  }

  /** A READY thread stays READY, on the ring, until it is dispatched. */
  lemma StillWaiting<T>(s: State<T>, e: Step<T>, t: T)
    requires Waiting(s, t) && Enabled(s, e) && Next(s, e).cur != t && Inv(Next(s, e))
    ensures Waiting(Next(s, e), t)
  {
    match e
    case DoExit(status) => ExitLeavesReady(s, status, t);
    case DoWait(f) => WaitLeavesReady(s, f, t);
    case _ =>
  }

  lemma WaitRank<T>(s: State<T>, f: int, t: T, width: nat)
    requires Waiting(s, t) && Waiting(WaitPass(s, f).0, t)
    ensures Rank(WaitPass(s, f).0, t, width) <= Rank(s, t, width)
    ensures WaitPass(s, f).1 == Waits ==> Rank(WaitPass(s, f).0, t, width) < Rank(s, t, width)
  {
    if WaitPass(s, f).1 == Waits {
      PickMovesCloser(SetWaiting(s, Some(f)), t);
    }
  }

  /** No step but a spawn raises the rank, and every context switch lowers it. */
  lemma StepRank<T>(s: State<T>, e: Step<T>, t: T, width: nat)
    requires Waiting(s, t) && Enabled(s, e) && Waiting(Next(s, e), t) && width >= |s.ring|
    ensures Rank(Next(s, e), t, width) + (if Switches(s, e) then 1 else 0)
         <= Rank(s, t, width) + (if e.DoSpawn? then 1 else 0)
  {
    match e
    case DoSpawn(u, user) => SpawnRank(s, u, user, t, width);
    case DoYield => YieldRank(s, t, width);
    case DoSuspend => SuspendRank(s, t, width);
    case DoDeadline(deadline) => assert SetDeadline(s, deadline).ring == s.ring;
    case DoExit(status) => ExitRank(s, status, t, width);
    case DoWake(u) => assert Wake(s, u).ring == s.ring;
    case DoTick(now) => assert Tick(s, now).ring == s.ring;
    case DoWait(f) => WaitRank(s, f, t, width);
  }

  ghost function SwitchCount<T>(s: State<T>, es: seq<Step<T>>): nat
    requires Inv(s) && CanRun(s, es)
    decreases |es|
  {
    if es == [] then 0 else
      StepInv(s, es[0]);
      (if Switches(s, es[0]) then 1 else 0) + SwitchCount(Next(s, es[0]), es[1..])
  }

  ghost function SpawnCount<T>(es: seq<Step<T>>): nat {
    if es == [] then 0 else (if es[0].DoSpawn? then 1 else 0) + SpawnCount(es[1..])
  }

  /** t becomes current somewhere along the run. */
  ghost predicate Dispatched<T>(s: State<T>, es: seq<Step<T>>, t: T)
    requires Inv(s) && CanRun(s, es)
    decreases |es|
  {
    s.cur == t || (es != [] && (StepInv(s, es[0]); Dispatched(Next(s, es[0]), es[1..], t)))
  }

  /** Bounded waiting, over every run: a READY thread that has not been dispatched
      has seen at most rank + spawns context switches, where `width` is the size of
      the ring plus the spawns of the run. */
  lemma {:induction false} BoundedWaiting<T>(s: State<T>, es: seq<Step<T>>, t: T, width: nat)
    requires Waiting(s, t) && CanRun(s, es) && width >= |s.ring| + SpawnCount(es)
    ensures Dispatched(s, es, t) || SwitchCount(s, es) <= Rank(s, t, width) + SpawnCount(es)
    decreases |es|
  {
    if es != [] {
      StepInv(s, es[0]);
      var r := Next(s, es[0]);
      if r.cur != t {
        StillWaiting(s, es[0], t);
        StepRank(s, es[0], t, width);
        RingGrowth(s, es[0]);
        BoundedWaiting(r, es[1..], t, width);
      }
    }
  }

  lemma RingGrowth<T>(s: State<T>, e: Step<T>)
    requires Inv(s) && Enabled(s, e)
    ensures |Next(s, e).ring| <= |s.ring| + (if e.DoSpawn? then 1 else 0)
  {
  }

  /** In particular no READY thread is passed over by `width` squared switches. */
  lemma EventuallyDispatched<T>(s: State<T>, es: seq<Step<T>>, t: T, width: nat)
    requires Waiting(s, t) && CanRun(s, es) && width == |s.ring| + SpawnCount(es)
    requires SwitchCount(s, es) >= width * width
    ensures Dispatched(s, es, t)
  {
    BoundedWaiting(s, es, t, width);
    RankBelowSquare(s, t, SpawnCount(es), width);
  }

  lemma RankBelowSquare<T>(s: State<T>, t: T, spawns: nat, width: nat)
    requires Waiting(s, t) && width == |s.ring| + spawns
    ensures Rank(s, t, width) + spawns < width * width
  {
    BelowSquare(IndexOf(s.ring, t), Gap(s.ring, s.cur, t), |s.ring|, spawns);
    hide Gap;
  }

  lemma BelowSquare(k: nat, gap: nat, n: nat, spawns: nat)
    requires k < n && gap < n
    ensures k * (n + spawns) + gap + spawns < (n + spawns) * (n + spawns)
  {
    assert k * (n + spawns) + (n + spawns) == (k + 1) * (n + spawns) <= (n + spawns) * (n + spawns);
  }
}
