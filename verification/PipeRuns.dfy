/**
 * Pipe lifetime over whole runs: counters cover the slots, nothing a slot names
 * is freed, and exactly when counters equal the slots.
 */
module PipeRuns {
  import opened Pipes

  // ---- Chaining operations ----

  lemma Chain(s: State, u: State, v: State, tight: bool)
    requires Inv(s) && Follows(s, u, tight) && Follows(u, v, true)
    ensures Follows(s, v, tight)
  {
    hide NodesFollow, PipesFollow, SlotsAlive, CountsCover, Fresh, Owned;
    Weaken(u, v, tight);
    FollowsTrans(s, u, v, tight);
  }

  lemma Weaken(s: State, u: State, tight: bool)
    requires Follows(s, u, true)
    ensures Follows(s, u, tight)
  {
    if !tight {
      Loosen(s, u);
    }
  }

  lemma Stays(s: State, tight: bool)
    ensures Follows(s, s, tight)
  {
  }

  lemma PlainInv(s: State, k: Key, v: Slot)
    requires Inv(s) && !v.PipeEnd? && !IsEnd(s, k)
    ensures var u := s.(slots := s.slots[k := v]); Inv(u) && Follows(s, u, true)
  {
    PlainCore(s, k, v, true);
  }

  lemma ReleaseInv(s: State, k: Key)
    requires Inv(s)
    ensures Inv(Release(s, k)) && Follows(s, Release(s, k), true)
  {
    if IsEnd(s, k) {
      DropInv(s, k);
    } else {
      PlainInv(s, k, Free);
    }
  }

  lemma CopyInv(s: State, from: Key, to: Key)
    requires Inv(s) && !IsEnd(s, to) && to.thread in s.threads && to.fd < MAX_FD
    ensures Inv(Copy(s, from, to)) && Follows(s, Copy(s, from, to), true)
  {
    if IsEnd(s, from) {
      ShareInv(s, to, s.slots[from].node);
    } else {
      PlainInv(s, to, At(s, from.thread, from.fd));
    }
  }

  /** After copying i slots the child's first i slots are the parent's. */
  lemma {:induction false} CopyAllSlots(s: State, parent: nat, child: nat, i: nat, t: nat, j: nat)
    requires parent != child
    ensures var u := CopyAll(s, parent, child, i);
      && u.threads == s.threads
      && At(u, t, j) == if t == child && j < i then At(s, parent, j) else At(s, t, j)
  {
    if i > 0 {
      CopyAllSlots(s, parent, child, i - 1, t, j);
      CopyAllSlots(s, parent, child, i - 1, parent, i - 1);
    }
  }

  lemma {:induction false} ReleaseAllSlots(s: State, t: nat, i: nat, t': nat, j: nat)
    ensures var u := ReleaseAll(s, t, i);
      && u.threads == s.threads
      && At(u, t', j) == if t' == t && j < i then Free else At(s, t', j)
  {
    if i > 0 {
      ReleaseAllSlots(s, t, i - 1, t', j);
    }
  }

  lemma {:induction false} CopyAllInv(s: State, parent: nat, child: nat, i: nat)
    requires Inv(s) && parent != child && child in s.threads && i <= MAX_FD
    requires forall j: nat :: !IsEnd(s, Key(child, j))
    ensures Inv(CopyAll(s, parent, child, i)) && Follows(s, CopyAll(s, parent, child, i), true)
  {
    hide Inv, Follows, Copy;
    if i == 0 {
      Stays(s, true);
    } else {
      CopyAllInv(s, parent, child, i - 1);
      var u := CopyAll(s, parent, child, i - 1);
      CopyAllSlots(s, parent, child, i - 1, child, i - 1);
      assert !IsEnd(s, Key(child, i - 1));
      CopyInv(u, Key(parent, i - 1), Key(child, i - 1));
      Chain(s, u, CopyAll(s, parent, child, i), true);
    }
  }

  lemma {:induction false} ReleaseAllInv(s: State, t: nat, i: nat)
    requires Inv(s)
    ensures Inv(ReleaseAll(s, t, i)) && Follows(s, ReleaseAll(s, t, i), true)
  {
    hide Inv, Follows, Release;
    if i == 0 {
      Stays(s, true);
    } else {
      ReleaseAllInv(s, t, i - 1);
      var u := ReleaseAll(s, t, i - 1);
      ReleaseInv(u, Key(t, i - 1));
      Chain(s, u, ReleaseAll(s, t, i), true);
    }
  }

  /** Only slots of live threads may hold pipe ends; nothing else depends on the
      set of threads. */
  lemma ThreadsInv(s: State, threads: set<nat>)
    requires Inv(s) && forall k :: IsEnd(s, k) ==> k.thread in threads
    ensures var u := s.(threads := threads); Inv(u) && Follows(s, u, true)
  {
    var u := s.(threads := threads);
    forall n | n in s.refs ensures NodeExcess(u, n) == NodeExcess(s, n) {
    }
    forall p, r | p in s.pipes ensures PipeExcess(u, p, r) == PipeExcess(s, p, r) {
    }
    forall k | IsEnd(u, k)
      ensures k.thread in u.threads && k.fd < MAX_FD && u.slots[k].node in u.refs && u.slots[k].node.pipe in u.pipes
    {
      assert IsEnd(s, k);
    }
    hide NodeExcess, PipeExcess;
  }

  lemma ForkInv(s: State, parent: nat, child: nat)
    requires Inv(s) && parent in s.threads && child !in s.threads
    ensures Inv(Fork(s, parent, child)) && Follows(s, Fork(s, parent, child), true)
  {
    var s1 := s.(threads := s.threads + {child});
    ThreadsInv(s, s.threads + {child});
    forall j: nat ensures !IsEnd(s1, Key(child, j)) {
      assert !IsEnd(s, Key(child, j));
    }
    hide Inv, Follows;
    CopyAllInv(s1, parent, child, MAX_FD);
    Chain(s, s1, Fork(s, parent, child), true);
  }

  lemma ExitInv(s: State, t: nat)
    requires Inv(s)
    ensures Inv(Exit(s, t)) && Follows(s, Exit(s, t), true)
  {
    ReleaseAllInv(s, t, MAX_FD);
    var s1 := ReleaseAll(s, t, MAX_FD);
    forall k | IsEnd(s1, k) ensures k.thread in s1.threads - {t} {
      assert k.fd < MAX_FD;
      ReleaseAllSlots(s, t, MAX_FD, k.thread, k.fd);
    }
    hide Inv, Follows, ReleaseAll;
    ThreadsInv(s1, s1.threads - {t});
    Chain(s, s1, Exit(s, t), true);
  }

  // ---- System calls ----

  lemma MakePipeInv(s: State, t: nat)
    requires Inv(s) && t in s.threads
    ensures Inv(MakePipe(s, t)) && Follows(Ensure(s, t), MakePipe(s, t), true)
  {
    hide Inv, Follows, FdAlloc, NewEnd, Loses;
    EnsureInv(s, t);
    var s1 := Ensure(s, t);
    Stays(s1, true);
    assert s1.threads == s.threads;
    hide Ensure;
    var rfd := FdAlloc(s1, t, 0);
    if rfd < MAX_FD {
      var wfd := FdAlloc(Put(s1, t, rfd, Reserved), t, 0);
      if wfd < MAX_FD {
        OpenBothEnds(s1, Key(t, rfd), Key(t, wfd));
      } else {
        PlainInv(s1, Key(t, rfd), Free);
      }
    }
  }

  lemma OpenBothEnds(s: State, rk: Key, wk: Key)
    requires Inv(s) && !IsEnd(s, rk) && !IsEnd(s, wk) && rk != wk
    requires rk.thread in s.threads && rk.fd < MAX_FD && wk.thread in s.threads && wk.fd < MAX_FD
    ensures var u := NewEnd(NewEnd(NewPipe(s, false), rk, s.nextPipe, true), wk, s.nextPipe, false);
      Inv(u) && Follows(s, u, true)
  {
    hide Follows, SlotsAlive, CountsCover, Fresh, Owned, NewEnd;
    BothEndsOwned(s, rk, wk);
    var s1 := NewPipe(s, false);
    NewPipeCore(s, false);
    BothEndsCore(s1, rk, wk, s.nextPipe);
    FollowsTrans(s, s1, NewEnd(NewEnd(s1, rk, s.nextPipe, true), wk, s.nextPipe, false), true);
  }

  lemma BothEndsCore(s: State, rk: Key, wk: Key, p: nat)
    requires Core(s) && p in s.pipes && !IsEnd(s, rk) && !IsEnd(s, wk) && rk != wk
    requires rk.thread in s.threads && rk.fd < MAX_FD && wk.thread in s.threads && wk.fd < MAX_FD
    ensures var u := NewEnd(NewEnd(s, rk, p, true), wk, p, false); Core(u) && Follows(s, u, true)
  {
    hide Follows, SlotsAlive, CountsCover, Fresh;
    NewEndCore(s, rk, p, true);
    var s1 := NewEnd(s, rk, p, true);
    assert s1.threads == s.threads && !IsEnd(s1, wk) && p in s1.pipes;
    NewEndCore(s1, wk, p, false);
    hide NewEnd;
    FollowsTrans(s, s1, NewEnd(s1, wk, p, false), true);
  }

  lemma BothEndsOwned(s: State, rk: Key, wk: Key)
    requires Owned(s) && Fresh(s)
    ensures Owned(NewEnd(NewEnd(NewPipe(s, false), rk, s.nextPipe, true), wk, s.nextPipe, false))
  {
    hide PipesOwned;
    var u := NewEnd(NewEnd(NewPipe(s, false), rk, s.nextPipe, true), wk, s.nextPipe, false);
    AddPipeOwned(s.pipes, s.fifos, s.nextPipe, Pipe(1, 1, false, false));
    assert u.pipes == s.pipes[s.nextPipe := Pipe(1, 1, false, false)];
  }

  lemma AddPipeOwned(pipes: map<nat, Pipe>, fifos: map<nat, nat>, p: nat, x: Pipe)
    requires PipesOwned(pipes, fifos) && p !in pipes && !x.Unused() && !x.shared
    ensures PipesOwned(pipes[p := x], fifos)
  {
  }

  lemma OpenFifoInv(s: State, t: nat, f: nat, write: bool)
    requires Inv(s) && t in s.threads
    ensures Inv(OpenFifo(s, t, f, write)) && Follows(Ensure(s, t), OpenFifo(s, t, f, write), true)
  {
    hide Inv, Follows, FdAlloc, NewEnd, Loses;
    EnsureInv(s, t);
    var s1 := Ensure(s, t);
    Stays(s1, true);
    assert s1.threads == s.threads;
    hide Ensure;
    var fd := FdAlloc(s1, t, 0);
    if f in s1.fifos && s1.fifos[f] in s1.pipes && fd < MAX_FD {
      NewEndInv(s1, Key(t, fd), s1.fifos[f], !write);
    }
  }

  lemma NewEndInv(s: State, k: Key, p: nat, reader: bool)
    requires Inv(s) && p in s.pipes && !IsEnd(s, k) && k.thread in s.threads && k.fd < MAX_FD
    ensures Inv(NewEnd(s, k, p, reader)) && Follows(s, NewEnd(s, k, p, reader), true)
  {
    NewEndOwned(s, k, p, reader);
    hide Follows, SlotsAlive, CountsCover, Fresh, Owned, NewEnd;
    NewEndCore(s, k, p, reader);
  }

  lemma NewEndOwned(s: State, k: Key, p: nat, reader: bool)
    requires Owned(s) && CountsCover(s) && p in s.pipes
    ensures Owned(NewEnd(s, k, p, reader))
  {
    assert PipeExcess(s, p, true) >= 0 && PipeExcess(s, p, false) >= 0;
    RecountOwned(s.pipes, s.fifos, p, s.pipes[p].Add(reader, 1));
    hide PipesOwned, CountsCover;
  }

  lemma MakeFifoInv(s: State, t: nat, f: nat)
    requires Inv(s)
    ensures Inv(MakeFifo(s, t, f)) && Follows(Ensure(s, t), MakeFifo(s, t, f), true)
  {
    hide Inv, Follows, NewPipe, Loses;
    EnsureInv(s, t);
    var s1 := Ensure(s, t);
    Stays(s1, true);
    hide Ensure;
    if f !in s1.fifos {
      NewFifoInv(s1, f);
    }
  }

  lemma NewFifoInv(s: State, f: nat)
    requires Inv(s) && f !in s.fifos
    ensures var u := NewPipe(s, true).(fifos := s.fifos[f := s.nextPipe]); Inv(u) && Follows(s, u, true)
  {
    NewFifoOwned(s.pipes, s.fifos, f, s.nextPipe);
    hide Follows, SlotsAlive, CountsCover, PipesOwned, Fresh;
    NewPipeCore(s, true);
    FifosCore(s, NewPipe(s, true), s.fifos[f := s.nextPipe]);
  }

  lemma NewFifoOwned(pipes: map<nat, Pipe>, fifos: map<nat, nat>, f: nat, p: nat)
    requires PipesOwned(pipes, fifos) && f !in fifos && p !in pipes
    ensures PipesOwned(pipes[p := Pipe(0, 0, true, false)], fifos[f := p])
  {
    var pipes', fifos' := pipes[p := Pipe(0, 0, true, false)], fifos[f := p];
    assert fifos'[f] == p;
    forall q | q in pipes' && pipes'[q].shared && !pipes'[q].dead ensures exists g :: g in fifos' && fifos'[g] == q {
      if q != p {
        var g :| g in fifos && fifos[g] == q;
        assert fifos'[g] == q;
      }
    }
  }

  lemma FifosCore(s: State, u: State, fifos: map<nat, nat>)
    requires Core(u) && Follows(s, u, true)
    ensures Core(u.(fifos := fifos)) && Follows(s, u.(fifos := fifos), true)
  {
    var v := u.(fifos := fifos);
    forall n | n in u.refs ensures NodeExcess(v, n) == NodeExcess(u, n) {
    }
    forall p, r | p in u.pipes ensures PipeExcess(v, p, r) == PipeExcess(u, p, r) {
    }
    forall k | IsEnd(v, k)
      ensures k.thread in v.threads && k.fd < MAX_FD && v.slots[k].node in v.refs && v.slots[k].node.pipe in v.pipes
    {
      assert IsEnd(u, k);
    }
    hide NodeExcess, PipeExcess;
  }

  lemma OpenFileInv(s: State, t: nat)
    requires Inv(s)
    ensures Inv(OpenFile(s, t)) && Follows(Ensure(s, t), OpenFile(s, t), true)
  {
    hide Inv, Follows, FdAlloc, Loses;
    EnsureInv(s, t);
    var s1 := Ensure(s, t);
    Stays(s1, true);
    hide Ensure;
    var fd := FdAlloc(s1, t, 0);
    if fd < MAX_FD {
      PlainInv(s1, Key(t, fd), File);
    }
  }

  lemma CloseInv(s: State, t: nat, fd: int)
    requires Inv(s)
    ensures Inv(Close(s, t, fd)) && Follows(Ensure(s, t), Close(s, t, fd), true)
  {
    hide Inv, Follows, Release, Loses;
    EnsureInv(s, t);
    var s1 := Ensure(s, t);
    Stays(s1, true);
    hide Ensure;
    if 0 <= fd < MAX_FD && At(s1, t, fd) != Free {
      ReleaseInv(s1, Key(t, fd));
    }
  }

  /** After vfs_ensure_proc a second call changes nothing. */
  lemma EnsureStandard(s: State, t: nat)
    ensures Standard(Ensure(s, t), t)
  {
  }

  lemma Dup2Inv(s: State, t: nat, o: int, n: int)
    requires Inv(s) && t in s.threads
    ensures Inv(Dup2(s, t, o, n)) && Follows(Ensure(s, t), Dup2(s, t, o, n), true)
  {
    hide Inv, Follows, Release, Copy, Loses;
    EnsureInv(s, t);
    EnsureStandard(s, t);
    var s1 := Ensure(s, t);
    Stays(s1, true);
    if 0 <= o < MAX_FD && At(s1, t, o) != Free && 0 <= n < MAX_FD && o != n {
      ReplaceInv(s1, t, o, n);
    }
  }

  lemma ReleasedSlot(s: State, k: Key)
    ensures Release(s, k).slots == s.slots[k := Free] && Release(s, k).threads == s.threads
  {
  }

  lemma ReplaceInv(s: State, t: nat, o: nat, n: nat)
    requires Inv(s) && t in s.threads && Standard(s, t) && n < MAX_FD && o != n
    ensures var s1 := if At(s, t, n) != Free then Close(s, t, n) else s;
      Inv(Copy(s1, Key(t, o), Key(t, n))) && Follows(s, Copy(s1, Key(t, o), Key(t, n)), true)
  {
    hide Inv, Follows, Release, Copy;
    Stays(s, true);
    var s1 := if At(s, t, n) != Free then Close(s, t, n) else s;
    if At(s, t, n) != Free {
      assert s1 == Release(s, Key(t, n));
      ReleaseInv(s, Key(t, n));
      ReleasedSlot(s, Key(t, n));
    }
    CopyInv(s1, Key(t, o), Key(t, n));
    Chain(s, s1, Copy(s1, Key(t, o), Key(t, n)), true);
  }

  lemma UnlinkInv(s: State, t: nat, f: nat)
    requires Inv(s)
    ensures Inv(Unlink(s, t, f)) && Follows(Ensure(s, t), Unlink(s, t, f), true)
  {
    hide Inv, Follows, Loses;
    EnsureInv(s, t);
    var s1 := Ensure(s, t);
    Stays(s1, true);
    hide Ensure;
    if f in s1.fifos && s1.fifos[f] in s1.pipes {
      DetachInv(s1, f);
    }
  }

  /** A slot is open on one of the ends of pipe p. */
  ghost predicate Open(s: State, p: nat) {
    exists k :: IsEnd(s, k) && s.slots[k].node.pipe == p
  }

  /** Unlinking a FIFO never frees a pipe that a slot is open on; its last close
      does, for then it is dead. */
  lemma DetachInv(s: State, f: nat)
    requires Inv(s) && f in s.fifos && s.fifos[f] in s.pipes
    ensures Inv(Detach(s, f)) && Follows(s, Detach(s, f), true)
    ensures Open(s, s.fifos[f]) ==> s.fifos[f] in Detach(s, f).pipes && Detach(s, f).pipes[s.fifos[f]].dead
  {
    DetachOwned(s, f);
    DetachOpen(s, f);
    var u := Detach(s, f);
    var q := s.fifos[f];
    assert PipeExcess(s, q, true) >= 0 && PipeExcess(s, q, false) >= 0;
    forall n | n in s.refs ensures NodeExcess(u, n) == NodeExcess(s, n) {
    }
    forall p, r | p in u.pipes ensures p in s.pipes && PipeExcess(u, p, r) == PipeExcess(s, p, r) {
    }
    forall k | IsEnd(u, k)
      ensures k.thread in u.threads && k.fd < MAX_FD && u.slots[k].node in u.refs && u.slots[k].node.pipe in u.pipes
    {
      assert IsEnd(s, k);
      assert k in EndSet(s.slots, s.slots[k].node.pipe, s.slots[k].node.reader);
    }
    hide NodeExcess, SlotsAlive, PipesOwned;
  }

  lemma DetachOpen(s: State, f: nat)
    requires Inv(s) && f in s.fifos && s.fifos[f] in s.pipes
    ensures Open(s, s.fifos[f]) ==> s.fifos[f] in Detach(s, f).pipes && Detach(s, f).pipes[s.fifos[f]].dead
  {
    var q := s.fifos[f];
    assert PipeExcess(s, q, true) >= 0 && PipeExcess(s, q, false) >= 0;
    if Open(s, q) {
      var k :| IsEnd(s, k) && s.slots[k].node.pipe == q;
      assert k in EndSet(s.slots, q, s.slots[k].node.reader);
    }
  }

  lemma DetachOwned(s: State, f: nat)
    requires PipesOwned(s.pipes, s.fifos) && f in s.fifos && s.fifos[f] in s.pipes
    ensures PipesOwned(Detach(s, f).pipes, Detach(s, f).fifos)
  {
    var u := Detach(s, f);
    forall p | p in u.pipes && u.pipes[p].shared && !u.pipes[p].dead
      ensures exists g :: g in u.fifos && u.fifos[g] == p
    {
      var g :| g in s.fifos && s.fifos[g] == p;
      assert g in u.fifos;
    }
  }

  // ---- Runs ----

  datatype Event =
    | PipeCall(t: nat)
    | MkfifoCall(t: nat, fifo: nat)
    | OpenFifoCall(t: nat, fifo: nat, write: bool)
    | OpenFileCall(t: nat)
    | UnlinkCall(t: nat, fifo: nat)
    | Dup2Call(t: nat, oldfd: int, newfd: int)
    | CloseCall(t: nat, fd: int)
    | ForkCall(t: nat, child: nat)
    | ExitCall(t: nat)

  predicate Enabled(s: State, e: Event) {
    e.t in s.threads && (e.ForkCall? ==> e.child !in s.threads)
  }

  function Step(s: State, e: Event): State {
    match e
    case PipeCall(t) => MakePipe(s, t)
    case MkfifoCall(t, f) => MakeFifo(s, t, f)
    case OpenFifoCall(t, f, write) => OpenFifo(s, t, f, write)
    case OpenFileCall(t) => OpenFile(s, t)
    case UnlinkCall(t, f) => Unlink(s, t, f)
    case Dup2Call(t, o, n) => Dup2(s, t, o, n)
    case CloseCall(t, fd) => Close(s, t, fd)
    case ForkCall(t, child) => Fork(s, t, child)
    case ExitCall(t) => Exit(s, t)
  }

  /** The call resets standard slots of which one holds a pipe end. */
  predicate LosesSlot(s: State, e: Event) {
    !e.ForkCall? && !e.ExitCall? && Loses(s, e.t)
  }

  /** A system call resets the standard slots if it must, and then moves
      references and counters together. */
  lemma CallInv(s: State, e: Event)
    requires Inv(s) && Enabled(s, e) && !e.ForkCall? && !e.ExitCall?
    ensures Inv(Step(s, e)) && Follows(Ensure(s, e.t), Step(s, e), true)
  {
    hide Inv, Follows, Ensure, MakePipe, MakeFifo, OpenFifo, OpenFile, Unlink, Dup2, Close;
    match e
    case PipeCall(t) => MakePipeInv(s, t);
    case MkfifoCall(t, f) => MakeFifoInv(s, t, f);
    case OpenFifoCall(t, f, write) => OpenFifoInv(s, t, f, write);
    case OpenFileCall(t) => OpenFileInv(s, t);
    case UnlinkCall(t, f) => UnlinkInv(s, t, f);
    case Dup2Call(t, o, n) => Dup2Inv(s, t, o, n);
    case CloseCall(t, fd) => CloseInv(s, t, fd);
  }

  lemma StepInv(s: State, e: Event)
    requires Inv(s) && Enabled(s, e)
    ensures Inv(Step(s, e)) && Follows(s, Step(s, e), !LosesSlot(s, e))
  {
    hide Inv, Follows, Ensure, Loses, Fork, Exit, Step;
    if e.ForkCall? {
      ForkInv(s, e.t, e.child);
      ForkStep(s, e);
    } else if e.ExitCall? {
      ExitInv(s, e.t);
      ForkStep(s, e);
    } else {
      EnsureInv(s, e.t);
      CallInv(s, e);
      Chain(s, Ensure(s, e.t), Step(s, e), !Loses(s, e.t));
    }
  }

  lemma ForkStep(s: State, e: Event)
    ensures e.ForkCall? ==> Step(s, e) == Fork(s, e.t, e.child)
    ensures e.ExitCall? ==> Step(s, e) == Exit(s, e.t)
  {
  }

  predicate CanRun(s: State, es: seq<Event>)
    decreases |es|
  {
    es == [] || (Enabled(s, es[0]) && CanRun(Step(s, es[0]), es[1..]))
  }

  function After(s: State, es: seq<Event>): State
    decreases |es|
  {
    if es == [] then s else After(Step(s, es[0]), es[1..])
  }

  /** No call of the run resets standard slots while one holds a pipe end. */
  predicate NeverLoses(s: State, es: seq<Event>)
    decreases |es|
  {
    es == [] || (!LosesSlot(s, es[0]) && NeverLoses(Step(s, es[0]), es[1..]))
  }

  /**
   * Every run: whatever a slot names is alive, counters cover the slots, no
   * excess ever goes away, and pipes freed do not come back.
   */
  lemma {:induction false} RunSafe(s: State, es: seq<Event>)
    requires Inv(s) && CanRun(s, es)
    ensures Inv(After(s, es)) && Follows(s, After(s, es), NeverLoses(s, es))
    decreases |es|
  {
    hide Inv, Follows, Step, LosesSlot;
    if es == [] {
      Stays(s, true);
    } else {
      var u := Step(s, es[0]);
      StepInv(s, es[0]);
      RunSafe(u, es[1..]);
      Join(s, u, After(u, es[1..]), !LosesSlot(s, es[0]), NeverLoses(u, es[1..]));
    }
  }

  lemma Join(s: State, u: State, v: State, a: bool, b: bool)
    requires Inv(s) && Follows(s, u, a) && Follows(u, v, b)
    ensures Follows(s, v, a && b)
  {
    hide NodesFollow, PipesFollow, SlotsAlive, CountsCover, Fresh, Owned;
    if !(a && b) {
      if a { Loosen(s, u); }
      if b { Loosen(u, v); }
    }
    FollowsTrans(s, u, v, a && b);
  }

  /** Counters equal the slots they count. */
  ghost predicate Exact(s: State) {
    && (forall n :: n in s.refs ==> NodeExcess(s, n) == 0)
    && (forall p, r :: p in s.pipes ==> PipeExcess(s, p, r) == 0)
  }

  lemma ExactKept(s: State, u: State)
    requires Exact(s) && Follows(s, u, true)
    ensures Exact(u)
  {
    hide NodeExcess, PipeExcess;
  }

  /** Losing a slot leaves a vnode with more references than slots. */
  lemma LossShows(s: State, t: nat) returns (n: Node)
    requires Inv(s) && Loses(s, t)
    ensures n in Ensure(s, t).refs && NodeExcess(Ensure(s, t), n) > 0
  {
    var i: nat := if IsEnd(s, Key(t, 0)) then 0 else if IsEnd(s, Key(t, 1)) then 1 else 2;
    var k := Key(t, i);
    assert IsEnd(s, k);
    n := s.slots[k].node;
    var u := Ensure(s, t);
    var a, b := RefSet(s.slots, n), RefSet(u.slots, n);
    assert k in a && k !in b && b <= a - {k};
    SplitOff(a, k);
    SubsetSize(b, a - {k});
    assert NodeExcess(s, n) >= 0;
  }

  lemma {:induction false} SubsetSize(a: set<Key>, b: set<Key>)
    requires a <= b
    ensures |a| <= |b|
  {
    assert b == a + (b - a);
  }

  lemma LossStays(s: State, e: Event)
    requires Inv(s) && Enabled(s, e) && LosesSlot(s, e)
    ensures !Exact(Step(s, e))
  {
    hide Inv, Ensure, Loses, Step, PipesFollow;
    var n := LossShows(s, e.t);
    CallInv(s, e);
    assert n in Step(s, e).refs && NodeExcess(Step(s, e), n) > 0;
  }

  /** A vnode or pipe with excess keeps it, so inexact counters stay inexact. */
  lemma ExcessForever(s: State, u: State)
    requires Inv(s) && Follows(s, u, false) && !Exact(s)
    ensures !Exact(u)
  {
    if n :| n in s.refs && NodeExcess(s, n) != 0 {
      assert NodeExcess(u, n) > 0;
    } else {
      var p, r :| p in s.pipes && PipeExcess(s, p, r) != 0;
      assert PipeExcess(u, p, r) > 0;
    }
  }

  /**
   * Counters that equal their slots stay equal over a run exactly when no call
   * of the run resets standard slots while one of them holds a pipe end.
   */
  lemma {:induction false} ExactIff(s: State, es: seq<Event>)
    requires Inv(s) && CanRun(s, es) && Exact(s)
    ensures Exact(After(s, es)) <==> NeverLoses(s, es)
    decreases |es|
  {
    hide Inv, Follows, Exact, Step, LosesSlot;
    if es != [] {
      var e, u := es[0], Step(s, es[0]);
      StepInv(s, e);
      if LosesSlot(s, e) {
        LossStays(s, e);
        RunSafe(u, es[1..]);
        LoosenAny(u, After(u, es[1..]), NeverLoses(u, es[1..]));
        ExcessForever(u, After(u, es[1..]));
      } else {
        ExactKept(s, u);
        ExactIff(u, es[1..]);
      }
    }
  }

  lemma LoosenAny(s: State, u: State, tight: bool)
    requires Follows(s, u, tight)
    ensures Follows(s, u, false)
  {
    if tight {
      Loosen(s, u);
    }
  }

  // ---- What exact counters mean ----

  /** The references that keep a pipe: a slot open on one of its ends, or a FIFO. */
  ghost predicate Referred(s: State, p: nat) {
    Open(s, p) || exists f :: f in s.fifos && s.fifos[f] == p
  }

  /** With exact counters a pipe is alive exactly while something refers to it. */
  lemma LifetimeExact(s: State, p: nat)
    requires Inv(s) && Exact(s)
    ensures p in s.pipes <==> Referred(s, p)
  {
    if p in s.pipes && (s.pipes[p].dead || !s.pipes[p].shared) {
      assert PipeExcess(s, p, true) == 0 && PipeExcess(s, p, false) == 0;
      var r :| s.pipes[p].Count(r) != 0 by {
        assert s.pipes[p].Count(true) != 0 || s.pipes[p].Count(false) != 0;
      }
      var k :| k in EndSet(s.slots, p, r);
      assert IsEnd(s, k);
    }
  }

  /** With exact counters unlinking a FIFO frees its pipe at once exactly when no
      slot is open on it. */
  lemma DetachFrees(s: State, f: nat)
    requires Inv(s) && Exact(s) && f in s.fifos && s.fifos[f] in s.pipes
    ensures s.fifos[f] !in Detach(s, f).pipes <==> !Open(s, s.fifos[f])
  {
    DetachInv(s, f);
    var u, q := Detach(s, f), s.fifos[f];
    ExactKept(s, u);
    LifetimeExact(u, q);
    assert forall k :: IsEnd(u, k) <==> IsEnd(s, k);
    hide NodesFollow, PipesFollow, SlotsAlive, CountsCover, Fresh, NodeExcess, PipeExcess;
  }

  /** In any state, and so after any run, a pipe that a slot names is alive and a
      pipe once freed is never alive again. */
  lemma FreedOnce(s: State, es: seq<Event>, p: nat)
    requires Inv(s) && CanRun(s, es)
    ensures Referred(After(s, es), p) ==> p in After(s, es).pipes
    ensures p < s.nextPipe && p !in s.pipes ==> p !in After(s, es).pipes && !Referred(After(s, es), p)
  {
    RunSafe(s, es);
    hide NodesFollow, After, NeverLoses, CanRun;
  }

  /** A pipe whose counter exceeds its slots is never freed. */
  lemma LeakedForever(s: State, es: seq<Event>, p: nat, r: bool)
    requires Inv(s) && CanRun(s, es) && p in s.pipes && PipeExcess(s, p, r) > 0
    ensures p in After(s, es).pipes
  {
    RunSafe(s, es);
    hide NodesFollow, After, NeverLoses, CanRun;
  }

  // ---- Standard slots replaced only by dup2 ----

  ghost predicate Settled(s: State) {
    forall t :: t in s.threads ==> !Loses(s, t)
  }

  predicate KeepsStandard(e: Event) {
    e.CloseCall? ==> e.fd < 0 || e.fd >= 3
  }

  lemma CopiedSlot(s: State, from: Key, to: Key)
    ensures Copy(s, from, to).slots == s.slots[to := At(s, from.thread, from.fd)] && Copy(s, from, to).threads == s.threads
  {
  }

  /** The call fills the caller's standard slots and touches no other thread. */
  predicate OnlyOwnSlots(s: State, u: State, mine: nat, t: nat, fd: nat) {
    u.threads == s.threads && Standard(u, mine) && (t != mine ==> At(u, t, fd) == At(s, t, fd))
  }

  lemma CallSlots(s: State, e: Event, t: nat, fd: nat)
    requires !e.ForkCall? && !e.ExitCall? && KeepsStandard(e)
    ensures OnlyOwnSlots(s, Step(s, e), e.t, t, fd)
  {
    hide FdAlloc, Release, MakePipe, Dup2, NewEnd;
    EnsureStandard(s, e.t);
    var s1 := Ensure(s, e.t);
    assert OnlyOwnSlots(s, s1, e.t, t, fd);
    hide Ensure;
    match e
    case PipeCall(_) => PipeSlots(s, e.t, t, fd);
    case Dup2Call(_, o, n) => Dup2Slots(s, e.t, o, n, t, fd);
    case CloseCall(_, c) =>
      if 0 <= c {
        ReleasedSlot(s1, Key(e.t, c));
      }
    case OpenFifoCall(_, f, write) =>
      if f in s1.fifos && s1.fifos[f] in s1.pipes {
        EndSlots(s1, Key(e.t, FdAlloc(s1, e.t, 0)), s1.fifos[f], !write, s, t, fd);
      }
    case _ =>
  }

  lemma EndSlots(s: State, k: Key, p: nat, reader: bool, s0: State, t: nat, fd: nat)
    requires p in s.pipes && OnlyOwnSlots(s0, s, k.thread, t, fd)
    ensures OnlyOwnSlots(s0, NewEnd(s, k, p, reader), k.thread, t, fd)
  {
  }

  lemma PipeSlots(s: State, mine: nat, t: nat, fd: nat)
    ensures OnlyOwnSlots(s, MakePipe(s, mine), mine, t, fd)
  {
    hide FdAlloc, NewEnd;
    EnsureStandard(s, mine);
    var s1 := Ensure(s, mine);
    assert OnlyOwnSlots(s, s1, mine, t, fd);
    hide Ensure;
    var rfd := FdAlloc(s1, mine, 0);
    var wfd := FdAlloc(Put(s1, mine, rfd, Reserved), mine, 0);
    var s2 := NewPipe(s1, false);
    assert OnlyOwnSlots(s, s2, mine, t, fd);
    assert rfd < MAX_FD ==> OnlyOwnSlots(s, Put(s1, mine, rfd, Free), mine, t, fd);
    EndSlots(s2, Key(mine, rfd), s1.nextPipe, true, s, t, fd);
    EndSlots(NewEnd(s2, Key(mine, rfd), s1.nextPipe, true), Key(mine, wfd), s1.nextPipe, false, s, t, fd);
    hide OnlyOwnSlots;
  }

  lemma Dup2Slots(s: State, mine: nat, o: int, n: int, t: nat, fd: nat)
    ensures OnlyOwnSlots(s, Dup2(s, mine, o, n), mine, t, fd)
  {
    hide Release, Copy;
    EnsureStandard(s, mine);
    var s1 := Ensure(s, mine);
    assert OnlyOwnSlots(s, s1, mine, t, fd);
    if 0 <= o < MAX_FD && 0 <= n < MAX_FD {
      ReleasedSlot(s1, Key(mine, n));
      CopiedSlot(s1, Key(mine, o), Key(mine, n));
      CopiedSlot(Close(s1, mine, n), Key(mine, o), Key(mine, n));
      assert Ensure(s1, mine) == s1;
      hide Ensure;
    }
  }

  lemma SettledStep(s: State, e: Event)
    requires Settled(s) && Enabled(s, e) && KeepsStandard(e)
    ensures Settled(Step(s, e))
  {
    var u := Step(s, e);
    forall t | t in u.threads ensures !Loses(u, t) {
      match e
      case ForkCall(parent, child) =>
        ForkedSlots(s, parent, child, t);
      case ExitCall(x) =>
        ExitedSlots(s, x, t);
      case _ =>
        CallSlots(s, e, t, 0);
        CallSlots(s, e, t, 1);
        CallSlots(s, e, t, 2);
        hide Step, Ensure;
    }
  }

  lemma ForkedSlots(s: State, parent: nat, child: nat, t: nat)
    requires parent in s.threads && child !in s.threads && Settled(s) && t in Fork(s, parent, child).threads
    ensures !Loses(Fork(s, parent, child), t)
  {
    var s1 := s.(threads := s.threads + {child});
    CopyAllSlots(s1, parent, child, MAX_FD, t, 0);
    CopyAllSlots(s1, parent, child, MAX_FD, t, 1);
    CopyAllSlots(s1, parent, child, MAX_FD, t, 2);
    hide CopyAll;
    assert !Loses(s, if t == child then parent else t);
  }

  lemma ExitedSlots(s: State, x: nat, t: nat)
    requires Settled(s) && t in Exit(s, x).threads
    ensures !Loses(Exit(s, x), t)
  {
    ReleaseAllSlots(s, x, MAX_FD, t, 0);
    ReleaseAllSlots(s, x, MAX_FD, t, 1);
    ReleaseAllSlots(s, x, MAX_FD, t, 2);
    hide ReleaseAll;
    assert !Loses(s, t);
  }

  /** If no call closes descriptors 0 to 2, so that they are only ever replaced
      by dup2, counters stay equal to the slots. */
  lemma {:induction false} SettledRun(s: State, es: seq<Event>)
    requires Inv(s) && CanRun(s, es) && Exact(s) && Settled(s)
    requires forall e :: e in es ==> KeepsStandard(e)
    ensures Exact(After(s, es))
  {
    SettledNeverLoses(s, es);
    ExactIff(s, es);
  }

  lemma {:induction false} SettledNeverLoses(s: State, es: seq<Event>)
    requires CanRun(s, es) && Settled(s)
    requires forall e :: e in es ==> KeepsStandard(e)
    ensures NeverLoses(s, es)
    decreases |es|
  {
    hide Step, Loses;
    if es != [] {
      assert es[0] in es;
      SettledStep(s, es[0]);
      forall e | e in es[1..] ensures KeepsStandard(e) {
        assert e in es;
      }
      SettledNeverLoses(Step(s, es[0]), es[1..]);
    }
  }

  /** Closing one standard slot while another holds a pipe end makes the next
      call lose that end. */
  lemma CloseStandardLoses(s: State, t: nat, i: nat, j: nat)
    requires Standard(s, t) && i < 3 && j < 3 && i != j && IsEnd(s, Key(t, j))
    ensures Loses(Close(s, t, i), t)
  {
    hide Release;
    ReleasedSlot(s, Key(t, i));
  }

  /** At boot: one thread, nothing open. */
  lemma BootInv(t: nat)
    ensures var s := State({t}, map[], map[], map[], map[], 0, 0); Inv(s) && Exact(s) && Settled(s)
  {
  }
}
