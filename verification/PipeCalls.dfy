/** What each descriptor call leaves in every slot, read off the tables before and
    after it. */
module PipeCalls {
  import opened Pipes
  import opened PipeRuns

  /** What descriptor fd of thread th holds once thread t has entered a descriptor
      call: with any of its slots 0 to 2 unused, t gets all three afresh. */
  function Entered(s: State, t: nat, th: nat, fd: nat): Slot {
    if th == t && fd < 3 && (At(s, t, 0) == Free || At(s, t, 1) == Free || At(s, t, 2) == Free) then
      if fd == 0 then Tty else Console
    else At(s, th, fd)
  }

  lemma EnteredIs(s: State, t: nat)
    ensures var u := Ensure(s, t);
      && u == s.(slots := u.slots)
      && forall th: nat, fd: nat :: At(u, th, fd) == Entered(s, t, th, fd)
  {
  }

  /** fd is the lowest unused descriptor of t, `but` not counted. */
  ghost predicate LowestFree(s: State, t: nat, fd: nat, but: int) {
    && fd < 32 && fd != but && Entered(s, t, t, fd) == Free
    && forall j: nat :: j < fd && j != but ==> Entered(s, t, t, j) != Free
  }

  lemma {:induction false} AllocIs(s: State, t: nat, i: nat)
    requires i <= MAX_FD
    ensures var fd := FdAlloc(s, t, i);
      && (fd < MAX_FD ==> At(s, t, fd) == Free)
      && (forall j: nat :: i <= j < fd ==> At(s, t, j) != Free)
    decreases MAX_FD - i
  {
    if i < MAX_FD {
      AllocIs(s, t, i + 1);
    }
  }

  /** Every slot but those of t listed holds what it held when the call began. */
  ghost predicate OthersKept(s: State, u: State, t: nat, a: int, b: int) {
    && u.threads == s.threads && u.fifos == s.fifos
    && forall th: nat, fd: nat :: th != t || (fd != a && fd != b) ==> At(u, th, fd) == Entered(s, t, th, fd)
  }

  /** r and w are the two lowest unused descriptors of t; r now holds the read end
      and w the write end of one new pipe that counts one of each. */
  ghost predicate PipeMade(s: State, u: State, t: nat, r: nat, w: nat) {
    && LowestFree(s, t, r, -1) && LowestFree(s, t, w, r) && OthersKept(s, u, t, r, w)
    && var a, b := At(u, t, r), At(u, t, w);
       && a.PipeEnd? && b.PipeEnd? && a.node.reader && !b.node.reader && a.node.pipe == b.node.pipe
       && a.node != b.node && a.node !in s.refs && b.node !in s.refs && a.node.pipe !in s.pipes
       && u.refs == s.refs[a.node := 1][b.node := 1]
       && u.pipes == s.pipes[a.node.pipe := Pipe(1, 1, false, false)]
  }

  /** No pipe was made: fewer than two descriptors were unused. */
  ghost predicate PipeRefused(s: State, u: State, t: nat) {
    && u.refs == s.refs && u.pipes == s.pipes && OthersKept(s, u, t, -1, -1)
    && !exists r: nat, w: nat :: LowestFree(s, t, r, -1) && LowestFree(s, t, w, r)
  }

  lemma TwoLowest(s: State, t: nat)
    ensures var s1 := Ensure(s, t);
      var r := FdAlloc(s1, t, 0);
      var w := FdAlloc(Put(s1, t, r, Reserved), t, 0);
      && (r < MAX_FD ==> LowestFree(s, t, r, -1) && At(s1, t, r) == Free)
      && (r < MAX_FD && w < MAX_FD ==> LowestFree(s, t, w, r) && r != w)
      && (r == MAX_FD || w == MAX_FD ==> !exists a: nat, b: nat :: LowestFree(s, t, a, -1) && LowestFree(s, t, b, a))
  {
    EnteredIs(s, t);
    var s1 := Ensure(s, t);
    var r := FdAlloc(s1, t, 0);
    var s2 := Put(s1, t, r, Reserved);
    AllocIs(s1, t, 0);
    AllocIs(s2, t, 0);
    hide Ensure, FdAlloc;
    assert forall j: nat :: At(s2, t, j) == if j == r then Reserved else At(s1, t, j);
    hide At, Put, Entered;
  }

  /** sys_pipe hands out r and w, or -1 for both. */
  ghost predicate PipeOutcome(s: State, u: State, t: nat, r: int, w: int) {
    if r >= 0 && w >= 0 then PipeMade(s, u, t, r, w) else r == w == -1 && PipeRefused(s, u, t)
  }

  /** The descriptors sys_pipe hands out. */
  function PipeFds(s: State, t: nat): (int, int) {
    var s1 := Ensure(s, t);
    var r := FdAlloc(s1, t, 0);
    var w := FdAlloc(Put(s1, t, r, Reserved), t, 0);
    if r == MAX_FD || w == MAX_FD then (-1, -1) else (r as int, w as int)
  }

  /** sys_pipe makes a pipe exactly when two descriptors are unused. */
  lemma MakePipeExact(s: State, t: nat)
    requires Inv(s)
    ensures PipeOutcome(s, MakePipe(s, t), t, PipeFds(s, t).0, PipeFds(s, t).1)
  {
    var (r, w) := PipeFds(s, t);
    TwoLowest(s, t);
    hide LowestFree, PipeMade, NewEnd, Entered;
    if r >= 0 {
      EnteredIs(s, t);
      BothMade(s, Ensure(s, t), MakePipe(s, t), t, r, w);
    } else {
      RefusedIs(s, t);
    }
  }

  lemma BothMade(s: State, s1: State, u: State, t: nat, r: nat, w: nat)
    requires Fresh(s) && s1 == s.(slots := s1.slots) && r != w && LowestFree(s, t, r, -1) && LowestFree(s, t, w, r)
    requires forall th: nat, fd: nat :: At(s1, th, fd) == Entered(s, t, th, fd)
    requires u == NewEnd(NewEnd(NewPipe(s1, false), Key(t, r), s1.nextPipe, true), Key(t, w), s1.nextPipe, false)
    ensures PipeMade(s, u, t, r, w)
  {
    hide NewEnd, NewPipe, LowestFree, Entered, At, Fresh, PipeMade;
    EndsPlaced(s1, t, r, w);
    EndsMade(s, s1, u, t, r, w);
  }

  lemma EndsMade(s: State, s1: State, u: State, t: nat, r: nat, w: nat)
    requires Fresh(s) && s1 == s.(slots := s1.slots) && r != w && LowestFree(s, t, r, -1) && LowestFree(s, t, w, r)
    requires forall th: nat, fd: nat :: At(s1, th, fd) == Entered(s, t, th, fd)
    requires var a, b := Node(s.nextNode, s.nextPipe, true), Node(s.nextNode + 1, s.nextPipe, false);
      && u.threads == s.threads && u.fifos == s.fifos
      && u.slots == s1.slots[Key(t, r) := Reserved][Key(t, r) := PipeEnd(a)][Key(t, w) := PipeEnd(b)]
      && u.refs == s.refs[a := 1][b := 1]
      && u.pipes == s.pipes[s.nextPipe := Pipe(1, 1, false, false)]
    ensures PipeMade(s, u, t, r, w)
  {
    hide LowestFree, Entered;
    var a, b := Node(s.nextNode, s.nextPipe, true), Node(s.nextNode + 1, s.nextPipe, false);
    EndsHeld(s1, u, t, r, w, PipeEnd(a), PipeEnd(b));
    hide At;
    assert OthersKept(s, u, t, r, w);
    assert a !in s.refs && b !in s.refs && s.nextPipe !in s.pipes;
  }

  /** sys_pipe in its three cases. */
  lemma PipeCases(s: State, t: nat)
    ensures var s1 := Ensure(s, t);
      var r := FdAlloc(s1, t, 0);
      if r == MAX_FD then MakePipe(s, t) == s1 && PipeFds(s, t) == (-1, -1) else
      var w := FdAlloc(Put(s1, t, r, Reserved), t, 0);
      if w == MAX_FD then MakePipe(s, t) == Put(s1, t, r, Free) && PipeFds(s, t) == (-1, -1)
      else MakePipe(s, t) == BothEnds(Put(s1, t, r, Reserved), Key(t, r), Key(t, w)) && PipeFds(s, t) == (r as int, w as int)
  {
    hide Ensure, FdAlloc, NewEnd, NewPipe, BothEnds;
    var s1 := Ensure(s, t);
    var r := FdAlloc(s1, t, 0);
    BothEndsReserved(s1, Key(t, r), Key(t, FdAlloc(Put(s1, t, r, Reserved), t, 0)));
  }

  lemma RefusedIs(s: State, t: nat)
    requires PipeFds(s, t).0 == -1
    ensures PipeRefused(s, MakePipe(s, t), t)
  {
    TwoLowest(s, t);
    EnteredIs(s, t);
    hide LowestFree, Entered, Ensure, FdAlloc, NewEnd, NewPipe;
  }

  lemma EndsPlaced(s: State, t: nat, r: nat, w: nat)
    requires r != w
    ensures var u := NewEnd(NewEnd(NewPipe(s, false), Key(t, r), s.nextPipe, true), Key(t, w), s.nextPipe, false);
      var a, b := Node(s.nextNode, s.nextPipe, true), Node(s.nextNode + 1, s.nextPipe, false);
      && u.threads == s.threads && u.fifos == s.fifos
      && u.slots == s.slots[Key(t, r) := Reserved][Key(t, r) := PipeEnd(a)][Key(t, w) := PipeEnd(b)]
      && u.refs == s.refs[a := 1][b := 1]
      && u.pipes == s.pipes[s.nextPipe := Pipe(1, 1, false, false)]
  {
    BothEndsReserved(s, Key(t, r), Key(t, w));
    hide NewEnd, NewPipe;
  }

  lemma EndsHeld(s: State, u: State, t: nat, r: nat, w: nat, a: Slot, b: Slot)
    requires r != w && u.slots == s.slots[Key(t, r) := Reserved][Key(t, r) := a][Key(t, w) := b]
    ensures At(u, t, r) == a && At(u, t, w) == b
    ensures forall th: nat, fd: nat :: th != t || (fd != r && fd != w) ==> At(u, th, fd) == At(s, th, fd)
  {
  }

  function BothEnds(s: State, rk: Key, wk: Key): State {
    var r, w := Node(s.nextNode, s.nextPipe, true), Node(s.nextNode + 1, s.nextPipe, false);
    s.(slots := s.slots[rk := PipeEnd(r)][wk := PipeEnd(w)],
       refs := s.refs[r := 1][w := 1],
       pipes := s.pipes[s.nextPipe := Pipe(1, 1, false, false)],
       nextNode := s.nextNode + 2,
       nextPipe := s.nextPipe + 1)
  }

  lemma BothEndsReserved(s: State, rk: Key, wk: Key)
    ensures BothEnds(Put(s, rk.thread, rk.fd, Reserved), rk, wk)
      == NewEnd(NewEnd(NewPipe(s, false), rk, s.nextPipe, true), wk, s.nextPipe, false)
  {
    var p, r := s.nextPipe, Node(s.nextNode, s.nextPipe, true);
    var none, one, both := Pipe(0, 0, false, false), Pipe(1, 0, false, false), Pipe(1, 1, false, false);
    var u1 := NewPipe(s, false);
    var u2 := NewEnd(u1, rk, p, true);
    assert u1.pipes == s.pipes[p := none] && u1.pipes[p] == none;
    Overwritten(s.pipes, p, none, one);
    assert u2.pipes == s.pipes[p := one] && u2.pipes[p] == one;
    Overwritten(s.pipes, p, one, both);
    Overwritten(s.slots, rk, Reserved, PipeEnd(r));
    assert u2 == State(s.threads, s.slots[rk := PipeEnd(r)], s.refs[r := 1], s.pipes[p := one], s.fifos,
                       s.nextNode + 1, p + 1);
    hide NewPipe;
  }

  lemma Overwritten<K, V>(m: map<K, V>, k: K, a: V, b: V)
    ensures m[k := a][k := b] == m[k := b]
  {
  }

  // ---- FIFOs ----

  /** fd is t's lowest unused descriptor and holds a new end of FIFO f's pipe, a
      write end if so opened and otherwise a read end; that end's count grew by one
      and no other count changed. */
  ghost predicate FifoOpened(s: State, u: State, t: nat, f: nat, write: bool, fd: nat) {
    && LowestFree(s, t, fd, -1) && OthersKept(s, u, t, fd, fd)
    && f in s.fifos && s.fifos[f] in s.pipes && At(u, t, fd).PipeEnd?
    && var n, p := At(u, t, fd).node, s.pipes[s.fifos[f]];
       && n.pipe == s.fifos[f] && n.reader == !write && n !in s.refs && u.refs == s.refs[n := 1]
       && u.pipes == s.pipes[n.pipe := if write then p.(nwriters := p.nwriters + 1) else p.(nreaders := p.nreaders + 1)]
  }

  /** Nothing was opened: there is no such FIFO or no unused descriptor. */
  ghost predicate FifoRefused(s: State, u: State, t: nat, f: nat) {
    && OthersKept(s, u, t, -1, -1) && u.refs == s.refs && u.pipes == s.pipes
    && (f !in s.fifos || forall j: nat :: j < 32 ==> Entered(s, t, t, j) != Free)
  }

  /** sys_open on a FIFO in its two cases. */
  lemma FifoCases(s: State, t: nat, f: nat, write: bool)
    requires Inv(s)
    ensures var s1 := Ensure(s, t);
      var fd := FdAlloc(s1, t, 0);
      if f !in s1.fifos || fd == MAX_FD then OpenFifo(s, t, f, write) == s1
      else s1.fifos[f] in s1.pipes && OpenFifo(s, t, f, write) == NewEnd(s1, Key(t, fd), s1.fifos[f], !write)
  {
    EnteredIs(s, t);
    hide Ensure, FdAlloc, NewEnd, At, SlotsAlive, CountsCover, Fresh;
  }

  /** Opening a FIFO succeeds exactly when it exists and a descriptor is unused. */
  lemma OpenFifoExact(s: State, t: nat, f: nat, write: bool)
    requires Inv(s)
    ensures var u, fd := OpenFifo(s, t, f, write), FdAlloc(Ensure(s, t), t, 0);
      if f in s.fifos && fd < MAX_FD then FifoOpened(s, u, t, f, write, fd) else FifoRefused(s, u, t, f)
  {
    hide Ensure, FdAlloc, Entered, OpenFifo, SlotsAlive, CountsCover;
    FifoCases(s, t, f, write);
    EnteredIs(s, t);
    AllocIs(Ensure(s, t), t, 0);
  }

  /** A new FIFO has a pipe of its own that nobody has open; an existing one is left
      as it is. */
  lemma MakeFifoExact(s: State, t: nat, f: nat)
    requires Inv(s)
    ensures var u := MakeFifo(s, t, f);
      && u.threads == s.threads && u.refs == s.refs && (forall th: nat, fd: nat :: At(u, th, fd) == Entered(s, t, th, fd))
      && f in u.fifos && (f in s.fifos ==> u.fifos == s.fifos && u.pipes == s.pipes)
      && (f !in s.fifos ==>
            var p := u.fifos[f];
            p !in s.pipes && u.fifos == s.fifos[f := p] && u.pipes == s.pipes[p := Pipe(0, 0, true, false)])
  {
    EnteredIs(s, t);
    hide Ensure, Entered;
  }

  /** Opening a file takes the lowest unused descriptor, if there is one. */
  lemma OpenFileExact(s: State, t: nat)
    ensures var u, fd := OpenFile(s, t), FdAlloc(Ensure(s, t), t, 0);
      && u.refs == s.refs && u.pipes == s.pipes
      && if fd < MAX_FD then LowestFree(s, t, fd, -1) && At(u, t, fd) == File && OthersKept(s, u, t, fd, fd)
         else OthersKept(s, u, t, -1, -1) && forall j: nat :: j < 32 ==> Entered(s, t, t, j) != Free
  {
    EnteredIs(s, t);
    AllocIs(Ensure(s, t), t, 0);
    hide Ensure, FdAlloc, Entered;
  }

  // ---- dup2, close, fork and exit ----

  /** Both descriptors hold what the old one held, and every other slot is as it was. */
  ghost predicate Duplicated(s: State, u: State, t: nat, o: nat, n: nat) {
    At(u, t, n) == At(u, t, o) == Entered(s, t, t, o) && OthersKept(s, u, t, n, n)
  }

  lemma Dup2Exact(s: State, t: nat, o: nat, n: nat)
    requires Inv(s) && o < 32 && n < 32 && Entered(s, t, t, o) != Free
    ensures Duplicated(s, Dup2(s, t, o, n), t, o, n)
  {
    EnteredIs(s, t);
    EnsureStandard(s, t);
    var s1 := Ensure(s, t);
    assert Ensure(s1, t) == s1;
    hide Ensure, Follows, Entered, Inv;
    if o != n {
      var s2 := if At(s1, t, n) != Free then Release(s1, Key(t, n)) else s1;
      assert Dup2(s, t, o, n) == Copy(s2, Key(t, o), Key(t, n));
      ReleaseTables(s1, Key(t, n));
      CopiedSlot(s2, Key(t, o), Key(t, n));
      assert s2.slots == s1.slots || s2.slots == s1.slots[Key(t, n) := Free];
      hide Dup2, Release, Copy;
    }
  }

  lemma ReleaseTables(s: State, k: Key)
    ensures Release(s, k).slots == s.slots[k := Free] && Release(s, k).threads == s.threads && Release(s, k).fifos == s.fifos
  {
  }

  lemma DupFor(s: State, t: nat, o: int, n: int)
    requires Inv(s)
    ensures 0 <= o < 32 && 0 <= n < 32 && At(Ensure(s, t), t, o) != Free ==> Duplicated(s, Dup2(s, t, o, n), t, o, n)
  {
    EnteredIs(s, t);
    hide Duplicated, Dup2, Ensure, Entered;
    if 0 <= o < 32 && 0 <= n < 32 && At(Ensure(s, t), t, o) != Free {
      Dup2Exact(s, t, o, n);
    }
  }

  /** A close empties its slot and no other; with no such descriptor it fails. */
  lemma CloseExact(s: State, t: nat, fd: int)
    ensures var u := Close(s, t, fd);
      OthersKept(s, u, t, fd, fd) && (0 <= fd < 32 ==> At(u, t, fd) == Free)
  {
    EnteredIs(s, t);
    var s1 := Ensure(s, t);
    if 0 <= fd < 32 {
      ReleaseTables(s1, Key(t, fd));
    }
    hide Ensure, Release, Entered;
  }

  /** A forked child holds its parent's slots, an exited thread none; the slots of
      every other thread are as they were. */
  lemma ForkExact(s: State, parent: nat, child: nat, t: nat, fd: nat)
    requires parent != child && fd < 32
    ensures At(Fork(s, parent, child), t, fd) == At(s, if t == child then parent else t, fd)
    ensures At(Exit(s, parent), t, fd) == if t == parent then Free else At(s, t, fd)
  {
    CopyAllSlots(s.(threads := s.threads + {child}), parent, child, MAX_FD, t, fd);
    ReleaseAllSlots(s, parent, MAX_FD, t, fd);
    hide CopyAll, ReleaseAll;
  }
}
