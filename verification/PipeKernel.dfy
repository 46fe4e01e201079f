/** The kernel's descriptor code, updating the tables in place. */
module PipeKernel {
  import opened Pipes
  import opened PipeRuns
  import opened PipeCalls

  class Tables {
    var threads: set<nat>
    var slots: map<Key, Slot>
    var refs: map<Node, nat>
    var pipes: map<nat, Pipe>
    var fifos: map<nat, nat>
    var nextNode: nat
    var nextPipe: nat

    function Value(): State
      reads this
    {
      State(threads, slots, refs, pipes, fifos, nextNode, nextPipe)
    }

    method EnsureProc(t: nat)
      modifies this`slots
      ensures Value() == Ensure(old(Value()), t)
    {
      var s := Value();
      if At(s, t, 0) != Free && At(s, t, 1) != Free && At(s, t, 2) != Free {
        return;
      }
      slots := slots[Key(t, 0) := Tty];
      slots := slots[Key(t, 1) := Console];
      slots := slots[Key(t, 2) := Console];
    }

    method Allocate(t: nat) returns (fd: int)
      ensures fd == if FdAlloc(Value(), t, 0) == MAX_FD then -1 else FdAlloc(Value(), t, 0)
    {
      var i := 0;
      while i < MAX_FD
        invariant 0 <= i <= MAX_FD
        invariant FdAlloc(Value(), t, 0) == FdAlloc(Value(), t, i)
      {
        if At(Value(), t, i) == Free {
          return i;
        }
        i := i + 1;
      }
      return -1;
    }

    /** Drop a vnode reference, freeing the vnode with its last one. */
    method DropNode(n: Node)
      requires n in refs
      modifies this`refs
      ensures refs == if old(refs)[n] <= 1 then old(refs) - {n} else old(refs)[n := old(refs)[n] - 1]
    {
      if refs[n] > 0 {
        refs := refs[n := refs[n] - 1];
      }
      if refs[n] == 0 {
        refs := refs - {n};
      }
    }

    /** Drop the count of one end of a pipe, freeing the pipe if it is unused. */
    method DropPipe(n: Node)
      requires n.pipe in pipes
      modifies this`pipes
      ensures var p := old(pipes)[n.pipe].Add(n.reader, -1);
        pipes == if p.Unused() then old(pipes) - {n.pipe} else old(pipes)[n.pipe := p]
    {
      var p := pipes[n.pipe];
      if n.reader {
        p := p.(nreaders := p.nreaders - 1);
      } else {
        p := p.(nwriters := p.nwriters - 1);
      }
      pipes := pipes[n.pipe := p];
      if p.shared {
        if p.dead && p.nreaders == 0 && p.nwriters == 0 {
          pipes := pipes - {n.pipe};
        }
      } else if p.nreaders == 0 && p.nwriters == 0 {
        pipes := pipes - {n.pipe};
      }
    }

    /** Close one used slot: drop the counts of a pipe end, then free its vnode
        and its pipe if nothing else holds them. */
    method CloseSlot(k: Key)
      requires IsEnd(Value(), k) ==> Alive(Value(), k)
      modifies this`slots, this`refs, this`pipes
      ensures Value() == Release(old(Value()), k)
    {
      if k in slots && slots[k].PipeEnd? {
        var n := slots[k].node;
        DropNode(n);
        DropPipe(n);
      }
      slots := slots[k := Free];
    }

    method CloseFd(t: nat, fd: int) returns (ok: bool)
      requires Inv(Value())
      modifies this`slots, this`refs, this`pipes
      ensures Value() == Close(old(Value()), t, fd)
      ensures ok <==> 0 <= fd < MAX_FD && At(Ensure(old(Value()), t), t, fd) != Free
    {
      EnsureInv(Value(), t);
      hide Ensure, Follows;
      EnsureProc(t);
      if fd < 0 || fd >= MAX_FD || At(Value(), t, fd) == Free {
        return false;
      }
      CloseSlot(Key(t, fd));
      return true;
    }

    /** Take a reference for a slot that was copied from another one. */
    method CopySlot(from: Key, to: Key)
      requires IsEnd(Value(), from) ==> Alive(Value(), from)
      modifies this`slots, this`refs, this`pipes
      ensures Value() == Copy(old(Value()), from, to)
    {
      var v := At(Value(), from.thread, from.fd);
      slots := slots[to := v];
      if v.PipeEnd? {
        var n := v.node;
        var p := pipes[n.pipe];
        if n.reader {
          p := p.(nreaders := p.nreaders + 1);
        } else {
          p := p.(nwriters := p.nwriters + 1);
        }
        pipes := pipes[n.pipe := p];
        refs := refs[n := refs[n] + 1];
      }
    }

    method Dup2Fd(t: nat, oldfd: int, newfd: int) returns (r: int)
      requires Inv(Value()) && t in threads
      modifies this`slots, this`refs, this`pipes
      ensures Value() == Dup2(old(Value()), t, oldfd, newfd)
      ensures var s := Ensure(old(Value()), t);
        r == if 0 <= oldfd < MAX_FD && At(s, t, oldfd) != Free && 0 <= newfd < MAX_FD then newfd else -1
      ensures r >= 0 ==> Duplicated(old(Value()), Value(), t, oldfd, newfd)
    {
      DupFor(Value(), t, oldfd, newfd);
      hide Duplicated, Dup2;
      EnsureInv(Value(), t);
      EnsureStandard(Value(), t);
      hide Follows, Release, Copy;
      EnsureProc(t);
      hide Ensure;
      if oldfd < 0 || oldfd >= MAX_FD || At(Value(), t, oldfd) == Free {
        return -1;
      }
      if newfd < 0 || newfd >= MAX_FD {
        return -1;
      }
      if oldfd == newfd {
        return newfd;
      }
      if At(Value(), t, newfd) != Free {
        CloseInv(Value(), t, newfd);
        var ok := CloseFd(t, newfd);
      }
      CopySlot(Key(t, oldfd), Key(t, newfd));
      return newfd;
    }

    /** A new pipe with one end in each of two free slots. */
    method MakePipeFds(t: nat) returns (rfd: int, wfd: int)
      modifies this
      ensures Value() == MakePipe(old(Value()), t) && (rfd, wfd) == PipeFds(old(Value()), t)
      ensures Inv(old(Value())) ==> PipeOutcome(old(Value()), Value(), t, rfd, wfd)
    {
      hide PipeOutcome, Inv, FdAlloc, MakePipe, PipeFds, BothEnds, Ensure;
      if Inv(Value()) {
        MakePipeExact(Value(), t);
      }
      PipeCases(Value(), t);
      EnsureProc(t);
      rfd := Allocate(t);
      if rfd < 0 {
        return -1, -1;
      }
      slots := slots[Key(t, rfd) := Reserved];
      wfd := Allocate(t);
      if wfd < 0 {
        slots := slots[Key(t, rfd) := Free];
        return -1, -1;
      }
      InstallEnds(Key(t, rfd), Key(t, wfd));
    }

    /** Put the two ends of a new pipe, each counted once, into two slots. */
    method InstallEnds(rk: Key, wk: Key)
      modifies this
      ensures Value() == BothEnds(old(Value()), rk, wk)
    {
      var r, w := Node(nextNode, nextPipe, true), Node(nextNode + 1, nextPipe, false);
      pipes := pipes[nextPipe := Pipe(1, 1, false, false)];
      refs := refs[r := 1][w := 1];
      slots := slots[rk := PipeEnd(r)];
      slots := slots[wk := PipeEnd(w)];
      nextPipe := nextPipe + 1;
      nextNode := nextNode + 2;
    }

    /** Open one end of a FIFO's pipe. */
    method OpenFifoEnd(t: nat, f: nat, write: bool) returns (fd: int)
      requires Inv(Value())
      modifies this
      ensures Value() == OpenFifo(old(Value()), t, f, write)
      ensures var s := Ensure(old(Value()), t);
        fd == if f !in s.fifos || FdAlloc(s, t, 0) == MAX_FD then -1 else FdAlloc(s, t, 0)
      ensures if fd >= 0 then FifoOpened(old(Value()), Value(), t, f, write, fd)
        else FifoRefused(old(Value()), Value(), t, f)
    {
      hide FifoOpened, FifoRefused, OpenFifo, Inv, FdAlloc, Ensure;
      OpenFifoExact(Value(), t, f, write);
      EnteredIs(Value(), t);
      FifoCases(Value(), t, f, write);
      EnsureProc(t);
      if f !in fifos {
        return -1;
      }
      var p := fifos[f];
      var end := Node(nextNode, p, !write);
      fd := Allocate(t);
      if fd < 0 {
        return -1;
      }
      var x := pipes[p];
      if write {
        x := x.(nwriters := x.nwriters + 1);
      } else {
        x := x.(nreaders := x.nreaders + 1);
      }
      assert x == pipes[p].Add(!write, 1);
      pipes := pipes[p := x];
      refs := refs[end := 1];
      nextNode := nextNode + 1;
      slots := slots[Key(t, fd) := PipeEnd(end)];
    }

    /** Remove a FIFO: its pipe goes at once if nobody has it open. */
    method UnlinkFifo(t: nat, f: nat) returns (ok: bool)
      requires Inv(Value())
      modifies this
      ensures Value() == Unlink(old(Value()), t, f)
      ensures ok == (f in old(fifos))
    {
      hide Inv, Follows;
      EnsureInv(Value(), t);
      assert Ensure(Value(), t).fifos == fifos;
      EnsureProc(t);
      hide Ensure;
      if f !in fifos {
        return false;
      }
      FifoAlive(Value(), f);
      var q := fifos[f];
      if pipes[q].nreaders == 0 && pipes[q].nwriters == 0 {
        pipes := pipes - {q};
      } else {
        pipes := pipes[q := pipes[q].(dead := true)];
      }
      fifos := fifos - {f};
      return true;
    }

    /** thread_inherit_vfs. */
    method Inherit(parent: nat, child: nat)
      requires Inv(Value()) && parent in threads && child !in threads
      modifies this
      ensures Value() == Fork(old(Value()), parent, child)
    {
      hide Inv, IsEnd, Alive, Copy, Follows, CopyAll;
      ghost var s := Value().(threads := threads + {child});
      ForkStart(Value(), child);
      threads := threads + {child};
      NoneCopied(s, parent, child);
      var i := 0;
      while i < MAX_FD
        invariant 0 <= i <= MAX_FD
        invariant Value() == CopyAll(s, parent, child, i)
      {
        CopyAllInv(s, parent, child, i);
        CopyStep(s, parent, child, i);
        InvAlive(Value(), Key(parent, i));
        CopySlot(Key(parent, i), Key(child, i));
        i := i + 1;
      }
    }

    /** thread_close_fds, on exit. */
    method CloseAll(t: nat)
      requires Inv(Value())
      modifies this
      ensures Value() == Exit(old(Value()), t)
    {
      hide Inv, Release, Follows, ReleaseAll, IsEnd, Alive;
      var i := 0;
      ghost var s := Value();
      NoneReleased(s, t);
      while i < MAX_FD
        invariant 0 <= i <= MAX_FD
        invariant Value() == ReleaseAll(s, t, i)
      {
        ReleaseAllInv(s, t, i);
        ReleaseStep(s, t, i);
        InvAlive(Value(), Key(t, i));
        CloseSlot(Key(t, i));
        i := i + 1;
      }
      threads := threads - {t};
    }
  }

  lemma FifoAlive(s: State, f: nat)
    requires Inv(s) && f in s.fifos
    ensures s.fifos[f] in s.pipes
  {
  }

  lemma NoneCopied(s: State, parent: nat, child: nat)
    ensures CopyAll(s, parent, child, 0) == s
  {
  }

  lemma NoneReleased(s: State, t: nat)
    ensures ReleaseAll(s, t, 0) == s
  {
  }

  lemma ReleaseStep(s: State, t: nat, i: nat)
    ensures ReleaseAll(s, t, i + 1) == Release(ReleaseAll(s, t, i), Key(t, i))
  {
  }

  lemma CopyStep(s: State, parent: nat, child: nat, i: nat)
    ensures CopyAll(s, parent, child, i + 1) == Copy(CopyAll(s, parent, child, i), Key(parent, i), Key(child, i))
  {
  }

  lemma InvAlive(s: State, k: Key)
    requires Inv(s)
    ensures IsEnd(s, k) ==> Alive(s, k)
  {
  }

  lemma ForkStart(s: State, child: nat)
    requires Inv(s) && child !in s.threads
    ensures var u := s.(threads := s.threads + {child});
      Inv(u) && child in u.threads && forall j: nat :: !IsEnd(u, Key(child, j))
  {
    forall j: nat ensures !IsEnd(s.(threads := s.threads + {child}), Key(child, j)) {
      assert !IsEnd(s, Key(child, j));
    }
    ThreadsInv(s, s.threads + {child});
  }
}
