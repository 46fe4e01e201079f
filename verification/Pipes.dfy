/**
 * Descriptor slots and pipe lifetime: every slot of a pipe end holds one count
 * in the end's vnode and one in the pipe, and the pipe is freed by the last
 * close. FIFOs keep their pipe until they are unlinked.
 */
module Pipes {

  const MAX_FD := 32

  /** A pipe end's vnode: its type and its pipe never change once created. */
  datatype Node = Node(id: nat, pipe: nat, reader: bool)

  datatype Slot = Free | Reserved | Tty | Console | File | PipeEnd(node: Node)

  datatype Pipe = Pipe(nreaders: int, nwriters: int, shared: bool, dead: bool) {
    function Count(reader: bool): int {
      if reader then nreaders else nwriters
    }

    function Add(reader: bool, d: int): Pipe {
      if reader then this.(nreaders := nreaders + d) else this.(nwriters := nwriters + d)
    }

    /** The test made after every close of an end. */
    predicate Unused() {
      (shared ==> dead) && nreaders == 0 && nwriters == 0
    }
  }

  /** A descriptor slot: thread and descriptor number. */
  datatype Key = Key(thread: nat, fd: nat)

  datatype State = State(
    threads: set<nat>,
    slots: map<Key, Slot>,
    refs: map<Node, nat>,       // live end vnodes and their reference counts
    pipes: map<nat, Pipe>,      // live pipes
    fifos: map<nat, nat>,       // FIFO inodes and their pipes
    nextNode: nat,
    nextPipe: nat)

  function At(s: State, t: nat, fd: nat): Slot {
    if Key(t, fd) in s.slots then s.slots[Key(t, fd)] else Free
  }

  predicate IsEnd(s: State, k: Key) {
    k in s.slots && s.slots[k].PipeEnd?
  }

  // ---- Operations ----

  /** vfs_ensure_proc: any unused standard slot resets all three. */
  predicate Standard(s: State, t: nat) {
    At(s, t, 0) != Free && At(s, t, 1) != Free && At(s, t, 2) != Free
  }

  function Ensure(s: State, t: nat): State {
    if Standard(s, t) then s
    else s.(slots := s.slots[Key(t, 0) := Tty][Key(t, 1) := Console][Key(t, 2) := Console])
  }

  /** The lowest unused slot from i upwards, MAX_FD if there is none. */
  function FdAlloc(s: State, t: nat, i: nat): (fd: nat)
    ensures fd <= MAX_FD && (fd < MAX_FD ==> i <= fd && At(s, t, fd) == Free)
    decreases MAX_FD - i
  {
    if i >= MAX_FD then MAX_FD
    else if At(s, t, i) == Free then i
    else FdAlloc(s, t, i + 1)
  }

  function Put(s: State, t: nat, fd: nat, v: Slot): State {
    s.(slots := s.slots[Key(t, fd) := v])
  }

  /** Give up a slot holding a pipe end. */
  function Drop(s: State, k: Key): State
    requires IsEnd(s, k) && s.slots[k].node in s.refs && s.slots[k].node.pipe in s.pipes
  {
    var n := s.slots[k].node;
    var p := s.pipes[n.pipe].Add(n.reader, -1);
    var r: nat := if s.refs[n] > 0 then s.refs[n] - 1 else 0;
    s.(slots := s.slots[k := Free],
       refs := if r == 0 then s.refs - {n} else s.refs[n := r],
       pipes := if p.Unused() then s.pipes - {n.pipe} else s.pipes[n.pipe := p])
  }

  /** Make a slot refer to a pipe end that another slot refers to. */
  function Share(s: State, k: Key, n: Node): State
    requires n in s.refs && n.pipe in s.pipes
  {
    s.(slots := s.slots[k := PipeEnd(n)],
       refs := s.refs[n := s.refs[n] + 1],
       pipes := s.pipes[n.pipe := s.pipes[n.pipe].Add(n.reader, 1)])
  }

  /** Open a new end of a live pipe in a slot. */
  function NewEnd(s: State, k: Key, p: nat, reader: bool): (u: State)
    requires p in s.pipes
    ensures p in u.pipes
  {
    var n := Node(s.nextNode, p, reader);
    s.(slots := s.slots[k := PipeEnd(n)],
       refs := s.refs[n := 1],
       pipes := s.pipes[p := s.pipes[p].Add(reader, 1)],
       nextNode := s.nextNode + 1)
  }

  function NewPipe(s: State, shared: bool): State {
    s.(pipes := s.pipes[s.nextPipe := Pipe(0, 0, shared, false)], nextPipe := s.nextPipe + 1)
  }

  predicate Alive(s: State, k: Key) {
    IsEnd(s, k) && s.slots[k].node in s.refs && s.slots[k].node.pipe in s.pipes
  }

  /** One slot of sys_close and of the loop that closes an exiting thread's slots. */
  function Release(s: State, k: Key): State {
    if Alive(s, k) then Drop(s, k) else s.(slots := s.slots[k := Free])
  }

  /** One slot of dup2 and of the loop that copies a parent's slots. */
  function Copy(s: State, from: Key, to: Key): State {
    if Alive(s, from) then Share(s, to, s.slots[from].node)
    else s.(slots := s.slots[to := At(s, from.thread, from.fd)])
  }

  function CopyAll(s: State, parent: nat, child: nat, i: nat): State {
    if i == 0 then s else Copy(CopyAll(s, parent, child, i - 1), Key(parent, i - 1), Key(child, i - 1))
  }

  function ReleaseAll(s: State, t: nat, i: nat): State {
    if i == 0 then s else Release(ReleaseAll(s, t, i - 1), Key(t, i - 1))
  }

  function MakePipe(s: State, t: nat): State {
    var s1 := Ensure(s, t);
    var rfd := FdAlloc(s1, t, 0);
    if rfd == MAX_FD then s1 else
    var wfd := FdAlloc(Put(s1, t, rfd, Reserved), t, 0);
    if wfd == MAX_FD then Put(s1, t, rfd, Free) else
    var s2 := NewPipe(s1, false);
    NewEnd(NewEnd(s2, Key(t, rfd), s1.nextPipe, true), Key(t, wfd), s1.nextPipe, false)
  }

  function MakeFifo(s: State, t: nat, f: nat): State {
    var s1 := Ensure(s, t);
    if f in s1.fifos then s1 else NewPipe(s1, true).(fifos := s1.fifos[f := s1.nextPipe])
  }

  function OpenFifo(s: State, t: nat, f: nat, write: bool): State {
    var s1 := Ensure(s, t);
    var fd := FdAlloc(s1, t, 0);
    if f !in s1.fifos || s1.fifos[f] !in s1.pipes || fd == MAX_FD then s1
    else NewEnd(s1, Key(t, fd), s1.fifos[f], !write)
  }

  function OpenFile(s: State, t: nat): State {
    var s1 := Ensure(s, t);
    var fd := FdAlloc(s1, t, 0);
    if fd == MAX_FD then s1 else Put(s1, t, fd, File)
  }

  /** A FIFO loses its inode, and its pipe with it unless an end is open. */
  function Detach(s: State, f: nat): State
    requires f in s.fifos && s.fifos[f] in s.pipes
  {
    var p := s.pipes[s.fifos[f]];
    s.(fifos := s.fifos - {f},
       pipes := if p.nreaders == 0 && p.nwriters == 0 then s.pipes - {s.fifos[f]}
                else s.pipes[s.fifos[f] := p.(dead := true)])
  }

  function Unlink(s: State, t: nat, f: nat): State {
    var s1 := Ensure(s, t);
    if f !in s1.fifos || s1.fifos[f] !in s1.pipes then s1 else Detach(s1, f)
  }

  function Close(s: State, t: nat, fd: int): State {
    var s1 := Ensure(s, t);
    if fd < 0 || fd >= MAX_FD || At(s1, t, fd) == Free then s1 else Release(s1, Key(t, fd))
  }

  function Dup2(s: State, t: nat, o: int, n: int): State {
    var s1 := Ensure(s, t);
    if o < 0 || o >= MAX_FD || At(s1, t, o) == Free || n < 0 || n >= MAX_FD || o == n then s1 else
    var s2 := if At(s1, t, n) != Free then Close(s1, t, n) else s1;
    Copy(s2, Key(t, o), Key(t, n))
  }

  function Fork(s: State, parent: nat, child: nat): State {
    CopyAll(s.(threads := s.threads + {child}), parent, child, MAX_FD)
  }

  function Exit(s: State, t: nat): State {
    var s1 := ReleaseAll(s, t, MAX_FD);
    s1.(threads := s1.threads - {t})
  }

  // ---- Counting slots ----

  ghost function RefSet(slots: map<Key, Slot>, n: Node): set<Key> {
    set k | k in slots && slots[k] == PipeEnd(n)
  }

  predicate EndOf(v: Slot, p: nat, reader: bool) {
    v.PipeEnd? && v.node.pipe == p && v.node.reader == reader
  }

  ghost function EndSet(slots: map<Key, Slot>, p: nat, reader: bool): set<Key> {
    set k | k in slots && EndOf(slots[k], p, reader)
  }

  /** References held by a vnode beyond those of the slots that name it. */
  ghost function NodeExcess(s: State, n: Node): int
    requires n in s.refs
  {
    s.refs[n] - |RefSet(s.slots, n)|
  }

  ghost function PipeExcess(s: State, p: nat, reader: bool): int
    requires p in s.pipes
  {
    s.pipes[p].Count(reader) - |EndSet(s.slots, p, reader)|
  }

  // ---- Invariant ----

  ghost predicate SlotsAlive(s: State) {
    forall k :: IsEnd(s, k) ==>
      && k.thread in s.threads && k.fd < MAX_FD
      && s.slots[k].node in s.refs
      && s.slots[k].node.pipe in s.pipes
  }

  ghost predicate CountsCover(s: State) {
    && (forall n :: n in s.refs ==> NodeExcess(s, n) >= 0)
    && (forall p, r :: p in s.pipes ==> PipeExcess(s, p, r) >= 0)
  }

  /** A pipe is in use or belongs to exactly one FIFO. */
  ghost predicate PipesOwned(pipes: map<nat, Pipe>, fifos: map<nat, nat>) {
    && (forall f :: f in fifos ==> fifos[f] in pipes && pipes[fifos[f]].shared && !pipes[fifos[f]].dead)
    && (forall f, g :: f in fifos && g in fifos && fifos[f] == fifos[g] ==> f == g)
    && (forall p :: p in pipes ==> !pipes[p].Unused())
    && (forall p :: p in pipes && pipes[p].shared && !pipes[p].dead ==> exists f :: f in fifos && fifos[f] == p)
  }

  /** Nothing unreferenced is kept. */
  ghost predicate Owned(s: State) {
    && (forall n :: n in s.refs ==> s.refs[n] >= 1)
    && PipesOwned(s.pipes, s.fifos)
  }

  ghost predicate Fresh(s: State) {
    && (forall n :: n in s.refs ==> n.id < s.nextNode && n.pipe < s.nextPipe)
    && (forall p :: p in s.pipes ==> p < s.nextPipe)
  }

  ghost predicate Inv(s: State) {
    SlotsAlive(s) && CountsCover(s) && Owned(s) && Fresh(s)
  }

  // ---- One slot changes ----

  function One(b: bool): nat { if b then 1 else 0 }

  lemma SplitOff(a: set<Key>, k: Key)
    ensures |a| == |a - {k}| + One(k in a)
  {
    if k in a {
      assert a == (a - {k}) + {k};
    } else {
      assert a == a - {k};
    }
  }

  /** Two sets that agree but for one key. */
  lemma OneApart(a: set<Key>, b: set<Key>, k: Key)
    requires forall j :: j != k ==> (j in a <==> j in b)
    ensures |b| == |a| - One(k in a) + One(k in b)
  {
    assert b - {k} == a - {k};
    SplitOff(a, k);
    SplitOff(b, k);
  }

  lemma PutRefs(slots: map<Key, Slot>, k: Key, v: Slot, n: Node)
    ensures |RefSet(slots[k := v], n)| ==
      |RefSet(slots, n)| - One(k in slots && slots[k] == PipeEnd(n)) + One(v == PipeEnd(n))
  {
    OneApart(RefSet(slots, n), RefSet(slots[k := v], n), k);
  }

  lemma PutEnds(slots: map<Key, Slot>, k: Key, v: Slot, p: nat, r: bool)
    ensures |EndSet(slots[k := v], p, r)| ==
      |EndSet(slots, p, r)| - One(k in slots && EndOf(slots[k], p, r)) + One(EndOf(v, p, r))
  {
    hide EndOf;
    OneApart(EndSet(slots, p, r), EndSet(slots[k := v], p, r), k);
  }

  // ---- What an operation does to the excess ----

  /** From s to u no excess is lost: a vnode or pipe with excess survives, and
      what is new starts without. When tight, no excess is gained either. */
  ghost predicate NodesFollow(s: State, u: State, tight: bool) {
    && s.nextNode <= u.nextNode
    && (forall n :: n in u.refs && n in s.refs ==>
          NodeExcess(u, n) >= NodeExcess(s, n) && (tight ==> NodeExcess(u, n) == NodeExcess(s, n)))
    && (forall n :: n in u.refs && n !in s.refs ==>
          NodeExcess(u, n) >= 0 && (tight ==> NodeExcess(u, n) == 0))
    && (forall n :: n in u.refs && n !in s.refs ==> s.nextNode <= n.id)
    && (forall n :: n in s.refs && n !in u.refs ==> NodeExcess(s, n) == 0)
  }

  ghost predicate PipesFollow(s: State, u: State, tight: bool) {
    && s.nextPipe <= u.nextPipe
    && (forall p, r :: p in u.pipes && p in s.pipes ==>
          PipeExcess(u, p, r) >= PipeExcess(s, p, r) && (tight ==> PipeExcess(u, p, r) == PipeExcess(s, p, r)))
    && (forall p, r :: p in u.pipes && p !in s.pipes ==>
          PipeExcess(u, p, r) >= 0 && (tight ==> PipeExcess(u, p, r) == 0))
    && (forall p :: p in u.pipes && p !in s.pipes ==> s.nextPipe <= p)
    && (forall p, r :: p in s.pipes && p !in u.pipes ==> PipeExcess(s, p, r) == 0)
  }

  ghost predicate Follows(s: State, u: State, tight: bool) {
    NodesFollow(s, u, tight) && PipesFollow(s, u, tight)
  }

  lemma FollowsTrans(s: State, u: State, v: State, tight: bool)
    requires Fresh(s) && CountsCover(s) && Follows(s, u, tight) && Follows(u, v, tight)
    ensures Follows(s, v, tight)
  {
  }

  lemma CoverKept(s: State, u: State)
    requires CountsCover(s) && Follows(s, u, false)
    ensures CountsCover(u)
  {
    hide NodeExcess, PipeExcess;
  }

  lemma Loosen(s: State, u: State)
    requires Follows(s, u, true)
    ensures Follows(s, u, false)
  {
  }

  lemma DropNodes(s: State, k: Key)
    requires Inv(s) && IsEnd(s, k)
    ensures NodesFollow(s, Drop(s, k), true)
  {
    var u := Drop(s, k);
    forall n: Node ensures |RefSet(u.slots, n)| == |RefSet(s.slots, n)| - One(s.slots[k] == PipeEnd(n)) {
      PutRefs(s.slots, k, Free, n);
    }
    hide RefSet;
  }

  lemma DropPipes(s: State, k: Key)
    requires Inv(s) && IsEnd(s, k)
    ensures PipesFollow(s, Drop(s, k), true)
  {
    var u := Drop(s, k);
    var n := s.slots[k].node;
    forall p: nat, r: bool
      ensures |EndSet(u.slots, p, r)| == |EndSet(s.slots, p, r)| - One(n.pipe == p && n.reader == r)
    {
      PutEnds(s.slots, k, Free, p, r);
    }
    assert PipeExcess(s, n.pipe, true) >= 0 && PipeExcess(s, n.pipe, false) >= 0;
    assert |EndSet(u.slots, n.pipe, true)| >= 0 && |EndSet(u.slots, n.pipe, false)| >= 0;
    hide EndSet;
  }

  /** A vnode or pipe that a slot names is counted, so the drop of another slot
      leaves it alive. */
  lemma DropAlive(s: State, k: Key)
    requires Inv(s) && IsEnd(s, k)
    ensures SlotsAlive(Drop(s, k))
  {
    var u := Drop(s, k);
    forall j | IsEnd(u, j) ensures u.slots[j].node in u.refs && u.slots[j].node.pipe in u.pipes {
      assert IsEnd(s, j) && j != k;
      var n := u.slots[j].node;
      DropKeepsNamed(s, k, j);
    }
  }

  lemma DropKeepsNamed(s: State, k: Key, j: Key)
    requires Inv(s) && IsEnd(s, k) && IsEnd(s, j) && j != k
    ensures s.slots[j].node in Drop(s, k).refs && s.slots[j].node.pipe in Drop(s, k).pipes
  {
    var n, m := s.slots[k].node, s.slots[j].node;
    if n == m {
      assert {j, k} <= RefSet(s.slots, n);
      AtLeastTwo(RefSet(s.slots, n), j, k);
      assert NodeExcess(s, n) >= 0;
    }
    if n.pipe == m.pipe {
      assert PipeExcess(s, n.pipe, n.reader) >= 0 && PipeExcess(s, n.pipe, m.reader) >= 0;
      assert k in EndSet(s.slots, n.pipe, n.reader) && j in EndSet(s.slots, n.pipe, m.reader);
      if n.reader == m.reader {
        AtLeastTwo(EndSet(s.slots, n.pipe, n.reader), j, k);
      } else {
        SplitOff(EndSet(s.slots, n.pipe, m.reader), j);
      }
    }
  }

  lemma AtLeastTwo(a: set<Key>, j: Key, k: Key)
    requires j in a && k in a && j != k
    ensures |a| >= 2
  {
    SplitOff(a, j);
    SplitOff(a - {j}, k);
  }

  lemma DropOwned(s: State, k: Key)
    requires Inv(s) && IsEnd(s, k)
    ensures Owned(Drop(s, k)) && Fresh(Drop(s, k))
  {
  }

  lemma DropInv(s: State, k: Key)
    requires Inv(s) && IsEnd(s, k)
    ensures Inv(Drop(s, k)) && Follows(s, Drop(s, k), true)
  {
    DropNodes(s, k);
    DropPipes(s, k);
    DropAlive(s, k);
    DropOwned(s, k);
    hide Drop;
    Loosen(s, Drop(s, k));
    CoverKept(s, Drop(s, k));
  }

  lemma ShareInv(s: State, k: Key, n: Node)
    requires Inv(s) && !IsEnd(s, k) && k.thread in s.threads && k.fd < MAX_FD
    requires n in s.refs && n.pipe in s.pipes
    ensures Inv(Share(s, k, n)) && Follows(s, Share(s, k, n), true)
  {
    var u := Share(s, k, n);
    ShareNodes(s, k, n);
    SharePipes(s, k, n);
    forall j | IsEnd(u, j)
      ensures j.thread in u.threads && j.fd < MAX_FD && u.slots[j].node in u.refs && u.slots[j].node.pipe in u.pipes
    {
      assert j != k ==> IsEnd(s, j);
    }
    Loosen(s, u);
    CoverKept(s, u);
    ShareOwned(s, k, n);
    hide CountsCover, Owned;
  }

  /** A pipe whose counts change stays owned as long as it stays in use. */
  lemma RecountOwned(pipes: map<nat, Pipe>, fifos: map<nat, nat>, p: nat, x: Pipe)
    requires PipesOwned(pipes, fifos) && p in pipes && !x.Unused()
    requires x.shared == pipes[p].shared && x.dead == pipes[p].dead
    ensures PipesOwned(pipes[p := x], fifos)
  {
    var pipes' := pipes[p := x];
    forall q | q in pipes' && pipes'[q].shared && !pipes'[q].dead ensures exists f :: f in fifos && fifos[f] == q {
      assert q in pipes && pipes[q].shared && !pipes[q].dead;
    }
  }

  lemma ShareOwned(s: State, k: Key, n: Node)
    requires Inv(s) && n in s.refs && n.pipe in s.pipes
    ensures Owned(Share(s, k, n)) && Fresh(Share(s, k, n))
  {
    assert PipeExcess(s, n.pipe, true) >= 0 && PipeExcess(s, n.pipe, false) >= 0;
    RecountOwned(s.pipes, s.fifos, n.pipe, s.pipes[n.pipe].Add(n.reader, 1));
    hide PipesOwned;
  }

  lemma ShareNodes(s: State, k: Key, n: Node)
    requires Inv(s) && !IsEnd(s, k) && n in s.refs && n.pipe in s.pipes
    ensures NodesFollow(s, Share(s, k, n), true)
  {
    var u := Share(s, k, n);
    forall m: Node ensures |RefSet(u.slots, m)| == |RefSet(s.slots, m)| + One(m == n) {
      PutRefs(s.slots, k, PipeEnd(n), m);
    }
    hide RefSet;
  }

  lemma SharePipes(s: State, k: Key, n: Node)
    requires Inv(s) && !IsEnd(s, k) && n in s.refs && n.pipe in s.pipes
    ensures PipesFollow(s, Share(s, k, n), true)
  {
    var u := Share(s, k, n);
    forall p: nat, r: bool
      ensures |EndSet(u.slots, p, r)| == |EndSet(s.slots, p, r)| + One(n.pipe == p && n.reader == r)
    {
      PutEnds(s.slots, k, PipeEnd(n), p, r);
    }
    hide EndSet;
  }

  // ---- The other slot changes ----

  /** The parts of the invariant that hold even between creating a pipe and
      opening its ends. */
  ghost predicate Core(s: State) {
    SlotsAlive(s) && CountsCover(s) && Fresh(s)
  }

  /** Writing a plain descriptor over a slot loses the references of a pipe end
      there: their excess stays behind. */
  lemma PlainCore(s: State, k: Key, v: Slot, tight: bool)
    requires Core(s) && !v.PipeEnd? && (tight ==> !IsEnd(s, k))
    ensures var u := s.(slots := s.slots[k := v]); Core(u) && Follows(s, u, tight)
  {
    var u := s.(slots := s.slots[k := v]);
    PlainNodes(s, k, v, tight);
    PlainPipes(s, k, v, tight);
    if tight {
      Loosen(s, u);
    }
    CoverKept(s, u);
    hide CountsCover;
    forall j | IsEnd(u, j)
      ensures j.thread in u.threads && j.fd < MAX_FD && u.slots[j].node in u.refs && u.slots[j].node.pipe in u.pipes
    {
      assert IsEnd(s, j);
    }
  }

  lemma PlainNodes(s: State, k: Key, v: Slot, tight: bool)
    requires !v.PipeEnd? && (tight ==> !IsEnd(s, k))
    ensures NodesFollow(s, s.(slots := s.slots[k := v]), tight)
  {
    var u := s.(slots := s.slots[k := v]);
    forall n: Node ensures |RefSet(u.slots, n)| == |RefSet(s.slots, n)| - One(k in s.slots && s.slots[k] == PipeEnd(n)) {
      PutRefs(s.slots, k, v, n);
    }
    hide RefSet;
  }

  lemma PlainPipes(s: State, k: Key, v: Slot, tight: bool)
    requires !v.PipeEnd? && (tight ==> !IsEnd(s, k))
    ensures PipesFollow(s, s.(slots := s.slots[k := v]), tight)
  {
    var u := s.(slots := s.slots[k := v]);
    forall p: nat, r: bool
      ensures |EndSet(u.slots, p, r)| == |EndSet(s.slots, p, r)|
        - One(IsEnd(s, k) && s.slots[k].node.pipe == p && s.slots[k].node.reader == r)
    {
      PutEnds(s.slots, k, v, p, r);
    }
    hide EndSet;
  }

  lemma NewPipeCore(s: State, shared: bool)
    requires Core(s)
    ensures Core(NewPipe(s, shared)) && Follows(s, NewPipe(s, shared), true)
  {
    var u := NewPipe(s, shared);
    forall r: bool ensures |EndSet(s.slots, s.nextPipe, r)| == 0 {
      if k :| k in EndSet(s.slots, s.nextPipe, r) {
        assert IsEnd(s, k);
      }
    }
    forall p, r | p in s.pipes ensures PipeExcess(u, p, r) == PipeExcess(s, p, r) {
    }
  }

  lemma NewEndCore(s: State, k: Key, p: nat, reader: bool)
    requires Core(s) && p in s.pipes && !IsEnd(s, k) && k.thread in s.threads && k.fd < MAX_FD
    ensures Core(NewEnd(s, k, p, reader)) && Follows(s, NewEnd(s, k, p, reader), true)
  {
    var u := NewEnd(s, k, p, reader);
    NewEndNodes(s, k, p, reader);
    NewEndPipes(s, k, p, reader);
    forall j | IsEnd(u, j)
      ensures j.thread in u.threads && j.fd < MAX_FD && u.slots[j].node in u.refs && u.slots[j].node.pipe in u.pipes
    {
      assert j != k ==> IsEnd(s, j);
    }
    Loosen(s, u);
    CoverKept(s, u);
    hide CountsCover;
  }

  lemma NewEndNodes(s: State, k: Key, p: nat, reader: bool)
    requires Core(s) && p in s.pipes && !IsEnd(s, k)
    ensures NodesFollow(s, NewEnd(s, k, p, reader), true)
  {
    var u := NewEnd(s, k, p, reader);
    var n := Node(s.nextNode, p, reader);
    forall m: Node ensures |RefSet(u.slots, m)| == |RefSet(s.slots, m)| + One(m == n) {
      PutRefs(s.slots, k, PipeEnd(n), m);
    }
    assert RefSet(s.slots, n) == {} by {
      forall j ensures j !in RefSet(s.slots, n) {
        assert IsEnd(s, j) ==> s.slots[j].node in s.refs;
      }
    }
    hide RefSet;
  }

  lemma NewEndPipes(s: State, k: Key, p: nat, reader: bool)
    requires Core(s) && p in s.pipes && !IsEnd(s, k)
    ensures PipesFollow(s, NewEnd(s, k, p, reader), true)
  {
    var u := NewEnd(s, k, p, reader);
    forall q: nat, r: bool
      ensures |EndSet(u.slots, q, r)| == |EndSet(s.slots, q, r)| + One(p == q && reader == r)
    {
      PutEnds(s.slots, k, PipeEnd(Node(s.nextNode, p, reader)), q, r);
    }
    hide EndSet;
  }

  // ---- Every operation keeps the invariant ----

  /** Resetting the standard slots would overwrite a pipe end. */
  predicate Loses(s: State, t: nat) {
    !Standard(s, t) && (IsEnd(s, Key(t, 0)) || IsEnd(s, Key(t, 1)) || IsEnd(s, Key(t, 2)))
  }

  lemma EnsureInv(s: State, t: nat)
    requires Inv(s)
    ensures Inv(Ensure(s, t)) && Follows(s, Ensure(s, t), !Loses(s, t))
  {
    if !Standard(s, t) {
      ResetCore(s, t, !Loses(s, t));
    }
  }

  lemma ResetCore(s: State, t: nat, tight: bool)
    requires Core(s)
    requires tight ==> !IsEnd(s, Key(t, 0)) && !IsEnd(s, Key(t, 1)) && !IsEnd(s, Key(t, 2))
    ensures var u := s.(slots := s.slots[Key(t, 0) := Tty][Key(t, 1) := Console][Key(t, 2) := Console]);
      Core(u) && Follows(s, u, tight)
  {
    hide Follows, SlotsAlive, CountsCover, Fresh;
    var s0 := s.(slots := s.slots[Key(t, 0) := Tty]);
    var s1 := s0.(slots := s0.slots[Key(t, 1) := Console]);
    var s2 := s1.(slots := s1.slots[Key(t, 2) := Console]);
    PlainCore(s, Key(t, 0), Tty, tight);
    PlainCore(s0, Key(t, 1), Console, tight);
    PlainCore(s1, Key(t, 2), Console, tight);
    FollowsTrans(s, s0, s1, tight);
    FollowsTrans(s, s1, s2, tight);
  }
}
