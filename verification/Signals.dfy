/**
 * Signal delivery and sigreturn: the kernel saves an interrupted context on
 * the user stack, masks the signal and enters the handler; sigreturn reads the
 * context back from the stack pointer.
 */
module Signals {
  import opened Memory

  const NSIG := 32
  const SIGKILL := 9
  const SIGCHLD := 17
  const SIGCONT := 18
  const SIGSTOP := 19
  const SIG_DFL := 0
  const SIG_IGN := 1
  const USERSPACE_BASE := 0x100_0000_0000
  const PAGE := 4096
  const FRAME := 152

  // ---- Signal sets: bits of a 64-bit word ----

  function Pow2(n: nat): nat {
    if n == 0 then 1 else 2 * Pow2(n - 1)
  }

  predicate Bit(m: nat, i: nat) {
    if i == 0 then m % 2 == 1 else Bit(m / 2, i - 1)
  }

  function WithBit(m: nat, i: nat, on: bool): nat {
    if i == 0 then m - m % 2 + (if on then 1 else 0) else m % 2 + 2 * WithBit(m / 2, i - 1, on)
  }

  lemma {:induction false} WithBitBits(m: nat, i: nat, on: bool, j: nat)
    ensures Bit(WithBit(m, i, on), j) <==> if i == j then on else Bit(m, j)
  {
    if i > 0 && j > 0 {
      WithBitBits(m / 2, i - 1, on, j - 1);
    } else if j > 0 {
      assert WithBit(m, i, on) / 2 == m / 2;
    }
  }

  lemma {:induction false} WithBitBound(m: nat, i: nat, on: bool, n: nat)
    requires i < n && m < Pow2(n)
    ensures WithBit(m, i, on) < Pow2(n)
  {
    if i == 0 {
      EvenBound(m, Pow2(n - 1));
    } else {
      HalfBelow(m, Pow2(n - 1));
      WithBitBound(m / 2, i - 1, on, n - 1);
      LowBit(m % 2, WithBit(m / 2, i - 1, on), Pow2(n - 1));
    }
  }

  lemma EvenBound(m: nat, h: nat)
    requires m < 2 * h
    ensures m - m % 2 + 1 < 2 * h
  {
  }

  lemma HalfBelow(m: nat, h: nat)
    requires m < 2 * h
    ensures m / 2 < h
  {
  }

  lemma LowBit(b: nat, w: nat, h: nat)
    requires b < 2 && w < h
    ensures b + 2 * w < 2 * h
  {
  }

  lemma Pow2Byte(n: nat)
    ensures Pow2(n + 8) == 256 * Pow2(n)
  {
    assert Pow2(n + 2) == 2 * Pow2(n + 1);
    assert Pow2(n + 4) == 2 * Pow2(n + 3);
    assert Pow2(n + 6) == 2 * Pow2(n + 5);
    assert Pow2(n + 8) == 2 * Pow2(n + 7);
  }

  lemma Pow2Word()
    ensures Pow2(64) == 0x1_0000_0000_0000_0000
  {
    assert Pow2(0) == 1;
    Pow2Byte(0);
    Pow2Byte(8);
    Pow2Byte(16);
    Pow2Byte(24);
    Pow2Byte(32);
    Pow2Byte(40);
    Pow2Byte(48);
    Pow2Byte(56);
  }

  function SetBit(m: U64, i: nat): U64
    requires i < 64
  {
    Pow2Word();
    WithBitBound(m, i, true, 64);
    WithBit(m, i, true)
  }

  function ClearBit(m: U64, i: nat): U64
    requires i < 64
  {
    Pow2Word();
    WithBitBound(m, i, false, 64);
    WithBit(m, i, false)
  }

  // ---- The interrupted context ----

  datatype Regs = Regs(rax: U64, rdi: U64, rsi: U64, rdx: U64, r10: U64, r8: U64, r9: U64, rbx: U64, rbp: U64,
                       r12: U64, r13: U64, r14: U64, r15: U64, rip: U64, cs: U64, rflags: U64, rsp: U64, ss: U64)

  /** The words of struct sigframe, in declaration order. */
  function FrameWords(r: Regs, mask: U64): (ws: seq<U64>)
    ensures 8 * |ws| == FRAME
  {
    [r.rax, r.rdi, r.rsi, r.rdx, r.r10, r.r8, r.r9, r.rbx, r.rbp, r.r12, r.r13, r.r14, r.r15,
     r.rip, r.cs, r.rflags, r.rsp, r.ss, mask]
  }

  function RegsOf(w: seq<U64>): Regs
    requires 8 * |w| == FRAME
  {
    Regs(w[0], w[1], w[2], w[3], w[4], w[5], w[6], w[7], w[8], w[9], w[10], w[11], w[12],
         w[13], w[14], w[15], w[16], w[17])
  }

  datatype Action = Action(handler: U64, restorer: U64)

  datatype Thread = Thread(regs: Regs, mask: U64, pending: U64, actions: seq<Action>, mem: Mem,
                           readable: set<int>, writable: set<int>)

  predicate RangeOk(pages: set<int>, a: int, n: nat) {
    && USERSPACE_BASE <= a <= WORDS - 1 - n
    && forall p :: a / PAGE <= p <= (a + n - 1) / PAGE ==> p in pages
  }

  // ---- Delivery ----

  /** The lowest deliverable signal from i upwards, 0 if there is none. */
  function FirstSignal(pending: U64, mask: U64, i: nat): (sig: nat)
    decreases NSIG - i
  {
    if i >= NSIG then 0
    else if Bit(pending, i) && !Bit(mask, i) then i
    else FirstSignal(pending, mask, i + 1)
  }

  lemma {:induction false} FirstSignalLeast(pending: U64, mask: U64, i: nat)
    requires 1 <= i
    ensures var sig := FirstSignal(pending, mask, i);
      if sig == 0 then forall j :: i <= j < NSIG ==> !(Bit(pending, j) && !Bit(mask, j))
      else i <= sig < NSIG && Bit(pending, sig) && !Bit(mask, sig)
           && forall j :: i <= j < sig ==> !(Bit(pending, j) && !Bit(mask, j))
    decreases NSIG - i
  {
    if i < NSIG {
      FirstSignalLeast(pending, mask, i + 1);
    }
  }

  datatype Outcome =
    | Nothing
    | Consumed(t: Thread)
    | Entered(t: Thread, at: int, sig: nat)
    | Exit(code: int)

  /** The thread as it enters the handler for sig, with its frame at newRsp + 8. */
  function Enter(t: Thread, sig: nat, newRsp: U64): Thread
    requires sig < NSIG && |t.actions| == NSIG && newRsp + 160 < WORDS
  {
    var frame := Store(t.mem, newRsp + 8, Pack(FrameWords(t.regs, t.mask)));
    t.(pending := ClearBit(t.pending, sig),
       mask := SetBit(t.mask, sig),
       mem := Store(frame, newRsp, WordBytes(t.actions[sig].restorer)),
       regs := t.regs.(rip := t.actions[sig].handler, rsp := newRsp, rdi := sig))
  }

  function Deliver(t: Thread): (r: Outcome)
    requires |t.actions| == NSIG
    ensures r.Entered? ==> 1 <= r.sig < NSIG && Bit(t.pending, r.sig) && !Bit(t.mask, r.sig)
  {
    var sig := FirstSignal(t.pending, t.mask, 1);
    FirstSignalLeast(t.pending, t.mask, 1);
    if sig == 0 then Nothing else
    var rest := t.(pending := ClearBit(t.pending, sig));
    var act := t.actions[sig];
    if sig == SIGKILL then Exit(137)
    else if act.handler == SIG_DFL then
      if sig != SIGCHLD && sig != SIGCONT then Exit(128 + sig) else Consumed(rest)
    else if act.handler == SIG_IGN || act.restorer == 0 then Consumed(rest)
    else
      var newRsp := (t.regs.rsp - FRAME - 8) % WORDS;
      if !RangeOk(t.writable, newRsp, FRAME + 8) then Exit(139)
      else Entered(Enter(t, sig, newRsp), newRsp + 8, sig)
  }

  datatype Returned = Fault | Resumed(t: Thread)

  function SigReturn(t: Thread): Returned {
    if !RangeOk(t.readable, t.regs.rsp, FRAME) then Fault
    else
      var w := Unpack(Load(t.mem, t.regs.rsp, FRAME));
      Resumed(t.(regs := RegsOf(w), mask := w[18]))
  }

  /** How the program entered the kernel: a device interrupt, or a system call
      whose result is in flight. */
  datatype Mode = Interrupt | Call(result: U64)

  /** What the program sees when the kernel goes back to it. An interrupt restores
      the whole saved frame; the exit path of a system call skips the saved rax,
      which holds the call's number, and leaves the result there. */
  function Exiting(r: Regs, mode: Mode): Regs {
    match mode
    case Interrupt => r
    case Call(result) => r.(rax := result)
  }

  /** The registers no signal frame holds. An interrupt saves and restores them
      itself; a syscall instruction overwrites them on the way in, and the exit path
      of a system call leaves in them whatever the kernel had there. */
  datatype Scratch = Scratch(rcx: U64, r11: U64)

  const EFAULT := 14

  // ---- Runs ----

  /** A delivered signal whose handler has not returned yet. */
  datatype Saved = Saved(at: int, regs: Regs, mask: U64, sig: nat)

  /** t.regs is the frame saved on entry to the kernel, scratch what the program
      will find in rcx and r11. */
  datatype State = Live(t: Thread, frames: seq<Saved>, mode: Mode, scratch: Scratch) | Gone(code: int)

  datatype Event =
    | Raise(sig: nat)
    | SetAction(sig: nat, act: Action)
    | Remap(readable: set<int>, writable: set<int>)
    | User(regs: Regs, mem: Mem, mode: Mode, scratch: Scratch)
    | Delivery
    | Return(scratch: Scratch)

  /** All the registers the program finds if the kernel goes back to it now. */
  datatype Sight = Sight(regs: Regs, scratch: Scratch)

  function View(s: State): Sight
    requires s.Live?
  {
    Sight(Exiting(s.t.regs, s.mode), s.scratch)
  }

  function Top(frames: seq<Saved>): int
    requires frames != []
  {
    frames[|frames| - 1].at
  }

  /** User code runs between kernel entries. It keeps its stack pointer at or
      below the innermost frame and does not write into live frames or unmap
      them; the restorer calls sigreturn with the stack pointer at the innermost
      frame. */
  ghost predicate Enabled(s: State, e: Event) {
    && s.Live?
    && match e
       case Raise(sig) => 1 <= sig < NSIG
       case SetAction(sig, act) => 1 <= sig < NSIG && sig != SIGKILL && sig != SIGSTOP
       case Remap(readable, writable) =>
         writable <= readable && forall k :: 0 <= k < |s.frames| ==> RangeOk(readable, s.frames[k].at, FRAME)
       case User(regs, mem, mode, scratch) =>
         && (s.frames != [] ==> regs.rsp <= Top(s.frames))
         && (forall k :: 0 <= k < |s.frames| ==>
               Load(mem, s.frames[k].at, FRAME) == Load(s.t.mem, s.frames[k].at, FRAME))
       case Delivery => true
       case Return(scratch) => s.mode.Call? && s.frames != [] && s.t.regs.rsp == Top(s.frames)
  }

  ghost function Step(s: State, e: Event): State
    requires Enabled(s, e) && |s.t.actions| == NSIG
  {
    match e
    case Raise(sig) => s.(t := s.t.(pending := SetBit(s.t.pending, sig)))
    case SetAction(sig, act) => s.(t := s.t.(actions := s.t.actions[sig := act]))
    case Remap(readable, writable) => s.(t := s.t.(readable := readable, writable := writable))
    case User(regs, mem, mode, scratch) => s.(t := s.t.(regs := regs, mem := mem), mode := mode, scratch := scratch)
    case Delivery => (
      match Deliver(s.t)
      case Nothing => s
      case Consumed(t) => s.(t := t)
      case Entered(t, at, sig) => Live(t, s.frames + [Saved(at, s.t.regs, s.t.mask, sig)], s.mode, s.scratch)
      case Exit(code) => Gone(code))
    case Return(scratch) => (
      match SigReturn(s.t)
      case Fault => s.(mode := Call(WORDS - EFAULT), scratch := scratch)
      case Resumed(t) => Live(t, s.frames[..|s.frames| - 1], Call(0), scratch))
  }

  // ---- The invariant ----

  predicate Maskable(i: nat) {
    1 <= i < NSIG && i != SIGKILL && i != SIGSTOP
  }

  ghost predicate MaskOk(m: U64) {
    forall i: nat :: Bit(m, i) ==> Maskable(i)
  }

  ghost predicate Held(t: Thread, f: Saved) {
    && RangeOk(t.readable, f.at, FRAME)
    && Load(t.mem, f.at, FRAME) == Pack(FrameWords(f.regs, f.mask))
  }

  /** The mask in force above frame k - 1. */
  function MaskAt(s: State, k: nat): U64
    requires s.Live? && k <= |s.frames|
  {
    if k < |s.frames| then s.frames[k].mask else s.t.mask
  }

  ghost predicate FrameInv(s: State, k: nat)
    requires s.Live? && k < |s.frames|
  {
    var f := s.frames[k];
    && Held(s.t, f)
    && Maskable(f.sig) && !Bit(f.mask, f.sig)
    && MaskAt(s, k + 1) == SetBit(f.mask, f.sig)
    && f.at + FRAME == f.regs.rsp
    && (k > 0 ==> f.regs.rsp <= s.frames[k - 1].at)
  }

  ghost predicate Inv(s: State) {
    s.Live? ==>
      && |s.t.actions| == NSIG
      && s.t.actions[SIGKILL].handler == SIG_DFL
      && s.t.actions[SIGSTOP].handler == SIG_DFL
      && s.t.writable <= s.t.readable
      && MaskOk(s.t.mask)
      && (forall k: nat :: k < |s.frames| ==> FrameInv(s, k))
      && (s.frames != [] ==> s.t.regs.rsp <= Top(s.frames))
  }

  // ---- One step ----

  /** A frame that was accepted does not wrap: it ends at the old stack pointer. */
  lemma FrameBelowStack(t: Thread)
    requires |t.actions| == NSIG && Deliver(t).Entered?
    ensures var d := Deliver(t);
      && d.at + FRAME == t.regs.rsp
      && RangeOk(t.writable, d.at, FRAME)
      && d.t == Enter(t, d.sig, d.at - 8)
      && (t.actions[SIGSTOP].handler == SIG_DFL ==> Maskable(d.sig))
  {
    var newRsp := (t.regs.rsp - FRAME - 8) % WORDS;
    assert RangeOk(t.writable, newRsp, FRAME + 8);
  }

  /** What entering a handler writes: the frame reads back, the word the handler
      returns through is the restorer, and memory from the old stack pointer up
      is untouched. */
  lemma EnterWrites(t: Thread, sig: nat, at: int)
    requires sig < NSIG && |t.actions| == NSIG && 8 <= at && at + FRAME == t.regs.rsp
    ensures var u := Enter(t, sig, at - 8);
      && u.regs.rsp + 8 == at
      && Load(u.mem, at, FRAME) == Pack(FrameWords(t.regs, t.mask))
      && WordOf(Load(u.mem, u.regs.rsp, 8)) == t.actions[sig].restorer
      && forall a: int :: t.regs.rsp <= a ==> Load(u.mem, a, FRAME) == Load(t.mem, a, FRAME)
  {
    hide SetBit, ClearBit, WordBytes, WordOf, Pack;
    var u := Enter(t, sig, at - 8);
    var frame := Pack(FrameWords(t.regs, t.mask));
    var m := Store(t.mem, at, frame);
    var word := WordBytes(t.actions[sig].restorer);
    assert u.mem == Store(m, at - 8, word);
    LoadStored(t.mem, at, frame);
    LoadElsewhere(m, at - 8, word, at, FRAME);
    LoadStored(m, at - 8, word);
    WordRoundTrip(t.actions[sig].restorer);
    forall a: int | t.regs.rsp <= a ensures Load(u.mem, a, FRAME) == Load(t.mem, a, FRAME) {
      LoadElsewhere(t.mem, at, frame, a, FRAME);
      LoadElsewhere(m, at - 8, word, a, FRAME);
    }
  }

  lemma HeldReturns(t: Thread, f: Saved)
    requires Held(t, f) && t.regs.rsp == f.at
    ensures SigReturn(t) == Resumed(t.(regs := f.regs, mask := f.mask))
  {
    PackRoundTrip(FrameWords(f.regs, f.mask));
  }

  lemma SetBitMaskOk(m: U64, i: nat)
    requires i < 64
    ensures forall j: nat :: Bit(SetBit(m, i), j) <==> i == j || Bit(m, j)
  {
    forall j: nat ensures Bit(SetBit(m, i), j) <==> i == j || Bit(m, j) {
      WithBitBits(m, i, true, j);
    }
  }

  /** Entering a handler pushes a frame below every live one. */
  lemma EnteredInv(s: State)
    requires s.Live? && Inv(s) && Deliver(s.t).Entered?
    ensures Inv(Step(s, Delivery))
  {
    var d := Deliver(s.t);
    FrameBelowStack(s.t);
    hide Deliver;
    EnterWrites(s.t, d.sig, d.at);
    SetBitMaskOk(s.t.mask, d.sig);
    hide SetBit, Bit;
    var s' := Step(s, Delivery);
    var n := |s.frames|;
    assert s'.t.mask == SetBit(s.t.mask, d.sig);
    forall k: nat | k < n + 1 ensures FrameInv(s', k) {
      if k < n {
        assert FrameInv(s, k);
        AboveTop(s, k);
      }
    }
  }

  lemma {:induction false} AboveTop(s: State, k: nat)
    requires s.Live? && Inv(s) && k < |s.frames|
    ensures Top(s.frames) <= s.frames[k].at
    decreases |s.frames| - k
  {
    if k + 1 < |s.frames| {
      assert FrameInv(s, k + 1);
      AboveTop(s, k + 1);
    }
  }

  /** Sigreturn from the innermost frame succeeds, restores the context and the
      mask saved there, pops the frame, and has 0 as its result. */
  lemma ReturnRestores(s: State, scratch: Scratch)
    requires Inv(s) && Enabled(s, Return(scratch))
    ensures var f := s.frames[|s.frames| - 1];
      Step(s, Return(scratch)) ==
      Live(s.t.(regs := f.regs, mask := f.mask), s.frames[..|s.frames| - 1], Call(0), scratch)
  {
    var k: nat := |s.frames| - 1;
    assert FrameInv(s, k);
    HeldReturns(s.t, s.frames[k]);
  }

  lemma ReturnInv(s: State, scratch: Scratch)
    requires Inv(s) && Enabled(s, Return(scratch))
    ensures Inv(Step(s, Return(scratch)))
  {
    ReturnRestores(s, scratch);
    var k: nat := |s.frames| - 1;
    var s' := Step(s, Return(scratch));
    assert FrameInv(s, k);
    SetBitMaskOk(s.frames[k].mask, s.frames[k].sig);
    hide SetBit, Bit, SigReturn, Step;
    forall j: nat | j < k ensures FrameInv(s', j) {
      assert FrameInv(s, j);
    }
  }

  lemma FramesStay(s: State, t: Thread, mode: Mode, scratch: Scratch)
    requires Inv(s) && s.Live?
    requires t.mask == s.t.mask
    requires forall k :: 0 <= k < |s.frames| ==> RangeOk(t.readable, s.frames[k].at, FRAME)
    requires forall k :: 0 <= k < |s.frames| ==>
               Load(t.mem, s.frames[k].at, FRAME) == Load(s.t.mem, s.frames[k].at, FRAME)
    ensures forall k: nat :: k < |s.frames| ==> FrameInv(Live(t, s.frames, mode, scratch), k)
  {
    forall k: nat | k < |s.frames| ensures FrameInv(Live(t, s.frames, mode, scratch), k) {
      assert FrameInv(s, k);
    }
  }

  lemma StepInv(s: State, e: Event)
    requires Inv(s) && Enabled(s, e)
    ensures Inv(Step(s, e))
  {
    hide RangeOk;
    forall k | 0 <= k < |s.frames| ensures RangeOk(s.t.readable, s.frames[k].at, FRAME) {
      assert FrameInv(s, k);
    }
    match e
    case Delivery =>
      var d := Deliver(s.t);
      if d.Entered? {
        EnteredInv(s);
      } else if d.Consumed? {
        FramesStay(s, d.t, s.mode, s.scratch);
      }
    case Return(scratch) => ReturnInv(s, scratch);
    case Raise(sig) => FramesStay(s, Step(s, e).t, s.mode, s.scratch);
    case SetAction(sig, act) => FramesStay(s, Step(s, e).t, s.mode, s.scratch);
    case Remap(readable, writable) => FramesStay(s, Step(s, e).t, s.mode, s.scratch);
    case User(regs, mem, mode, scratch) => FramesStay(s, Step(s, e).t, mode, scratch);
  }

  // ---- The kernel's code ----

  class Process {
    var regs: Regs
    var mask: U64
    var pending: U64
    var actions: seq<Action>
    var mem: Mem
    const readable: set<int>
    const writable: set<int>

    function State(): Thread
      reads this
    {
      Thread(regs, mask, pending, actions, mem, readable, writable)
    }

    method PickSignal() returns (sig: nat)
      ensures sig == FirstSignal(pending, mask, 1)
    {
      var i := 1;
      while i < NSIG
        invariant 1 <= i <= NSIG
        invariant FirstSignal(pending, mask, 1) == FirstSignal(pending, mask, i)
      {
        if Bit(pending, i) && !Bit(mask, i) {
          return i;
        }
        i := i + 1;
      }
      return 0;
    }

    /** deliver_signal_ctx: true when the context must be written back; code is
        the exit status when the process ends instead. */
    method DeliverSignal() returns (consumed: bool, code: int)
      requires |actions| == NSIG
      modifies this
      ensures match Deliver(old(State()))
        case Nothing => !consumed && code == 0 && State() == old(State())
        case Consumed(t) => consumed && code == 0 && State() == t
        case Entered(t, at, sig) => consumed && code == 0 && State() == t
        case Exit(c) => consumed && code == c && regs == old(regs) && mask == old(mask) && mem == old(mem)
    {
      code := 0;
      FirstSignalLeast(pending, mask, 1);
      var sig := PickSignal();
      if sig == 0 {
        return false, 0;
      }
      pending := ClearBit(pending, sig);
      var act := actions[sig];
      if sig == SIGKILL {
        return true, 137;
      }
      if act.handler == SIG_DFL {
        if sig != SIGCHLD && sig != SIGCONT {
          return true, 128 + sig;
        }
        return true, 0;
      }
      if act.handler == SIG_IGN || act.restorer == 0 {
        return true, 0;
      }
      var newRsp: U64 := (regs.rsp - FRAME - 8) % WORDS;
      var ok := RangeOk(writable, newRsp, FRAME + 8);
      if !ok {
        return true, 139;
      }
      mem := Store(mem, newRsp + 8, Pack(FrameWords(regs, mask)));
      mem := Store(mem, newRsp, WordBytes(act.restorer));
      mask := SetBit(mask, sig);
      regs := regs.(rip := act.handler, rsp := newRsp, rdi := sig);
      return true, 0;
    }

    method SigReturnCall() returns (ok: bool)
      modifies this
      ensures match SigReturn(old(State()))
        case Fault => !ok && State() == old(State())
        case Resumed(t) => ok && State() == t
    {
      ok := RangeOk(readable, regs.rsp, FRAME);
      if ok {
        var w := Unpack(Load(mem, regs.rsp, FRAME));
        regs := RegsOf(w);
        mask := w[18];
      }
    }
  }
}
