/** Signal delivery over whole runs: nested handlers unwind, nesting is bounded,
    and how long SIGKILL can be held off. */
module SignalRuns {
  import opened Memory
  import opened Sequences
  import opened Signals

  // ---- Whole runs ----

  ghost predicate CanRun(s: State, es: seq<Event>)
    requires Inv(s)
    decreases |es|
  {
    es == [] || (Enabled(s, es[0]) && (StepInv(s, es[0]); CanRun(Step(s, es[0]), es[1..])))
  }

  ghost function After(s: State, es: seq<Event>): (r: State)
    requires Inv(s) && CanRun(s, es)
    ensures Inv(r)
    decreases |es|
  {
    if es == [] then s else StepInv(s, es[0]); After(Step(s, es[0]), es[1..])
  }

  /** The run never returns below depth d. */
  ghost predicate StaysAbove(s: State, es: seq<Event>, d: nat)
    requires Inv(s) && CanRun(s, es)
    decreases |es|
  {
    && (s.Live? ==> d <= |s.frames|)
    && (es == [] || (StepInv(s, es[0]); StaysAbove(Step(s, es[0]), es[1..], d)))
  }

  lemma {:induction false} OuterFramesKept(s: State, es: seq<Event>, d: nat)
    requires Inv(s) && CanRun(s, es) && StaysAbove(s, es, d)
    requires After(s, es).Live?
    ensures s.Live? && d <= |s.frames| && d <= |After(s, es).frames|
    ensures After(s, es).frames[..d] == s.frames[..d]
    decreases |es|
  {
    if es != [] {
      StepInv(s, es[0]);
      var s' := Step(s, es[0]);
      OuterFramesKept(s', es[1..], d);
      StepFrames(s, es[0], d);
    }
  }

  lemma StepFrames(s: State, e: Event, d: nat)
    requires Inv(s) && Enabled(s, e) && d <= |s.frames|
    requires Step(s, e).Live? && d <= |Step(s, e).frames|
    ensures Step(s, e).frames[..d] == s.frames[..d]
  {
    hide Deliver, SigReturn;
    if e.Return? {
      ReturnRestores(s, e.scratch);
    }
  }

  /** A handler that is entered in s, with everything that happens above its frame
      (further signals, nested handlers and their returns, user code) in es, comes
      to its sigreturn. */
  ghost predicate Trip(s: State, es: seq<Event>) {
    && Inv(s) && s.Live? && Deliver(s.t).Entered?
    && Inv(Step(s, Delivery)) && CanRun(Step(s, Delivery), es)
    && StaysAbove(Step(s, Delivery), es, |s.frames| + 1)
    && var u := After(Step(s, Delivery), es);
       u.Live? && |u.frames| == |s.frames| + 1 && u.mode.Call? && u.t.regs.rsp == Top(u.frames)
  }

  /** The state the sigreturn leaves, with whatever the kernel left in rcx and r11. */
  ghost function TripEnd(s: State, es: seq<Event>, scratch: Scratch): State
    requires Trip(s, es)
  {
    Step(After(Step(s, Delivery), es), Return(scratch))
  }

  /** A program at s cannot tell from its registers that it resumes at r instead.
      After a system call rcx and r11 are dead: its own syscall instruction has
      overwritten them. */
  predicate Unnoticed(s: State, r: State)
    requires s.Live? && r.Live?
  {
    match s.mode
    case Interrupt => View(r) == View(s)
    case Call(_) => View(r).regs == View(s).regs
  }

  /**
   * Nested signals unwind: at the sigreturn all eighteen saved fields and the mask
   * are those at the moment of delivery. The program itself resumes with
   * sigreturn's own result, 0, in rax, and with what the kernel left in rcx and r11.
   */
  lemma Unwinds(s: State, es: seq<Event>, scratch: Scratch)
    requires Trip(s, es)
    ensures var r := TripEnd(s, es, scratch);
      && r.Live?
      && r.t.regs == s.t.regs
      && r.t.mask == s.t.mask
      && r.frames == s.frames
      && View(r) == Sight(Exiting(s.t.regs, Call(0)), scratch)
  {
    var s1 := Step(s, Delivery);
    var u := After(s1, es);
    OuterFramesKept(s1, es, |s.frames| + 1);
    assert s1.frames == s.frames + [Saved(Deliver(s.t).at, s.t.regs, s.t.mask, Deliver(s.t).sig)];
    assert u.frames == s1.frames by {
      assert u.frames[..|s.frames| + 1] == u.frames && s1.frames[..|s.frames| + 1] == s1.frames;
    }
    hide Deliver, SigReturn, Step;
    ReturnRestores(u, scratch);
    assert u.frames[..|s.frames|] == s.frames;
  }

  /** Which trips go unnoticed: after an interrupt, those that find rax at 0 and
      happen to leave rcx and r11 as they were; after a call, those of calls that
      return 0. */
  lemma UnnoticedIff(s: State, es: seq<Event>, scratch: Scratch)
    requires Trip(s, es)
    ensures TripEnd(s, es, scratch).Live?
    ensures Unnoticed(s, TripEnd(s, es, scratch)) <==>
      if s.mode.Interrupt? then s.t.regs.rax == 0 && scratch == s.scratch else s.mode.result == 0
  {
    hide Trip, TripEnd;
    Unwinds(s, es, scratch);
  }

  /**
   * A handled signal goes unnoticed on every trip exactly when it is delivered at
   * the exit of a system call that returns 0. No interrupted program can rely on it,
   * whatever its rax: some trip takes its rcx.
   */
  lemma AlwaysUnnoticedIff(s: State)
    requires Inv(s) && s.Live? && Deliver(s.t).Entered?
    ensures (forall es, scratch ::
               Trip(s, es) ==> TripEnd(s, es, scratch).Live? && Unnoticed(s, TripEnd(s, es, scratch)))
            <==> s.mode == Call(0)
  {
    hide Trip, TripEnd, Unnoticed;
    forall es, scratch | Trip(s, es)
      ensures TripEnd(s, es, scratch).Live?
      ensures s.mode == Call(0) ==> Unnoticed(s, TripEnd(s, es, scratch))
    {
      UnnoticedIff(s, es, scratch);
    }
    if s.mode != Call(0) {
      var es, scratch := NoticedTrip(s);
    }
  }

  /** Such a trip: the handler returns at once, with another value left in rcx. */
  lemma NoticedTrip(s: State) returns (es: seq<Event>, scratch: Scratch)
    requires Inv(s) && s.Live? && Deliver(s.t).Entered? && s.mode != Call(0)
    ensures Trip(s, es) && TripEnd(s, es, scratch).Live? && !Unnoticed(s, TripEnd(s, es, scratch))
    ensures s.mode.Interrupt? ==> TripEnd(s, es, scratch).scratch.rcx != s.scratch.rcx
  {
    StraightTrip(s);
    es := [Straight(Deliver(s.t).t, Deliver(s.t).at)];
    scratch := Scratch(if s.scratch.rcx == 0 then 1 else 0, s.scratch.r11);
    hide Trip, TripEnd;
    UnnoticedIff(s, es, scratch);
    Unwinds(s, es, scratch);
  }

  /** Live frames occupy disjoint, decreasing ranges of the stack. */
  lemma {:induction false} FramesDisjoint(s: State, j: nat, k: nat)
    requires s.Live? && Inv(s) && j < k < |s.frames|
    ensures s.frames[k].at + FRAME <= s.frames[j].at
    decreases k
  {
    assert FrameInv(s, k);
    if j < k - 1 {
      FramesDisjoint(s, j, k - 1);
      assert FrameInv(s, k - 1);
    }
  }

  /** A signal being handled is masked in every frame above its own. */
  lemma {:induction false} MaskedAbove(s: State, j: nat, k: nat)
    requires s.Live? && Inv(s) && j < k <= |s.frames|
    ensures Bit(MaskAt(s, k), s.frames[j].sig)
    decreases k
  {
    assert FrameInv(s, k - 1);
    SetBitMaskOk(s.frames[k - 1].mask, s.frames[k - 1].sig);
    hide SetBit, Bit;
    if j < k - 1 {
      MaskedAbove(s, j, k - 1);
    }
  }

  /** Maskable signals, numbered 0 to 28. */
  function Place(sig: nat): (p: nat)
    requires Maskable(sig)
    ensures p < NSIG - 3
  {
    sig - 1 - (if sig > SIGKILL then 1 else 0) - (if sig > SIGSTOP then 1 else 0)
  }

  /** Each delivery masks a fresh signal, so at most 29 handlers nest. */
  lemma DepthBound(s: State)
    requires s.Live? && Inv(s)
    ensures |s.frames| <= NSIG - 3
  {
    forall k: nat | k < |s.frames| ensures Maskable(s.frames[k].sig) {
      assert FrameInv(s, k);
    }
    var q := seq(|s.frames|, k requires 0 <= k < |s.frames| => Place(s.frames[k].sig));
    forall j, k | 0 <= j < k < |q| ensures q[j] != q[k] {
      MaskedAbove(s, j, k);
      assert FrameInv(s, k);
    }
    Pigeonhole(q, NSIG - 3);
  }

  /** Over every run that leaves live frames alone: nesting stays below NSIG and
      neither SIGKILL nor SIGSTOP is ever masked. */
  lemma RunBounds(s: State, es: seq<Event>)
    requires Inv(s) && CanRun(s, es) && After(s, es).Live?
    ensures |After(s, es).frames| < NSIG
    ensures !Bit(After(s, es).t.mask, SIGKILL) && !Bit(After(s, es).t.mask, SIGSTOP)
  {
    DepthBound(After(s, es));
  }

  lemma {:induction false} NoBits(i: nat)
    ensures !Bit(0, i)
  {
    if i > 0 {
      NoBits(i - 1);
    }
  }

  /** A new process: nothing masked, default actions for SIGKILL and SIGSTOP. */
  lemma FreshInv(t: Thread, mode: Mode, scratch: Scratch)
    requires |t.actions| == NSIG && t.mask == 0 && t.writable <= t.readable
    requires t.actions[SIGKILL].handler == SIG_DFL && t.actions[SIGSTOP].handler == SIG_DFL
    ensures Inv(Live(t, [], mode, scratch))
  {
    forall i: nat ensures Bit(t.mask, i) ==> Maskable(i) {
      NoBits(i);
    }
  }

  // ---- Programs interrupted on their way out of the kernel ----

  const SYS_PRINT := 0
  const SYS_YIELD := 1

  /** The handler returns at once: its ret pops the restorer, which calls sigreturn. */
  function Straight(t: Thread, at: U64): Event {
    User(t.regs.(rsp := at), t.mem, Call(0), Scratch(0, 0))
  }

  lemma StraightTrip(s: State)
    requires Inv(s) && s.Live? && Deliver(s.t).Entered?
    ensures 0 <= Deliver(s.t).at < WORDS
    ensures Trip(s, [Straight(Deliver(s.t).t, Deliver(s.t).at)])
  {
    FrameBelowStack(s.t);
    StepInv(s, Delivery);
    var d := Deliver(s.t);
    hide Deliver, RangeOk;
    var s1 := Step(s, Delivery);
    var e := Straight(d.t, d.at);
    assert Top(s1.frames) == d.at;
    assert Enabled(s1, e);
    StepInv(s1, e);
    assert [e][1..] == [];
    assert CanRun(Step(s1, e), []) && StaysAbove(Step(s1, e), [], |s.frames| + 1);
    assert CanRun(s1, [e]) && After(s1, [e]) == Step(s1, e);
  }

  const PAGE_NO := USERSPACE_BASE / PAGE

  /** SIGINT is pending as the kernel goes back to the program, with a handler for it
      and room on the stack. */
  function Leaving(rax: U64, mode: Mode, scratch: Scratch): State {
    var act := Action(0x100_0000_0200, 0x100_0000_0300);
    var regs := Regs(rax, 0, 0, 0, 0, 0, 0, 0, 0, 0, 0, 0, 0, 0x100_0000_0100, 0x2B, 0x202, 0x100_0000_0F00, 0x33);
    Live(Thread(regs, 0, 4, seq(NSIG, i => if i == 2 then act else Action(SIG_DFL, 0)), _ => 0,
                {PAGE_NO}, {PAGE_NO}), [], mode, scratch)
  }

  lemma LeavingEnters(rax: U64, mode: Mode, scratch: Scratch)
    ensures var s := Leaving(rax, mode, scratch);
      Inv(s) && Deliver(s.t).Entered?
  {
    var s := Leaving(rax, mode, scratch);
    FreshInv(s.t, s.mode, s.scratch);
    NoBits(1);
    assert !Bit(4, 1) && Bit(4, 2) && !Bit(0, 2);
    assert FirstSignal(4, 0, 1) == FirstSignal(4, 0, 2) == 2;
    assert (s.t.regs.rsp - FRAME - 8) % WORDS == 0x100_0000_0E60;
    assert RangeOk(s.t.writable, 0x100_0000_0E60, FRAME + 8);
  }

  /** A loop that counts in rcx, interrupted by the timer with rax 0, loses its count. */
  lemma LoopCounterLost(count: U64)
    ensures var s := Leaving(0, Interrupt, Scratch(count, 0));
      && Inv(s) && Deliver(s.t).Entered? && View(s).scratch.rcx == count
      && exists es, scratch :: Trip(s, es) && TripEnd(s, es, scratch).Live? && View(TripEnd(s, es, scratch)).scratch.rcx != count
  {
    var s := Leaving(0, Interrupt, Scratch(count, 0));
    LeavingEnters(0, Interrupt, Scratch(count, 0));
    hide Trip, TripEnd;
    var es, scratch := NoticedTrip(s);
  }

  /** print of a bad pointer fails, but a program interrupted on the way out sees
      success: the number of the call is 0, its result is not. */
  lemma PrintErrorLost(garbage: Scratch, es: seq<Event>, scratch: Scratch)
    requires Trip(Leaving(SYS_PRINT, Call(WORDS - EFAULT), garbage), es)
    ensures var s := Leaving(SYS_PRINT, Call(WORDS - EFAULT), garbage);
      && s.t.regs.rax == 0 && View(s).regs.rax == WORDS - EFAULT
      && TripEnd(s, es, scratch).Live? && View(TripEnd(s, es, scratch)).regs.rax == 0
  {
    Unwinds(Leaving(SYS_PRINT, Call(WORDS - EFAULT), garbage), es, scratch);
  }

  /** yield returns 0, and every program interrupted on the way out of it sees that
      0 although the number of the call is 1. */
  lemma YieldResultKept(garbage: Scratch, es: seq<Event>, scratch: Scratch)
    requires Trip(Leaving(SYS_YIELD, Call(0), garbage), es)
    ensures var s := Leaving(SYS_YIELD, Call(0), garbage);
      && s.t.regs.rax == 1 && View(s).regs.rax == 0
      && TripEnd(s, es, scratch).Live? && Unnoticed(s, TripEnd(s, es, scratch))
  {
    UnnoticedIff(Leaving(SYS_YIELD, Call(0), garbage), es, scratch);
  }

  /** Both calls can be interrupted so. */
  lemma CallsInterrupted(number: U64, result: U64, garbage: Scratch)
    ensures exists es :: Trip(Leaving(number, Call(result), garbage), es)
  {
    var s := Leaving(number, Call(result), garbage);
    LeavingEnters(number, Call(result), garbage);
    StraightTrip(s);
  }

  // ---- SIGKILL ----

  /** Pending signals among 1 to n. */
  function PendingUpTo(p: U64, n: nat): (c: nat)
    ensures c <= n
  {
    if n == 0 then 0 else PendingUpTo(p, n - 1) + (if Bit(p, n) then 1 else 0)
  }

  lemma {:induction false} PendingChange(p: U64, q: U64, sig: nat, n: nat)
    requires sig >= 1 && forall j: nat :: j != sig ==> (Bit(q, j) <==> Bit(p, j))
    ensures PendingUpTo(q, n) == PendingUpTo(p, n)
      + (if sig <= n && Bit(q, sig) && !Bit(p, sig) then 1 else 0)
      - (if sig <= n && Bit(p, sig) && !Bit(q, sig) then 1 else 0)
  {
    if n > 0 {
      PendingChange(p, q, sig, n - 1);
    }
  }

  /** How many signals below SIGKILL wait with it, masked or not. */
  function Ahead(t: Thread): nat {
    PendingUpTo(t.pending, SIGKILL - 1)
  }

  /** A delivery with SIGKILL pending ends the process or uses up a lower signal. */
  lemma DeliveryAhead(t: Thread)
    requires |t.actions| == NSIG && Bit(t.pending, SIGKILL) && !Bit(t.mask, SIGKILL)
    ensures var d := Deliver(t);
      d.Exit? || ((d.Consumed? || d.Entered?) && Bit(d.t.pending, SIGKILL) && Ahead(d.t) + 1 == Ahead(t))
  {
    FirstSignalLeast(t.pending, t.mask, 1);
    var sig := FirstSignal(t.pending, t.mask, 1);
    var d := Deliver(t);
    if !d.Exit? {
      forall j: nat ensures Bit(d.t.pending, j) <==> j != sig && Bit(t.pending, j) {
        WithBitBits(t.pending, sig, false, j);
      }
      PendingChange(t.pending, d.t.pending, sig, SIGKILL - 1);
    }
  }

  predicate LowRaise(e: Event) {
    e.Raise? && e.sig < SIGKILL
  }

  lemma RaiseAhead(t: Thread, sig: nat)
    requires 1 <= sig < NSIG && Bit(t.pending, SIGKILL)
    ensures var u := t.(pending := SetBit(t.pending, sig));
      Bit(u.pending, SIGKILL) && Ahead(u) <= Ahead(t) + (if sig < SIGKILL then 1 else 0)
  {
    var q := SetBit(t.pending, sig);
    SetBitMaskOk(t.pending, sig);
    PendingChange(t.pending, q, sig, SIGKILL - 1);
  }

  function Deliveries(es: seq<Event>): nat {
    if es == [] then 0 else (if es[0].Delivery? then 1 else 0) + Deliveries(es[1..])
  }

  function LowRaises(es: seq<Event>): nat {
    if es == [] then 0 else (if LowRaise(es[0]) then 1 else 0) + LowRaises(es[1..])
  }

  /** One step of any kind, with SIGKILL pending. */
  lemma StepAhead(s: State, e: Event)
    requires Inv(s) && Enabled(s, e) && Bit(s.t.pending, SIGKILL)
    ensures var r := Step(s, e);
      r.Live? ==>
        && Bit(r.t.pending, SIGKILL)
        && Ahead(r.t) + (if e.Delivery? then 1 else 0) <= Ahead(s.t) + (if LowRaise(e) then 1 else 0)
  {
    match e
    case Delivery => DeliveryAhead(s.t);
    case Raise(sig) => RaiseAhead(s.t, sig);
    case _ =>
  }

  lemma GoneEnds(s: State, es: seq<Event>)
    requires s.Gone? && CanRun(s, es)
    ensures es == []
  {
  }

  lemma {:induction false} KillCountdown(s: State, es: seq<Event>)
    requires Inv(s) && CanRun(s, es) && s.Live? && Bit(s.t.pending, SIGKILL)
    ensures After(s, es).Live? ==>
      Bit(After(s, es).t.pending, SIGKILL) && Deliveries(es) <= Ahead(s.t) + LowRaises(es)
    ensures Deliveries(es) <= Ahead(s.t) + LowRaises(es) + 1
    decreases |es|
  {
    if es != [] {
      StepInv(s, es[0]);
      StepAhead(s, es[0]);
      var r := Step(s, es[0]);
      hide Step, Bit, PendingUpTo;
      if r.Live? {
        KillCountdown(r, es[1..]);
      } else {
        GoneEnds(r, es[1..]);
      }
    }
  }

  /**
   * Over every run, whatever handlers run and return in between: while SIGKILL is
   * pending the process outlives at most eight delivery points and one more for
   * every lower signal raised meanwhile.
   */
  lemma KillIsBounded(s: State, es: seq<Event>)
    requires Inv(s) && CanRun(s, es) && s.Live? && Bit(s.t.pending, SIGKILL)
    ensures After(s, es).Live? ==> Deliveries(es) <= SIGKILL - 1 + LowRaises(es)
  {
    KillCountdown(s, es);
  }

  /** Signal 1 raised before every delivery. */
  function Teasing(n: nat): seq<Event> {
    if n == 0 then [] else [Raise(1), Delivery] + Teasing(n - 1)
  }

  /** SIGKILL waits behind an ignored signal 1. */
  ghost predicate HeldOff(s: State) {
    && s.Live? && Inv(s) && Bit(s.t.pending, SIGKILL)
    && !Bit(s.t.mask, 1) && s.t.actions[1].handler == SIG_IGN
  }

  lemma TeasedOnce(s: State)
    requires HeldOff(s)
    ensures Inv(s) && Enabled(s, Raise(1))
    ensures var r := Step(s, Raise(1));
      Inv(r) && Enabled(r, Delivery) && HeldOff(Step(r, Delivery)) && Inv(Step(r, Delivery))
  {
    StepInv(s, Raise(1));
    var r := Step(s, Raise(1));
    SetBitMaskOk(s.t.pending, 1);
    assert FirstSignal(r.t.pending, r.t.mask, 1) == 1;
    StepInv(r, Delivery);
    WithBitBits(r.t.pending, 1, false, SIGKILL);
  }

  /** The raises are needed: a signal that is ignored and raised again before every
      delivery holds SIGKILL off for any number of deliveries. */
  lemma {:induction false} Starved(s: State, n: nat)
    requires HeldOff(s)
    ensures CanRun(s, Teasing(n)) && HeldOff(After(s, Teasing(n)))
    ensures Deliveries(Teasing(n)) == n
    decreases n
  {
    hide HeldOff, Step, Inv, Enabled;
    if n > 0 {
      TeasedOnce(s);
      var es, r := Teasing(n), Step(s, Raise(1));
      Starved(Step(r, Delivery), n - 1);
      TwoMore(s, Raise(1), Delivery, Teasing(n - 1));
      assert es[1..] == [Delivery] + Teasing(n - 1) && es[1..][1..] == Teasing(n - 1);
    }
  }

  /** Two steps in front of a run. */
  lemma TwoMore(s: State, e: Event, f: Event, es: seq<Event>)
    requires Inv(s) && Enabled(s, e) && Inv(Step(s, e)) && Enabled(Step(s, e), f) && Inv(Step(Step(s, e), f))
    requires CanRun(Step(Step(s, e), f), es)
    ensures CanRun(s, [e, f] + es) && After(s, [e, f] + es) == After(Step(Step(s, e), f), es)
  {
    hide Step, FrameInv, RangeOk;
    assert ([e, f] + es)[1..] == [f] + es && ([f] + es)[1..] == es;
    assert CanRun(Step(s, e), [f] + es) && After(Step(s, e), [f] + es) == After(Step(Step(s, e), f), es);
  }

  /** Such a process: SIGKILL pending, signal 1 ignored, nothing masked. */
  lemma HeldOffExists(regs: Regs, mode: Mode, scratch: Scratch)
    ensures var acts := seq(NSIG, i => if i == 1 then Action(SIG_IGN, 0) else Action(SIG_DFL, 0));
      HeldOff(Live(Thread(regs, 0, 512, acts, _ => 0, {}, {}), [], mode, scratch))
  {
    var acts := seq(NSIG, i => if i == 1 then Action(SIG_IGN, 0) else Action(SIG_DFL, 0));
    FreshInv(Thread(regs, 0, 512, acts, _ => 0, {}, {}), mode, scratch);
    NoBits(1);
    assert Bit(512, 9) by {
      assert Bit(512, 9) == Bit(256, 8) == Bit(128, 7) == Bit(64, 6) == Bit(32, 5);
      assert Bit(32, 5) == Bit(16, 4) == Bit(8, 3) == Bit(4, 2) == Bit(2, 1) == Bit(1, 0);
    }
  }
}
