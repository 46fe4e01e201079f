/** Which signal is delivered, what becomes of it, and the context a handler
    starts with. */
module SignalDelivery {
  import opened Memory
  import opened Signals

  /** Signal i may be delivered now. */
  predicate Deliverable(t: Thread, i: nat) {
    1 <= i < 32 && Bit(t.pending, i) && !Bit(t.mask, i)
  }

  /** The lowest pending unmasked signal. */
  ghost predicate Lowest(t: Thread, sig: nat) {
    Deliverable(t, sig) && forall i: nat :: i < sig ==> !Deliverable(t, i)
  }

  /** The 160 bytes below the stack pointer are the program's and writable. */
  ghost predicate StackRoom(t: Thread) {
    && 0x100_0000_0000 + 160 <= t.regs.rsp
    && forall a :: t.regs.rsp - 160 <= a < t.regs.rsp ==> a / 4096 in t.writable
  }

  /** Bit i is the binary digit of weight 2 to the i. */
  lemma {:induction false} BitIsDigit(m: nat, i: nat) returns (high: nat, low: nat)
    ensures low < Pow2(i) && m == high * (2 * Pow2(i)) + (if Bit(m, i) then Pow2(i) else 0) + low
  {
    if i == 0 {
      high, low := m / 2, 0;
    } else {
      high, low := BitIsDigit(m / 2, i - 1);
      low := 2 * low + m % 2;
      var p := Pow2(i - 1);
      assert high * (2 * (2 * p)) == 2 * (high * (2 * p));
    }
  }

  lemma PicksLowest(t: Thread)
    ensures var sig := FirstSignal(t.pending, t.mask, 1);
      if sig == 0 then forall i: nat :: !Deliverable(t, i) else Lowest(t, sig)
  {
    FirstSignalLeast(t.pending, t.mask, 1);
  }

  /** Nothing happens exactly when every pending signal is masked. */
  lemma NothingIff(t: Thread)
    requires |t.actions| == NSIG
    ensures Deliver(t) == Nothing <==> forall i: nat :: !Deliverable(t, i)
  {
    PicksLowest(t);
  }

  /** The word differs from m in bit i alone. */
  ghost predicate OneBit(m: U64, r: U64, i: nat, on: bool) {
    forall j: nat :: Bit(r, j) <==> if j == i then on else Bit(m, j)
  }

  lemma ClearsOneBit(m: U64, i: nat)
    requires i < 64
    ensures OneBit(m, ClearBit(m, i), i, false) && OneBit(m, SetBit(m, i), i, true)
  {
    forall j: nat ensures Bit(ClearBit(m, i), j) <==> if j == i then false else Bit(m, j) {
      WithBitBits(m, i, false, j);
    }
    forall j: nat ensures Bit(SetBit(m, i), j) <==> if j == i then true else Bit(m, j) {
      WithBitBits(m, i, true, j);
    }
  }

  lemma RoomIff(t: Thread)
    ensures RangeOk(t.writable, (t.regs.rsp - 160) % WORDS, 160) <==> StackRoom(t)
  {
    var a := (t.regs.rsp - 160) % WORDS;
    if t.regs.rsp >= 160 {
      assert a == t.regs.rsp - 160;
      if StackRoom(t) {
        forall p | a / PAGE <= p <= (a + 159) / PAGE ensures p in t.writable {
          var b := if p * 4096 < a then a else p * 4096;
          assert b / 4096 == p;
        }
      }
      if RangeOk(t.writable, a, 160) {
        forall b | a <= b < a + 160 ensures b / 4096 in t.writable {
          assert a / PAGE <= b / 4096 <= (a + 159) / PAGE;
        }
      }
    } else {
      assert a == t.regs.rsp - 160 + WORDS;
    }
  }

  /** What becomes of the lowest deliverable signal, for each kind of action. A
      signal that is dropped leaves the thread as it was but for that pending bit. */
  lemma OutcomeOf(t: Thread, sig: nat)
    requires |t.actions| == 32 && Lowest(t, sig)
    ensures var d, handler := Deliver(t), t.actions[sig].handler;
      if sig == 9 then d == Exit(137)
      else if handler == 0 && sig != 17 && sig != 18 then d == Exit(128 + sig)
      else if handler <= 1 || t.actions[sig].restorer == 0 then
        d.Consumed? && d.t == t.(pending := d.t.pending) && OneBit(t.pending, d.t.pending, sig, false)
      else if !StackRoom(t) then d == Exit(139)
      else d.Entered? && d.sig == sig
  {
    PicksLowest(t);
    ClearsOneBit(t.pending, sig);
    RoomIff(t);
    hide RangeOk, StackRoom, Bit, ClearBit;
  }

  /** A handler starts at the address installed for the lowest deliverable signal,
      with that signal in rdi and the other registers as they were, on a stack that
      grew by the frame and the return address; only that signal leaves the pending
      set and joins the mask, and memory outside the new stack part is untouched. */
  lemma EntersHandler(t: Thread)
    requires |t.actions| == 32 && Deliver(t).Entered?
    ensures var d := Deliver(t);
      && Lowest(t, d.sig)
      && d.t.regs.rip == t.actions[d.sig].handler && d.t.regs.rdi == d.sig && d.t.regs.rsp == t.regs.rsp - 160
      && d.t.regs.(rip := t.regs.rip, rdi := t.regs.rdi, rsp := t.regs.rsp) == t.regs
      && OneBit(t.pending, d.t.pending, d.sig, false) && OneBit(t.mask, d.t.mask, d.sig, true)
      && d.t.actions == t.actions && d.t.readable == t.readable && d.t.writable == t.writable
      && (forall a: int :: a < t.regs.rsp - 160 || a >= t.regs.rsp ==> d.t.mem(a) == t.mem(a))
  {
    var d := Deliver(t);
    PicksLowest(t);
    FrameBelowStack(t);
    ClearsOneBit(t.pending, d.sig);
    ClearsOneBit(t.mask, d.sig);
    hide Deliver, Bit, SetBit, ClearBit, Pack, WordBytes, RangeOk, Lowest;
  }

  /** Raising a signal adds it to the pending set and changes nothing else. */
  lemma RaisePends(s: State, sig: nat)
    requires Inv(s) && Signals.Enabled(s, Raise(sig))
    ensures var r := Step(s, Raise(sig));
      r.Live? && OneBit(s.t.pending, r.t.pending, sig, true) && r == s.(t := s.t.(pending := r.t.pending))
  {
    ClearsOneBit(s.t.pending, sig);
    hide SetBit, Bit;
  }
}
