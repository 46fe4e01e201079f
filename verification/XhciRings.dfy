/** The driver's two kinds of ring, with the other side of each as the consumer
    or producer the cycle bits are meant for. */
module XhciRings {
  import opened Sequences
  import opened CycleRing

  const LINK := 6
  const TRB_SIZE := 16

  /** The entries that are not links, in order. */
  function Payload(hist: seq<Trb>): seq<Trb> {
    if hist == [] then []
    else Payload(hist[..|hist| - 1]) + (if hist[|hist| - 1].kind == LINK then [] else [hist[|hist| - 1]])
  }

  /** Links sit exactly in slot 255, and point back to slot 0. */
  ghost predicate Linked(hist: seq<Trb>, phys: nat) {
    forall i: nat :: i < |hist| ==> LinkedAt(hist, phys, i)
  }

  predicate LinkedAt(hist: seq<Trb>, phys: nat, i: nat)
    requires i < |hist|
  {
    && (hist[i].kind == LINK <==> i % 256 == 255)
    && (hist[i].kind == LINK ==> hist[i].toggle && hist[i].parameter == phys)
  }

  lemma {:induction false} PayloadStep(hist: seq<Trb>, c: nat)
    requires c < |hist|
    ensures Payload(hist[..c + 1]) == Payload(hist[..c]) + (if hist[c].kind == LINK then [] else [hist[c]])
  {
    assert hist[..c + 1][..c] == hist[..c];
  }

  lemma {:induction false} PayloadPrefix(hist: seq<Trb>, c: nat)
    requires c <= |hist|
    ensures Payload(hist[..c]) <= Payload(hist)
    decreases |hist| - c
  {
    if c == |hist| {
      assert hist[..c] == hist;
    } else {
      PayloadStep(hist, c);
      PayloadPrefix(hist, c + 1);
    }
  }

  /** How many of the first p positions are not links. */
  lemma {:induction false} PayloadSize(hist: seq<Trb>, phys: nat)
    requires Linked(hist, phys)
    ensures |Payload(hist)| == |hist| / 256 * 255 + (|hist| % 256)
  {
    if hist != [] {
      var n: nat := |hist| - 1;
      assert LinkedAt(hist, phys, n);
      forall i: nat | i < n ensures LinkedAt(hist[..n], phys, i) {
        assert LinkedAt(hist, phys, i);
      }
      PayloadSize(hist[..n], phys);
    }
  }

  /** A command or transfer ring: the driver pushes, the controller fetches. */
  class TransferRing {
    const phys: nat
    var trb: seq<Trb>
    var enqueue: nat
    var cycle: bool
    // The controller's side.
    var dequeue: nat
    var consumerCycle: bool
    ghost var hist: seq<Trb>  // everything written, links included
    ghost var taken: nat      // positions the controller is past

    ghost predicate Valid()
      reads this
    {
      && Inv(trb, taken, hist)
      && Linked(hist, phys)
      && |hist| % 256 != 255
      && enqueue == |hist| % 256 && cycle == LapBit(|hist| / 256)
      && dequeue == taken % 256 && consumerCycle == LapBit(taken / 256)
    }

    ghost function Pushed(): seq<Trb>
      reads this
    {
      Payload(hist)
    }

    ghost function Fetched(): seq<Trb>
      reads this
      requires taken <= |hist|
    {
      Payload(hist[..taken])
    }

    /** Slots that the next push writes: the last one of a lap adds the link. */
    ghost function Needed(): nat
      reads this
    {
      if enqueue == 254 then 2 else 1
    }

    ghost predicate Fits()
      reads this
    {
      |hist| + Needed() <= taken + TRBS
    }

    /** ring_alloc: a zeroed page. */
    constructor (base: nat)
      ensures Valid() && phys == base && hist == [] && taken == 0 && fresh(this)
    {
      phys := base;
      trb := seq(TRBS, _ => Trb(0, 0, 0, 0, false, false));
      enqueue, cycle, dequeue, consumerCycle := 0, true, 0, true;
      hist, taken := [], 0;
      new;
      Start(trb);
    }

    /** The controller sees no entry although some are unread. */
    ghost predicate Stalled()
      reads this
    {
      && |trb| == TRBS && taken < |hist|
      && dequeue == taken % 256 && trb[dequeue].cycle != consumerCycle
    }

    /** ring_push. The control word comes without its cycle bit, and links are the
        driver's own. The driver does not look whether there is room: a push that
        does not fit stalls the controller. */
    method Push(parameter: nat, status: nat, kind: nat, flags: nat, toggle: bool) returns (addr: nat)
      requires Valid() && kind != LINK
      modifies this`trb, this`enqueue, this`cycle, this`hist
      ensures addr == phys + TRB_SIZE * old(enqueue)
      ensures old(Fits()) ==>
        && Valid() && Fetched() == old(Fetched())
        && Pushed() == old(Pushed()) + [Trb(parameter, status, kind, flags, toggle, old(cycle))]
      ensures !old(Fits()) ==> Stalled()
      ensures |hist| == |old(hist)| + old(Needed())
    {
      hide Written, Holds, Linked, Payload, LapBit;
      ghost var fits, ring0, hist0 := Fits(), trb, hist;
      LapStep(|hist|);
      LapStep(|hist| + 1);
      var index := enqueue;
      var t := Trb(parameter, status, kind, flags, toggle, cycle);
      ghost var link0 := Trb(phys, 0, LINK, 0, true, cycle);
      if fits {
        PutInv(trb, taken, hist, t);
      } else {
        PushPastFull(trb, taken, hist, t, link0);
      }
      PushPayload(hist, taken, t, phys);
      trb := trb[index := t];
      hist := hist + [t];
      enqueue := enqueue + 1;
      if enqueue == TRBS - 1 {
        var link := Trb(phys, 0, LINK, 0, true, cycle);
        if fits {
          PutInv(trb, taken, hist, link);
        }
        PushPayload(hist, taken, link, phys);
        trb := trb[enqueue := link];
        hist := hist + [link];
        enqueue := 0;
        cycle := !cycle;
      }
      assert trb == PushSlots(ring0, |hist0|, t, link0);
      return phys + TRB_SIZE * index;
    }

    /** The controller's fetch: an entry whose cycle bit matches is next; a link
        with the toggle bit sends it back to slot 0 with the other cycle. */
    method Fetch() returns (r: Option<Trb>)
      requires Valid()
      modifies this`dequeue, this`consumerCycle, this`taken
      ensures Valid() && Pushed() == old(Pushed())
      ensures |old(Fetched())| < |Pushed()| ==>
        r == Some(Pushed()[|old(Fetched())|]) && Fetched() == old(Fetched()) + [r.value]
      ensures |old(Fetched())| == |Pushed()| ==> r == None && Fetched() == old(Fetched())
      ensures r.Some? ==> taken == old(taken) + (if old(taken) % 256 == 255 then 2 else 1)
    {
      hide Written, Holds, Linked, Payload, LapBit;
      LapStep(taken);
      FetchStep(trb, taken, hist, phys);
      var t := trb[dequeue];
      if t.cycle != consumerCycle {
        return None;
      }
      if t.kind == LINK {
        dequeue := 0;
        consumerCycle := if t.toggle then !consumerCycle else consumerCycle;
        taken := taken + 1;
        LapStep(taken);
        FetchStep(trb, taken, hist, phys);
        t := trb[dequeue];
        if t.cycle != consumerCycle {
          return None;
        }
      }
      dequeue := dequeue + 1;
      taken := taken + 1;
      return Some(t);
    }
  }

  lemma LapStep(p: nat)
    ensures p % 256 != 255 ==> (p + 1) % 256 == p % 256 + 1 && LapBit((p + 1) / 256) == LapBit(p / 256)
    ensures p % 256 == 255 ==> (p + 1) % 256 == 0 && LapBit((p + 1) / 256) == !LapBit(p / 256)
  {
    var q, r := p / 256, p % 256;
    if r == 255 {
      Position(p + 1, q + 1, 0);
      NextLap(q);
    } else {
      Position(p + 1, q, r + 1);
    }
    hide LapBit;
  }

  lemma Position(p: nat, lap: nat, slot: nat)
    requires p == 256 * lap + slot && slot < 256
    ensures p / 256 == lap && p % 256 == slot
  {
  }

  lemma NextLap(lap: int)
    ensures LapBit(lap + 1) == !LapBit(lap)
  {
  }

  lemma PushPayload(hist: seq<Trb>, taken: nat, t: Trb, phys: nat)
    requires Linked(hist, phys) && taken <= |hist|
    requires t.kind == LINK <==> |hist| % 256 == 255
    requires t.kind == LINK ==> t.toggle && t.parameter == phys
    ensures Linked(hist + [t], phys)
    ensures Payload(hist + [t]) == Payload(hist) + (if t.kind == LINK then [] else [t])
    ensures (hist + [t])[..taken] == hist[..taken]
  {
    var h := hist + [t];
    assert h[..|h| - 1] == hist;
    forall i: nat | i < |h| ensures LinkedAt(h, phys, i) {
      if i < |hist| {
        assert LinkedAt(hist, phys, i);
      }
    }
  }

  /** One look at the ring: an entry is there exactly when one is unread, and it
      is the next one pushed. */
  lemma FetchStep(ring: seq<Trb>, c: nat, hist: seq<Trb>, phys: nat)
    requires Inv(ring, c, hist) && Linked(hist, phys)
    ensures ring[c % 256].cycle == LapBit(c / 256) <==> c < |hist|
    ensures c == |hist| ==> Payload(hist[..c]) == Payload(hist)
    ensures c < |hist| ==>
      && Inv(ring, c + 1, hist)
      && LinkedAt(hist, phys, c) && ring[c % 256] == hist[c]
      && Payload(hist[..c + 1]) == Payload(hist[..c]) + (if hist[c].kind == LINK then [] else [hist[c]])
      && Payload(hist[..c + 1]) <= Payload(hist)
  {
    hide Written, Holds, Payload, LapBit;
    PollExact(ring, c, hist);
    if c < |hist| {
      assert LinkedAt(hist, phys, c);
      TakeInv(ring, c, hist);
      PayloadStep(hist, c);
      PayloadPrefix(hist, c + 1);
    } else {
      assert hist[..c] == hist;
    }
  }

  // ---- How full a ring may be ----

  /** Up to 253 unread entries always leave room to push, wherever the controller
      stands. */
  lemma FitsWhenFew(hist: seq<Trb>, taken: nat, phys: nat)
    requires Linked(hist, phys) && taken <= |hist| && |hist| % 256 != 255
    requires |Payload(hist)| - |Payload(hist[..taken])| <= 253
    ensures |hist| + (if |hist| % 256 == 254 then 2 else 1) <= taken + TRBS
  {
    forall i: nat | i < taken ensures LinkedAt(hist[..taken], phys, i) {
      assert LinkedAt(hist, phys, i);
    }
    PayloadSize(hist, phys);
    PayloadSize(hist[..taken], phys);
  }

  /** The ring after the slots of a push are written, full or not. */
  function PushSlots(ring: seq<Trb>, p: nat, t: Trb, link: Trb): seq<Trb>
    requires |ring| == TRBS && p % 256 != 255
  {
    if p % 256 == 254 then ring[254 := t][255 := link] else ring[p % 256 := t]
  }

  /** A push into a ring without that room stalls the controller: the slot it
      looks at next no longer carries its cycle, though entries are unread. */
  lemma PushPastFull(ring: seq<Trb>, c: nat, hist: seq<Trb>, t: Trb, link: Trb)
    requires Inv(ring, c, hist) && |hist| % 256 != 255
    requires t.cycle == LapBit(|hist| / 256) && link.cycle == t.cycle
    requires |hist| + (if |hist| % 256 == 254 then 2 else 1) > c + TRBS
    ensures PushSlots(ring, |hist|, t, link)[c % 256].cycle != LapBit(c / 256)
  {
    if |hist| == c + TRBS {
      Overrun(ring, c, hist, t);
    }
    assert |hist| == c + 256 || (|hist| == c + 255 && c % 256 == 255);
  }

  /** The controller past slot 254 but not yet past the link, and 254 entries
      unread: one more push has no room. */
  lemma LinkTakesASlot(hist: seq<Trb>, taken: nat, phys: nat)
    requires Linked(hist, phys) && taken <= |hist|
    requires taken % 256 == 255 && |hist| == taken + 255
    ensures |hist| % 256 == 254 && |Payload(hist)| - |Payload(hist[..taken])| == 254
    ensures |hist| + 2 > taken + TRBS
  {
    forall i: nat | i < taken ensures LinkedAt(hist[..taken], phys, i) {
      assert LinkedAt(hist, phys, i);
    }
    PayloadSize(hist, phys);
    PayloadSize(hist[..taken], phys);
  }

  /** Such a ring is reached: 255 entries pushed and fetched, then 254 pushed while
      the controller still stands before the link. */
  method FillBeforeLink(base: nat) returns (r: TransferRing)
    ensures fresh(r) && r.Valid() && !r.Fits()
    ensures |r.Pushed()| - |r.Fetched()| == 254
  {
    hide CycleRing.Inv, Linked, Payload;
    r := new TransferRing(base);
    NothingYet(r.hist);
    var i := 0;
    while i < 255
      invariant 0 <= i <= 255 && fresh(r) && r.Valid()
      invariant |r.hist| == (if i < 255 then i else 256) && r.taken == 0
      invariant r.taken <= |r.hist| && |r.Pushed()| == i && |r.Fetched()| == 0
    {
      var addr := r.Push(0, 0, 1, 0, false);
      RingBounds(r.trb, r.taken, r.hist);
      i := i + 1;
    }
    i := 0;
    while i < 255
      invariant 0 <= i <= 255 && fresh(r) && r.Valid()
      invariant |r.hist| == 256 && r.taken == i
      invariant r.taken <= |r.hist| && |r.Pushed()| == 255 && |r.Fetched()| == i
    {
      var t := r.Fetch();
      i := i + 1;
    }
    i := 0;
    while i < 254
      invariant 0 <= i <= 254 && fresh(r) && r.Valid()
      invariant |r.hist| == 256 + i && r.taken == 255
      invariant r.taken <= |r.hist| && |r.Pushed()| == 255 + i && |r.Fetched()| == 255
    {
      var addr := r.Push(0, 0, 1, 0, false);
      i := i + 1;
    }
  }

  lemma NothingYet(hist: seq<Trb>)
    requires hist == []
    ensures Payload(hist) == [] && Payload(hist[..0]) == []
  {
  }

  lemma RingBounds(ring: seq<Trb>, c: nat, hist: seq<Trb>)
    requires Inv(ring, c, hist)
    ensures c <= |hist|
  {
  }

  /** The event ring: the controller posts, the driver polls. No links: the ring
      wraps by itself after 256 entries. */
  class EventRing {
    var trb: seq<Trb>
    var eventDequeue: nat
    var eventCycle: bool
    // The controller's side.
    var post: nat
    var postCycle: bool
    ghost var hist: seq<Trb>
    ghost var taken: nat

    ghost predicate Valid()
      reads this
    {
      && Inv(trb, taken, hist)
      && post == |hist| % 256 && postCycle == LapBit(|hist| / 256)
      && eventDequeue == taken % 256 && eventCycle == LapBit(taken / 256)
    }

    constructor ()
      ensures Valid() && hist == [] && taken == 0
    {
      trb := seq(TRBS, _ => Trb(0, 0, 0, 0, false, false));
      eventDequeue, eventCycle, post, postCycle := 0, true, 0, true;
      hist, taken := [], 0;
      new;
      Start(trb);
    }

    method Post(e: Trb)
      requires Valid() && |hist| < taken + TRBS
      modifies this`trb, this`post, this`postCycle, this`hist
      ensures Valid() && hist == old(hist) + [e.(cycle := old(postCycle))]
    {
      hide Written, Holds, LapBit;
      LapStep(|hist|);
      var t := e.(cycle := postCycle);
      PutInv(trb, taken, hist, t);
      trb := trb[post := t];
      hist := hist + [t];
      post := post + 1;
      if post == TRBS {
        post := 0;
        postCycle := !postCycle;
      }
    }

    /** event_current: the oldest event not yet handled, if there is one. */
    method Current() returns (r: Option<Trb>)
      requires Valid()
      ensures r == if taken < |hist| then Some(hist[taken]) else None
    {
      PollExact(trb, taken, hist);
      if trb[eventDequeue].cycle != eventCycle {
        return None;
      }
      return Some(trb[eventDequeue]);
    }

    /** event_advance, after an event has been handled. */
    method Advance()
      requires Valid() && taken < |hist|
      modifies this`eventDequeue, this`eventCycle, this`taken
      ensures Valid() && taken == old(taken) + 1
    {
      hide Written, LapBit;
      LapStep(taken);
      TakeInv(trb, taken, hist);
      eventDequeue := eventDequeue + 1;
      taken := taken + 1;
      if eventDequeue == TRBS {
        eventDequeue := 0;
        eventCycle := !eventCycle;
      }
    }
  }
}
