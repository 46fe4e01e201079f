/** The physical frame allocator of kernel/pmm.c over its packed bitmap. */
module Pmm {
  import opened Bitmap

  const PAGE_SIZE := 4096

  /** Frames [start, start + count) are all free. */
  ghost predicate FreeRun(bm: seq<bv8>, start: nat, count: nat)
    requires start + count <= 8 * |bm|
  {
    forall j :: start <= j < start + count ==> !Test(bm, j)
  }

  /** bm' is bm with exactly the frames [start, start + count) taken. */
  ghost predicate Taken(bm: seq<bv8>, bm': seq<bv8>, start: nat, count: nat)
    requires start + count <= 8 * |bm|
  {
    && |bm'| == |bm|
    && forall j :: 0 <= j < 8 * |bm| ==> (Test(bm', j) <==> (Test(bm, j) || start <= j < start + count))
  }

  /** The frame a search starting at `hint` looks at after k others. */
  function Probe(hint: nat, k: nat, total: nat): (f: nat)
    requires hint <= total && k < total
    ensures f < total
  {
    if hint + k < total then hint + k else hint + k - total
  }

  lemma ProbeIsRemainder(hint: nat, k: nat, total: nat)
    requires hint <= total && k < total
    ensures (hint + k) % total == Probe(hint, k, total)
  {
    DivModUnique(hint + k, total, if hint + k < total then 0 else 1, Probe(hint, k, total));
  }

  /** Frame f is free and the first free one the wrapping search meets. */
  ghost predicate FirstMet(bm: seq<bv8>, hint: nat, total: nat, k: nat, f: nat)
    requires 0 < total <= 8 * |bm| && hint <= total
  {
    && k < total && f == Probe(hint, k, total) && !Test(bm, f)
    && forall i :: 0 <= i < k ==> Test(bm, Probe(hint, i, total))
  }

  class FrameAllocator {
    const bitmap: array<bv8>
    const total: nat
    var freeFrames: nat
    var nextHint: nat

    ghost predicate Valid()
      reads this, bitmap
    {
      && total <= 8 * bitmap.Length && nextHint <= total
      && freeFrames == FreeCount(bitmap[..], total)
    }

    /** Frame 0 is used, so that address 0 can mean failure. */
    ghost predicate ZeroTaken()
      reads this, bitmap
      requires total <= 8 * bitmap.Length
    {
      total > 0 ==> Test(bitmap[..], 0)
    }

    constructor (bytes: array<bv8>, frames: nat, free: nat)
      requires frames <= 8 * bytes.Length && free == FreeCount(bytes[..], frames)
      ensures Valid() && bitmap == bytes && total == frames
    {
      bitmap, total, freeFrames, nextHint := bytes, frames, free, 0;
    }

    /** bm_test. */
    method BmTest(frame: nat) returns (b: bool)
      requires frame < 8 * bitmap.Length
      ensures b == Test(bitmap[..], frame)
    {
      b := bitmap[frame / 8] & Mask(frame % 8) != 0;
    }

    /** bm_set. */
    method BmSet(frame: nat)
      requires frame < 8 * bitmap.Length
      modifies bitmap
      ensures bitmap[..] == Set(old(bitmap[..]), frame)
    {
      bitmap[frame / 8] := bitmap[frame / 8] | Mask(frame % 8);
    }

    /** bm_clear. */
    method BmClear(frame: nat)
      requires frame < 8 * bitmap.Length
      modifies bitmap
      ensures bitmap[..] == Clear(old(bitmap[..]), frame)
    {
      bitmap[frame / 8] := bitmap[frame / 8] & !Mask(frame % 8);
    }

    /** pmm_alloc_frame: the first free frame at or after the hint, wrapping round.
        While frame 0 is used it fails exactly when every frame is used; a free
        frame 0 is handed out as address 0, which callers take for failure. */
    method AllocFrame() returns (addr: nat)
      requires Valid()
      modifies this`freeFrames, this`nextHint, bitmap
      ensures Valid() && (old(ZeroTaken()) ==> ZeroTaken())
      ensures old(ZeroTaken()) ==> (addr == 0 <==> forall j :: 0 <= j < total ==> Test(old(bitmap[..]), j))
      ensures (forall j :: 0 <= j < total ==> Test(old(bitmap[..]), j)) ==>
        addr == 0 && bitmap[..] == old(bitmap[..]) && freeFrames == old(freeFrames)
      ensures (exists j :: 0 <= j < total && !Test(old(bitmap[..]), j)) ==>
        var f := addr / PAGE_SIZE;
        && addr == f * PAGE_SIZE && f < total
        && (exists k :: FirstMet(old(bitmap[..]), old(nextHint), total, k, f))
        && Taken(old(bitmap[..]), bitmap[..], f, 1) && freeFrames == old(freeFrames) - 1
    {
      hide Bitmap.Test, Bitmap.FreeCount;
      var i := ProbeFree(nextHint);
      if i == total { return 0; }
      var idx := Probe(nextHint, i, total);
      assert FirstMet(bitmap[..], nextHint, total, i, idx);
      TakeOne(idx);
      nextHint := idx + 1;
      return idx * PAGE_SIZE;
    }

    method TakeOne(idx: nat)
      requires Valid() && idx < total && !Test(bitmap[..], idx)
      modifies this`freeFrames, bitmap
      ensures Valid() && Taken(old(bitmap[..]), bitmap[..], idx, 1) && freeFrames == old(freeFrames) - 1
    {
      SetBits(bitmap[..], idx);
      BmSet(idx);
      CountFlip(old(bitmap[..]), bitmap[..], total, idx);
      freeFrames := freeFrames - 1;
    }

    /** The search loop of pmm_alloc_frame; `total` means that nothing is free. */
    method ProbeFree(start: nat) returns (i: nat)
      requires total <= 8 * bitmap.Length && start <= total
      ensures i <= total
      ensures i < total ==> FirstMet(bitmap[..], start, total, i, Probe(start, i, total))
      ensures i == total ==> forall j :: 0 <= j < total ==> Test(bitmap[..], j)
    {
      i := 0;
      while i < total
        invariant i <= total
        invariant forall k :: 0 <= k < i ==> Test(bitmap[..], Probe(start, k, total))
      {
        ProbeIsRemainder(start, i, total);
        var used := BmTest((start + i) % total);
        if !used { return; }
        i := i + 1;
      }
      forall j | 0 <= j < total ensures Test(bitmap[..], j) {
        assert Probe(start, if j >= start then j - start else j + total - start, total) == j;
      }
    }

    /** There is a run of `count` free frames. */
    ghost predicate HasRun(count: nat)
      reads this, bitmap
      requires total <= 8 * bitmap.Length
    {
      count > 0 && exists f :: 0 <= f && f + count <= total && FreeRun(bitmap[..], f, count)
    }

    /** pmm_alloc_frames: the lowest run of `count` free frames, although the search
        skips over whole runs. While frame 0 is used it fails exactly when there is
        no such run. */
    method AllocFrames(count: nat) returns (addr: nat)
      requires Valid()
      modifies this`freeFrames, bitmap
      ensures Valid() && (old(ZeroTaken()) ==> ZeroTaken())
      ensures old(ZeroTaken()) ==> (addr == 0 <==> !old(HasRun(count)))
      ensures !old(HasRun(count)) ==> addr == 0 && bitmap[..] == old(bitmap[..]) && freeFrames == old(freeFrames)
      ensures old(HasRun(count)) ==>
        var f := addr / PAGE_SIZE;
        && addr == f * PAGE_SIZE && f + count <= total && FreeRun(old(bitmap[..]), f, count)
        && (forall g :: 0 <= g < f ==> !FreeRun(old(bitmap[..]), g, count))
        && Taken(old(bitmap[..]), bitmap[..], f, count) && freeFrames == old(freeFrames) - count
    {
      hide Bitmap.Test, Bitmap.FreeCount;
      if count == 0 { return 0; }
      var start := 0;
      while start + count <= total
        invariant bitmap[..] == old(bitmap[..]) && freeFrames == old(freeFrames)
        invariant forall g :: 0 <= g < start && g + count <= total ==> !FreeRun(bitmap[..], g, count)
        decreases total - start
      {
        start := SkipUsed(start, count);
        if start + count > total { break; }
        var run := MeasureRun(start, count);
        if run >= count {
          TakeRun(start, count);
          return start * PAGE_SIZE;
        }
        assert forall g :: start <= g <= start + run && g + count <= total ==> !FreeRun(bitmap[..], g, count);
        start := start + run + 1;
      }
      return 0;
    }

    /** The inner scan over used frames: no free run starts where it passed. */
    method SkipUsed(from: nat, count: nat) returns (start: nat)
      requires Valid() && from <= total && count > 0
      requires forall g :: 0 <= g < from && g + count <= total ==> !FreeRun(bitmap[..], g, count)
      ensures from <= start <= total && (start < total ==> !Test(bitmap[..], start))
      ensures forall g :: 0 <= g < start && g + count <= total ==> !FreeRun(bitmap[..], g, count)
    {
      start := from;
      while start < total
        invariant from <= start <= total
        invariant forall g :: 0 <= g < start && g + count <= total ==> !FreeRun(bitmap[..], g, count)
      {
        var used := BmTest(start);
        if !used { break; }
        assert start + count <= total ==> !FreeRun(bitmap[..], start, count);
        start := start + 1;
      }
    }

    /** The inner scan over free frames, stopping at `count` of them. */
    method MeasureRun(start: nat, count: nat) returns (run: nat)
      requires Valid() && start + count <= total
      ensures run <= count && FreeRun(bitmap[..], start, run)
      ensures run < count ==> Test(bitmap[..], start + run)
    {
      run := 0;
      while start + run < total && run < count
        invariant run <= count && FreeRun(bitmap[..], start, run)
      {
        var used := BmTest(start + run);
        if used { break; }
        run := run + 1;
      }
    }

    method TakeRun(start: nat, count: nat)
      requires Valid() && start + count <= total && FreeRun(bitmap[..], start, count)
      modifies this`freeFrames, bitmap
      ensures Valid() && freeFrames == old(freeFrames) - count
      ensures Taken(old(bitmap[..]), bitmap[..], start, count)
    {
      hide Bitmap.Test, Bitmap.FreeCount;
      ghost var was := bitmap[..];
      for j := 0 to count
        invariant Taken(was, bitmap[..], start, j) && freeFrames == old(freeFrames)
        invariant FreeCount(bitmap[..], total) == FreeCount(was, total) - j
      {
        ghost var mid := bitmap[..];
        SetBits(mid, start + j);
        BmSet(start + j);
        CountFlip(mid, bitmap[..], total, start + j);
      }
      freeFrames := freeFrames - count;
    }

    /** pmm_free_frame: clears a used frame in range, frame 0 too, and ignores any
        other address. */
    method FreeFrame(addr: nat)
      requires Valid()
      modifies this`freeFrames, bitmap
      ensures Valid() && (old(ZeroTaken()) && total > 0 ==> (ZeroTaken() <==> addr / PAGE_SIZE != 0))
      ensures var f := addr / PAGE_SIZE;
        && Released(old(bitmap[..]), bitmap[..], f, 1, total)
        && freeFrames == old(freeFrames) + if f < total && Test(old(bitmap[..]), f) then 1 else 0
    {
      var frame := addr / PAGE_SIZE;
      if frame < total {
        var used := BmTest(frame);
        if used {
          SetBits(bitmap[..], frame);
          BmClear(frame);
          CountFlip(bitmap[..], old(bitmap[..]), total, frame);
          freeFrames := freeFrames + 1;
        }
      }
    }

    /** pmm_free_frames: as pmm_free_frame, for each frame of the range. */
    method FreeFrames(addr: nat, count: nat)
      requires Valid()
      modifies this`freeFrames, bitmap
      ensures Valid() && Released(old(bitmap[..]), bitmap[..], addr / PAGE_SIZE, count, total)
    {
      var start := addr / PAGE_SIZE;
      for i := 0 to count
        invariant Valid() && Released(old(bitmap[..]), bitmap[..], start, i, total)
      {
        var f := start + i;
        if f < total {
          var used := BmTest(f);
          if used {
            ghost var mid := bitmap[..];
            SetBits(mid, f);
            BmClear(f);
            CountFlip(bitmap[..], mid, total, f);
            freeFrames := freeFrames + 1;
          }
        }
      }
    }
  }

  /** bm' is bm with the frames of [start, start + count) below `total` released. */
  ghost predicate Released(bm: seq<bv8>, bm': seq<bv8>, start: nat, count: nat, total: nat) {
    && |bm'| == |bm|
    && forall j :: 0 <= j < 8 * |bm| ==> (Test(bm', j) <==> (Test(bm, j) && !(start <= j < start + count && j < total)))
  }

  /** Freeing what an allocation returned puts back the very same bitmap. */
  lemma AllocThenFree(bm: seq<bv8>, bm': seq<bv8>, bm'': seq<bv8>, start: nat, count: nat, total: nat)
    requires start + count <= total <= 8 * |bm| && FreeRun(bm, start, count)
    requires Taken(bm, bm', start, count) && Released(bm', bm'', start, count, total)
    ensures bm'' == bm
  {
    SameBits(bm'', bm);
  }

  lemma DivModUnique(n: nat, d: nat, q: nat, r: nat)
    requires r < d && n == q * d + r
    ensures n % d == r
  {
    var x := q - n / d;
    assert n == n / d * d + n % d;
    assert x * d == n % d - r;
    MulFar(x, d);
  }

  lemma MulFar(x: int, d: int)
    requires d > 0
    ensures x >= 1 ==> x * d >= d
    ensures x <= -1 ==> x * d <= -d
  {
  }
}
