/** Space on an axiomefs volume: a block is marked used exactly as long as
    something needs it. */
module AxfsLeaks {
  import opened Sequences
  import opened Bitmap
  import opened Axfs
  import opened AxfsInv
  import opened AxfsDir
  import opened AxfsWrite
  import opened AxfsRuns

  ghost predicate HoldsAs(v: Vol, b: nat, k: nat, e: nat)
    requires Sized(v)
  {
    Holds(v, b, k) && Node(v, b).extents[k] == e
  }

  /** Some inode in use has e among its extents. */
  ghost predicate Held(v: Vol, e: nat)
    requires Sized(v)
  {
    exists b: nat, k: nat :: HoldsAs(v, b, k, e)
  }

  /** What a used block is used for: it is one of the first `low`, which the formatter
      reserves, or an inode, or an inode's block. */
  ghost predicate Needed(v: Vol, low: nat, e: nat)
    requires Sized(v)
  {
    e < low || Live(v, e) || Held(v, e)
  }

  /** The reserved blocks are marked used and are nobody's. */
  ghost predicate Reserved(v: Vol, low: nat)
    requires Sized(v)
  {
    forall e: nat :: e < low ==> UsedBit(v, e) && !Live(v, e) && !Held(v, e)
  }

  ghost predicate NoLeaks(v: Vol, low: nat)
    requires Sized(v)
  {
    Reserved(v, low) && forall e: nat :: UsedBit(v, e) ==> Needed(v, low, e)
  }

  /** An inode of r is one of v that may have gained unused blocks, or is new and empty. */
  ghost predicate OldOrNew(v: Vol, r: Vol, b: nat)
    requires Sized(v) && Sized(r) && Live(r, b)
  {
    if Live(v, b) then forall k: nat :: k < |Node(r, b).extents| ==>
      Node(r, b).extents[k] in Node(v, b).extents || !UsedBit(v, Node(r, b).extents[k])
    else !UsedBit(v, b) && Node(r, b).extents == []
  }

  lemma HeldBefore(v: Vol, r: Vol, e: nat)
    requires Sized(v) && Sized(r) && UsedBit(v, e) && Held(r, e)
    requires forall b: nat :: Live(r, b) ==> OldOrNew(v, r, b)
    ensures Held(v, e)
  {
    var b: nat, k: nat :| HoldsAs(r, b, k, e);
    assert OldOrNew(v, r, b);
    var j :| 0 <= j < |Node(v, b).extents| && Node(v, b).extents[j] == e;
    assert HoldsAs(v, b, j, e);
  }

  lemma StillReserved(v: Vol, r: Vol, low: nat)
    requires Sized(v) && Sized(r) && Reserved(v, low)
    requires forall e: nat :: e < low && UsedBit(v, e) ==> UsedBit(r, e)
    requires forall b: nat :: Live(r, b) ==> OldOrNew(v, r, b)
    ensures Reserved(r, low)
  {
    forall e: nat | e < low ensures UsedBit(r, e) && !Live(r, e) && !Held(r, e) {
      assert UsedBit(v, e) && !Live(v, e) && !Held(v, e);
      if Held(r, e) {
        HeldBefore(v, r, e);
      }
    }
  }

  /** A block needed in v stays needed if the inodes of v, but for `gone`, keep their
      extents. */
  lemma StillNeeded(v: Vol, r: Vol, low: nat, gone: nat, e: nat)
    requires Sized(v) && Sized(r) && Needed(v, low, e) && e != gone
    requires forall k: nat :: !HoldsAs(v, gone, k, e)
    requires forall b: nat :: Live(v, b) && b != gone ==> Live(r, b) && Node(v, b).extents <= Node(r, b).extents
    ensures Needed(r, low, e)
  {
    if e >= low && !Live(v, e) {
      var b: nat, k: nat :| HoldsAs(v, b, k, e);
      assert HoldsAs(r, b, k, e);
    }
  }

  // ---- write ----

  lemma AttachLeaks(v: Vol, low: nat, v1: Vol, b: nat, L: nat, e: nat, bytes: seq<bv8>)
    requires Sized(v) && Sized(v1) && Live(v, b) && v1.disk == v.disk && v1.total == v.total && NoLeaks(v, low)
    requires e < v.total && e != b && !Live(v, e) && if L < |Node(v, b).extents| then Node(v, b).extents[L] == e else !UsedBit(v, e)
    requires forall j :: 0 <= j < v.total ==> (Test(v1.bm, j) <==> (Test(v.bm, j) || j == e))
    ensures NoLeaks(Attach(v1, b, L, e, bytes), low)
  {
    hide Bitmap.Test;
    var r := Attach(v1, b, L, e, bytes);
    var k := if L < |Node(v, b).extents| then L else |Node(v, b).extents|;
    assert HoldsAs(r, b, k, e);
    StillReserved(v, r, low);
    forall x: nat | UsedBit(r, x) && x != e ensures Needed(r, low, x) {
      StillNeeded(v, r, low, v.total, x);
    }
  }

  lemma BlockLeaks(v: Vol, low: nat, g: Ledger, b: nat, L: nat, off: nat, buf: seq<bv8>)
    requires FsInv(v, g) && Live(v, b) && !Node(v, b).isDir && FileAt(v, b) && NoLeaks(v, low)
    requires CanStore(v, b, L) && Transfer(L, off, |buf|)
    ensures NoLeaks(WriteBlock(v, b, L, off, buf), low)
  {
    hide Bitmap.Test, Bitmap.FreeCount, Axfs.Alloc, NoLeaks;
    var bytes := Patch(Before(v, b, L), Low(L, off), Piece(L, off, buf));
    AllocFacts(v);
    assert NodeOk(v, g, b);
    if L < |Node(v, b).extents| {
      assert ExtentOk(v, g, b, L);
    }
    var (v1, e) := Backing(v, b, L);
    AttachLeaks(v, low, v1, b, L, e, bytes);
  }

  lemma {:induction false} RangeLeaks(v: Vol, low: nat, g: Ledger, b: nat, L: nat, off: nat, buf: seq<bv8>)
    requires FsInv(v, g) && Live(v, b) && !Node(v, b).isDir && FileAt(v, b) && NoLeaks(v, low)
    requires Transfer(L, off, |buf|) && L <= |Node(v, b).extents| && LastBlock(off, |buf|) < MAX_EXTENTS
    requires FreeCount(v.bm, v.total) >= Need(v, b, LastBlock(off, |buf|))
    ensures NoLeaks(WriteRange(v, b, L, off, buf), low)
    decreases LastBlock(off, |buf|) - L
  {
    hide Axfs.WriteBlock, NoLeaks;
    var r := WriteBlock(v, b, L, off, buf);
    var g' := RoundSpec(v, g, b, L, off, buf);
    BlockLeaks(v, low, g, b, L, off, buf);
    RangeUnfold(v, b, L, off, buf);
    if L < LastBlock(off, |buf|) {
      RangeLeaks(r, low, g', b, L + 1, off, buf);
    }
  }

  lemma WriteLeaks(v: Vol, low: nat, g: Ledger, b: nat, off: nat, buf: seq<bv8>)
    requires FsInv(v, g) && Live(v, b) && !Node(v, b).isDir && FileAt(v, b) && NoLeaks(v, low) && Writable(v, b, off, |buf|)
    ensures NoLeaks(Write(v, b, off, buf), low)
  {
    var w := WriteRange(v, b, off / BLOCK, off, buf);
    var g' := RangeSpec(v, g, b, off / BLOCK, off, buf);
    RangeLeaks(v, low, g, b, off / BLOCK, off, buf);
    var size := if off + |buf| > Node(w, b).size then off + |buf| else Node(w, b).size;
    ResizeLeaks(w, low, b, size);
  }

  lemma ResizeLeaks(v: Vol, low: nat, b: nat, size: nat)
    requires Sized(v) && Live(v, b) && NoLeaks(v, low)
    ensures NoLeaks(Put(v, b, InodeB(Node(v, b).(size := size))), low)
  {
    hide Bitmap.Test;
    var r := Put(v, b, InodeB(Node(v, b).(size := size)));
    StillReserved(v, r, low);
    forall x: nat | UsedBit(r, x) ensures Needed(r, low, x) {
      StillNeeded(v, r, low, v.total, x);
    }
  }

  // ---- create and remove ----

  lemma CreateLeaks(v: Vol, low: nat, g: Ledger, d: nat, name: string, isDir: bool)
    requires FsInv(v, g) && Live(v, d) && Node(v, d).isDir && DirAt(v, d) && name != "" && NoLeaks(v, low)
    requires FreeCount(v.bm, v.total) >= CreateNeed(v, d)
    ensures NoLeaks(Create(v, d, name, isDir), low)
  {
    hide AxfsDir.Create, Bitmap.Test, Axfs.Alloc, AxfsDir.Scan, NoLeaks;
    CreateShape(v, d, name, isDir);
    var r, c, ent, ext := Create(v, d, name, isDir), Alloc(v).1, Dent(Alloc(v).1, isDir, name), Node(v, d).extents;
    assert NodeOk(v, g, d);
    match Scan(v, ext, 0, FreeSlot)
    case Some((k, i)) =>
      assert ExtentOk(v, g, d, k);
      ListedLeaks(v, low, r, d, k, i, c, ent);
    case None =>
      if |ext| < MAX_EXTENTS {
        GrownLeaks(v, low, r, d, Alloc(WithInode(v, isDir)).1, c, ent);
      } else {
        UnlistedLeaks(v, low, r, c, isDir);
      }
  }

  lemma ListedLeaks(v: Vol, low: nat, r: Vol, d: nat, k: nat, i: nat, c: nat, ent: Dent)
    requires Sized(v) && Live(v, d) && k < |Node(v, d).extents| && NoLeaks(v, low) && Listed(v, r, d, k, i, c, ent)
    requires UsedBit(v, Node(v, d).extents[k]) && !Live(v, Node(v, d).extents[k])
    ensures NoLeaks(r, low)
  {
    hide Bitmap.Test;
    StillReserved(v, r, low);
    forall x: nat | UsedBit(r, x) && x != c ensures Needed(r, low, x) {
      StillNeeded(v, r, low, v.total, x);
    }
  }

  lemma GrownLeaks(v: Vol, low: nat, r: Vol, d: nat, e: nat, c: nat, ent: Dent)
    requires Sized(v) && Live(v, d) && NoLeaks(v, low) && Grown(v, r, d, e, c, ent)
    ensures NoLeaks(r, low)
  {
    hide Bitmap.Test;
    assert HoldsAs(r, d, |Node(v, d).extents|, e);
    StillReserved(v, r, low);
    forall x: nat | UsedBit(r, x) && x != c && x != e ensures Needed(r, low, x) {
      StillNeeded(v, r, low, v.total, x);
    }
  }

  lemma UnlistedLeaks(v: Vol, low: nat, r: Vol, c: nat, isDir: bool)
    requires Sized(v) && NoLeaks(v, low) && Unlisted(v, r, c, isDir)
    ensures NoLeaks(r, low)
  {
    hide Bitmap.Test;
    StillReserved(v, r, low);
    forall x: nat | UsedBit(r, x) && x != c ensures Needed(r, low, x) {
      StillNeeded(v, r, low, v.total, x);
    }
  }

  lemma NotReserved(v: Vol, low: nat, c: nat, e: nat)
    requires Sized(v) && Reserved(v, low) && Live(v, c) && (e == c || e in Node(v, c).extents)
    ensures e >= low
  {
    if e in Node(v, c).extents {
      var k: nat :| k < |Node(v, c).extents| && Node(v, c).extents[k] == e;
      assert HoldsAs(v, c, k, e);
      assert Held(v, e);
    }
  }

  lemma DroppedLeaks(v: Vol, low: nat, r: Vol, d: nat, k: nat, i: nat, c: nat)
    requires Sized(v) && Live(v, d) && k < |Node(v, d).extents| && Live(v, c) && Dropped(v, r, d, k, i, c)
    requires NoLeaks(v, low) && forall b: nat :: Live(v, b) && b != c ==> Live(r, b) && r.disk[b] == v.disk[b]
    ensures NoLeaks(r, low)
  {
    hide Bitmap.Test;
    forall e: nat | e < low && UsedBit(v, e) ensures UsedBit(r, e) {
      if e == c || e in Node(v, c).extents { NotReserved(v, low, c, e); }
    }
    StillReserved(v, r, low);
    forall x: nat | UsedBit(r, x) ensures Needed(r, low, x) {
      assert x != c && x !in Node(v, c).extents;
      StillNeeded(v, r, low, c, x);
    }
  }

  lemma RemoveLeaks(v: Vol, low: nat, g: Ledger, d: nat, name: string)
    requires FsInv(v, g) && Live(v, d) && Node(v, d).isDir && DirAt(v, d) && !Dot(name) && NoLeaks(v, low)
    requires FindChild(v, d, name) != 0 ==> Freeable(v, FindChild(v, d, name))
    ensures NoLeaks(Remove(v, d, name), low)
  {
    hide NoLeaks, Bitmap.Test;
    var extents := Node(v, d).extents;
    assert NodeOk(v, g, d);
    match Scan(v, extents, 0, Named(name))
    case None =>
    case Some((k, i)) =>
      assert ExtentOk(v, g, d, k);
      RemoveDrops(v, d, name, k, i);
      var r, c := Remove(v, d, name), FindChild(v, d, name);
      hide AxfsDir.Remove;
      forall b: nat | Live(v, b) && b != c ensures Live(r, b) && r.disk[b] == v.disk[b] {
        DroppedLive(v, g, r, d, k, i, c, b);
      }
      DroppedLeaks(v, low, r, d, k, i, c);
  }

  // ---- runs ----

  lemma StepLeaks(v: Vol, low: nat, op: Op)
    requires Sound(v) && NoLeaks(v, low) && Allowed(v, op)
    ensures NoLeaks(Step(v, op), low)
  {
    hide NoLeaks, Axfs.Write, AxfsDir.Create, AxfsDir.Remove, AllTidy;
    var g :| FsInv(v, g);
    match op
    case DoWrite(b, off, buf) => WriteLeaks(v, low, g, b, off, buf);
    case DoCreate(d, name, isDir) => if name != "" { CreateLeaks(v, low, g, d, name, isDir); } else { CreateNothing(v, d, isDir); }
    case DoRemove(d, name) => RemoveLeaks(v, low, g, d, name);
  }

  lemma CreateNothing(v: Vol, d: nat, isDir: bool)
    requires Sized(v) && DirAt(v, d)
    ensures Create(v, d, "", isDir) == v
  {
  }

  lemma {:induction false} RunLeaks(v: Vol, low: nat, ops: seq<Op>)
    requires Sound(v) && NoLeaks(v, low) && CanRun(v, ops)
    ensures NoLeaks(After(v, ops), low)
    decreases |ops|
  {
    hide NoLeaks, Step, AllTidy, AxfsInv.FsInv;
    if ops != [] {
      StepSound(v, ops[0]);
      StepLeaks(v, low, ops[0]);
      RunLeaks(Step(v, ops[0]), low, ops[1..]);
    }
  }

  /** Over every run of creates, writes and removes a block is marked used exactly
      while it is reserved, an inode, or held by an inode: none is lost. */
  lemma UsedExactly(v: Vol, low: nat, ops: seq<Op>, e: nat)
    requires Sound(v) && NoLeaks(v, low) && CanRun(v, ops)
    ensures var r := After(v, ops); UsedBit(r, e) <==> Needed(r, low, e)
  {
    RunLeaks(v, low, ops);
    RunSound(v, ops);
    var r := After(v, ops);
    var g :| FsInv(r, g);
    Ownership(r, g);
    if Held(r, e) {
      var b: nat, k: nat :| HoldsAs(r, b, k, e);
      assert Holds(r, b, k);
    }
  }

  // ---- how much a remove gives back ----

  lemma {:induction false} FreeAllCount(bm: seq<bv8>, extents: seq<nat>, n: nat, total: nat)
    requires n <= |extents| && total <= 8 * |bm| && NoDup(extents)
    requires forall k :: 0 <= k < |extents| ==> extents[k] < total && Test(bm, extents[k])
    ensures FreeCount(FreeAll(bm, extents, n), total) == FreeCount(bm, total) + n
  {
    hide Bitmap.Test, Bitmap.FreeCount, Bitmap.Clear, AxfsDir.FreeAll;
    FreeAllSteps(bm, extents, n);
    if n > 0 {
      FreeAllCount(bm, extents, n - 1, total);
      var e := extents[n - 1];
      assert e !in extents[..n - 1];
      OneFreed(FreeAll(bm, extents, n - 1), e, total);
    }
  }

  lemma FreeAllSteps(bm: seq<bv8>, extents: seq<nat>, n: nat)
    requires n <= |extents| && forall k :: 0 <= k < n ==> extents[k] < 8 * |bm|
    ensures FreeAll(bm, extents, n) == if n == 0 then bm else Clear(FreeAll(bm, extents, n - 1), extents[n - 1])
  {
  }

  lemma OneFreed(bm: seq<bv8>, e: nat, total: nat)
    requires e < total <= 8 * |bm| && Test(bm, e)
    ensures |Clear(bm, e)| == |bm| && FreeCount(Clear(bm, e), total) == FreeCount(bm, total) + 1
  {
    SetBits(bm, e);
    CountFlip(Clear(bm, e), bm, total, e);
  }

  lemma ExtentsDistinct(v: Vol, g: Ledger, c: nat)
    requires FsInv(v, g) && Live(v, c)
    ensures NoDup(Node(v, c).extents) && c !in Node(v, c).extents
    ensures forall k :: 0 <= k < |Node(v, c).extents| ==> UsedBit(v, Node(v, c).extents[k])
  {
    assert NodeOk(v, g, c);
    NotHeld(v, g, c, c);
    var ext := Node(v, c).extents;
    forall k | 0 <= k < |ext| ensures UsedBit(v, ext[k]) {
      assert ExtentOk(v, g, c, k);
    }
    forall i, j | 0 <= i < j < |ext| ensures ext[i] != ext[j] {
      assert ExtentOk(v, g, c, i) && ExtentOk(v, g, c, j);
    }
  }

  /** Removing a name frees its inode and all its blocks: the free count grows by
      one more than the number of blocks. */
  lemma RemoveFrees(v: Vol, g: Ledger, d: nat, name: string)
    requires FsInv(v, g) && Sized(v) && DirAt(v, d) && FindChild(v, d, name) != 0 && Live(v, FindChild(v, d, name))
    requires Freeable(v, FindChild(v, d, name))
    ensures FreeCount(Remove(v, d, name).bm, v.total)
              == FreeCount(v.bm, v.total) + |Node(v, FindChild(v, d, name)).extents| + 1
  {
    hide Bitmap.Test, AxfsDir.Scan, AxfsInv.FsInv;
    var c := FindChild(v, d, name);
    ExtentsDistinct(v, g, c);
    var extents := Node(v, c).extents;
    FreeAllCount(v.bm, extents, |extents|, v.total);
    assert extents[..|extents|] == extents;
    OneFreed(FreeAll(v.bm, extents, |extents|), c, v.total);
  }
}
