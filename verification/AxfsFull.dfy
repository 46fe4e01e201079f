/** A run of creates that fills a directory, after which one more is not listed. */
module AxfsFull {
  import opened Sequences
  import opened Bitmap
  import opened Axfs
  import opened AxfsInv
  import opened AxfsDir
  import opened AxfsRuns
  import opened AxfsNames
  import opened Paths
  import opened Mkfs
  import opened MkfsImage

  const FULL := 2400  // 160 blocks of 15 entries

  // ---- Names ----

  /** 2500 different two-letter names. */
  function NameOf(n: nat): string
    requires n < 2500
  {
    [(65 + n / 50) as char, (65 + n % 50) as char]
  }

  lemma NamesDiffer(m: nat, n: nat)
    requires m < n < 2500
    ensures NameOf(m) != NameOf(n) && !Dot(NameOf(m)) && !Dot(NameOf(n))
  {
    assert m / 50 != n / 50 || m % 50 != n % 50;
    assert NameOf(m)[0] as int == 65 + m / 50 && NameOf(n)[0] as int == 65 + n / 50;
    assert NameOf(m)[1] as int == 65 + m % 50 && NameOf(n)[1] as int == 65 + n % 50;
    assert NameOf(m)[0] != '.' && NameOf(n)[0] != '.';
  }

  // ---- Directories filled from the front ----

  predicate UsedSlot(v: Vol, e: nat, i: nat)
    requires Sized(v) && ListBlock(v, e) && i < SLOTS
  {
    v.disk[e].slots[i].inode != 0
  }

  /** The first n slots of directory d are used, in as few blocks as hold them. */
  ghost predicate Packed(v: Vol, d: nat, n: nat)
    requires Sized(v)
  {
    && DirAt(v, d) && |v.disk[d].node.extents| == (n + 14) / 15
    && forall k: nat, i: nat :: k < |v.disk[d].node.extents| && i < SLOTS ==> PackedAt(v, d, n, k, i)
  }

  ghost predicate PackedAt(v: Vol, d: nat, n: nat, k: nat, i: nat)
    requires Sized(v) && DirAt(v, d) && k < |v.disk[d].node.extents| && i < SLOTS
  {
    assert ListBlock(v, v.disk[d].node.extents[k]);
    UsedSlot(v, v.disk[d].node.extents[k], i) <==> 15 * k + i < n
  }

  lemma {:induction false} ScanFirst(v: Vol, ext: seq<nat>, k: nat, w: Want, j: nat, i: nat)
    requires Sized(v) && ListBlocks(v, ext) && k <= j < |ext| && i < SLOTS
    requires Scan(v, ext, k, w).Some?
    requires 15 * j + i < 15 * Scan(v, ext, k, w).value.0 + Scan(v, ext, k, w).value.1
    ensures !HitAt(v, ext, j, i, w)
    decreases |ext| - k
  {
    hide AxfsDir.Hit;
    assert ListBlock(v, ext[k]);
    if k < j {
      ScanFirst(v, ext, k + 1, w, j, i);
    }
  }

  lemma NthFree(v: Vol, d: nat, n: nat)
    requires Sized(v) && Packed(v, d, n) && n < 15 * |v.disk[d].node.extents|
    ensures HitAt(v, v.disk[d].node.extents, n / 15, n % 15, FreeSlot)
  {
    assert PackedAt(v, d, n, n / 15, n % 15);
  }

  /** The first free slot of a packed directory is slot n. */
  lemma FreeIsNext(v: Vol, d: nat, n: nat)
    requires Sized(v) && Packed(v, d, n)
    ensures match Scan(v, v.disk[d].node.extents, 0, FreeSlot)
      case Some((k, i)) => 15 * k + i == n
      case None => n == 15 * |v.disk[d].node.extents|
  {
    var ext := v.disk[d].node.extents;
    if n < 15 * |ext| {
      NthFree(v, d, n);
    }
    match Scan(v, ext, 0, FreeSlot)
    case Some((k, i)) =>
      assert PackedAt(v, d, n, k, i);
      if n < 15 * k + i {
        ScanFirst(v, ext, 0, FreeSlot, n / 15, n % 15);
      }
    case None =>
  }

  lemma ListedPacked(v: Vol, r: Vol, d: nat, n: nat, k: nat, i: nat, c: nat, ent: Dent)
    requires Sized(v) && Packed(v, d, n) && k < |Node(v, d).extents| && Listed(v, r, d, k, i, c, ent)
    requires c != 0 && 15 * k + i == n && DirAt(r, d) && Node(r, d) == Node(v, d)
    requires forall a, b :: 0 <= a < b < |Node(v, d).extents| ==> Node(v, d).extents[a] != Node(v, d).extents[b]
    ensures Packed(r, d, n + 1)
  {
    hide Bitmap.Test;
    var ext, n' := Node(v, d).extents, n + 1;
    forall k': nat, i': nat | k' < |ext| && i' < SLOTS ensures PackedAt(r, d, n', k', i') {
      assert PackedAt(v, d, n, k', i') && ListBlock(v, ext[k']) && ListBlock(r, ext[k']);
      assert DirBlock(v, ext[k']);
      if k' != k {
        assert r.disk[ext[k']] == v.disk[ext[k']];
      }
    }
  }

  lemma GrownPacked(v: Vol, r: Vol, d: nat, n: nat, e: nat, c: nat, ent: Dent)
    requires Sized(v) && Packed(v, d, n) && Grown(v, r, d, e, c, ent)
    requires c != 0 && n == 15 * |Node(v, d).extents| && DirAt(r, d)
    ensures Packed(r, d, n + 1)
  {
    hide Bitmap.Test;
    var ext := Node(v, d).extents;
    var ext', n' := ext + [e], n + 1;
    assert r.disk[d].node.extents == ext';
    GrownBlocks(v, r, d, e, c, ent, FreeSlot);
    forall k: nat, i: nat | k < |ext'| && i < SLOTS ensures PackedAt(r, d, n', k, i) {
      assert ListBlock(r, ext'[k]);
      if k < |ext| {
        assert PackedAt(v, d, n, k, i) && ext'[k] == ext[k] && r.disk[ext[k]] == v.disk[ext[k]];
      } else {
        assert ext'[k] == e;
      }
    }
  }

  // ---- Free blocks ----

  lemma OneTaken(bm: seq<bv8>, bm': seq<bv8>, n: nat, c: nat)
    requires |bm'| == |bm| && c < n <= 8 * |bm| && !Test(bm, c)
    requires forall j :: 0 <= j < n ==> (Test(bm', j) <==> (Test(bm, j) || j == c))
    ensures FreeCount(bm', n) == FreeCount(bm, n) - 1
  {
    CountFlip(bm, bm', n, c);
  }

  lemma TwoTaken(bm: seq<bv8>, bm': seq<bv8>, n: nat, c: nat, e: nat)
    requires |bm'| == |bm| && c < n <= 8 * |bm| && e < n && c != e && !Test(bm, c) && !Test(bm, e)
    requires forall j :: 0 <= j < n ==> (Test(bm', j) <==> (Test(bm, j) || j == c || j == e))
    ensures FreeCount(bm', n) == FreeCount(bm, n) - 2
  {
    hide Test;
    SetBits(bm, c);
    OneTaken(bm, Set(bm, c), n, c);
    OneTaken(Set(bm, c), bm', n, e);
  }

  /** One create takes at most two blocks. */
  lemma CreateTakes(v: Vol, d: nat, name: string, isDir: bool)
    requires Sized(v) && DirAt(v, d) && name != "" && FreeCount(v.bm, v.total) >= 2
    ensures FreeCount(Create(v, d, name, isDir).bm, v.total) >= FreeCount(v.bm, v.total) - 2
  {
    CreateShape(v, d, name, isDir);
    hide AxfsDir.Create, Axfs.Alloc, AxfsDir.WithInode, Bitmap.Test, Bitmap.FreeCount, AxfsDir.Scan;
    var r, c, ext := Create(v, d, name, isDir), Alloc(v).1, v.disk[d].node.extents;
    match Scan(v, ext, 0, FreeSlot)
    case Some((k, i)) => OneTaken(v.bm, r.bm, v.total, c);
    case None =>
      if |ext| < MAX_EXTENTS {
        TwoTaken(v.bm, r.bm, v.total, c, Alloc(WithInode(v, isDir)).1);
      } else {
        OneTaken(v.bm, r.bm, v.total, c);
      }
  }

  // ---- Filling ----

  /** Directory d of a sound volume holds n entries, none of them named NameOf(n) or
      later, and there are blocks enough to fill it. */
  ghost predicate Filling(v: Vol, d: nat, n: nat) {
    && Sound(v) && Packed(v, d, n) && n <= FULL
    && FreeCount(v.bm, v.total) > 2 * (FULL - n)
    && (forall m: nat :: n <= m < 2500 ==> Absent(v, d, m))
  }

  ghost predicate Absent(v: Vol, d: nat, m: nat)
    requires Sized(v) && DirAt(v, d) && m < 2500
  {
    FindChild(v, d, NameOf(m)) == 0
  }

  lemma DistinctExtents(v: Vol, g: Ledger, d: nat)
    requires FsInv(v, g) && Live(v, d)
    ensures forall a, b :: 0 <= a < b < |Node(v, d).extents| ==> Node(v, d).extents[a] != Node(v, d).extents[b]
  {
    assert NodeOk(v, g, d);
    forall a, b | 0 <= a < b < |Node(v, d).extents| ensures Node(v, d).extents[a] != Node(v, d).extents[b] {
      assert ExtentOk(v, g, d, a) && ExtentOk(v, g, d, b);
    }
  }

  lemma CreatePacks(v: Vol, g: Ledger, d: nat, n: nat, name: string)
    requires FsInv(v, g) && Packed(v, d, n) && n < FULL && name != "" && FreeCount(v.bm, v.total) >= 2
    ensures Packed(Create(v, d, name, false), d, n + 1)
  {
    var r, c, ent := Create(v, d, name, false), Alloc(v).1, Dent(Alloc(v).1, false, name);
    FreeIsNext(v, d, n);
    CreateShape(v, d, name, false);
    NewInodeLive(v, d, name, false);
    DistinctExtents(v, g, d);
    var g' := CreateInv(v, g, d, name, false);
    SoundDir(r, g', d);
    hide AxfsDir.Create, Axfs.Alloc, AxfsDir.WithInode, Bitmap.Test, Bitmap.FreeCount, AxfsDir.Scan, Packed, AxfsInv.NodeOk;
    var ext := v.disk[d].node.extents;
    match Scan(v, ext, 0, FreeSlot)
    case Some((k, i)) =>
      KeepsNode(v, r, d, k, i, c, ent);
      ListedPacked(v, r, d, n, k, i, c, ent);
    case None =>
      PackedSize(v, d, n);
      GrownPacked(v, r, d, n, Alloc(WithInode(v, false)).1, c, ent);
  }

  lemma KeepsNode(v: Vol, r: Vol, d: nat, k: nat, i: nat, c: nat, ent: Dent)
    requires Sized(v) && DirAt(v, d) && k < |Node(v, d).extents| && Listed(v, r, d, k, i, c, ent) && Live(r, d)
    ensures Node(r, d) == Node(v, d)
  {
    assert DirBlock(v, Node(v, d).extents[k]);
  }

  lemma PackedSize(v: Vol, d: nat, n: nat)
    requires Sized(v) && Packed(v, d, n) && n < FULL && n == 15 * |v.disk[d].node.extents|
    ensures |v.disk[d].node.extents| < MAX_EXTENTS
  {
  }

  /** One more entry. */
  lemma FillStep(v: Vol, d: nat, n: nat)
    requires Filling(v, d, n) && n < FULL
    ensures var op := DoCreate(d, NameOf(n), false);
      Allowed(v, op) && Filling(Step(v, op), d, n + 1)
  {
    hide AxfsDir.Create, Bitmap.Test, Bitmap.FreeCount, AxfsDir.Scan, Packed, AxfsInv.FsInv, AllTidy, NameOf, AxfsDir.FindChild;
    var name, op := NameOf(n), DoCreate(d, NameOf(n), false);
    PackedDir(v, d, n);
    NameNotEmpty(n);
    var r := Create(v, d, name, false);
    var g :| FsInv(v, g);
    StepSound(v, op);
    CreatePacks(v, g, d, n, name);
    CreateTakes(v, d, name, false);
    SameTotal(v, d, name);
    PackedDir(r, d, n + 1);
    ZeroUsed(v, g);
    forall m: nat | n + 1 <= m < 2500 ensures Absent(r, d, m) {
      assert Absent(v, d, n) && Absent(v, d, m);
      NamesDiffer(n, m);
      CreateListsIff(v, d, name, false, NameOf(m));
    }
  }

  lemma PackedDir(v: Vol, d: nat, n: nat)
    requires Sized(v) && Packed(v, d, n)
    ensures DirAt(v, d) && CreateNeed(v, d) <= 2
  {
  }

  lemma NameNotEmpty(n: nat)
    requires n < 2500
    ensures NameOf(n) != ""
  {
  }

  lemma SameTotal(v: Vol, d: nat, name: string)
    requires Sized(v) && DirAt(v, d)
    ensures Create(v, d, name, false).total == v.total
  {
    hide AxfsDir.Scan, Bitmap.Test;
  }

  lemma ZeroUsed(v: Vol, g: Ledger)
    requires FsInv(v, g)
    ensures UsedBit(v, 0)
  {
  }

  lemma FillingSized(v: Vol, d: nat, n: nat)
    requires Filling(v, d, n)
    ensures Sized(v) && n <= FULL
  {
  }

  /** Creates until the directory is full. */
  lemma {:induction false} FillUp(v: Vol, d: nat, n: nat) returns (ops: seq<Op>)
    requires Filling(v, d, n)
    ensures CanRun(v, ops) && Filling(After(v, ops), d, FULL)
    decreases FULL - n
  {
    hide Filling, Allowed, Step;
    if n == FULL {
      ops := [];
      FillingSized(v, d, n);
    } else {
      FillingSized(v, d, n);
      var op := DoCreate(d, NameOf(n), false);
      FillStep(v, d, n);
      var rest := FillUp(Step(v, op), d, n + 1);
      ops := [op] + rest;
      assert ops[1..] == rest;
    }
  }

  // ---- From a newly formatted volume ----

  function RootOnly(): seq<Entry> {
    [Entry("", true, [])]
  }

  lemma RootProper()
    ensures Proper(RootOnly(), MAX_BLOCKS) && Start(RootOnly(), 1) == 7
    ensures Children(RootOnly(), 0, 1) == [] && DataCount(RootOnly(), 0) == 1
  {
    var t := RootOnly();
    assert Parent(t, 0) == -1;
    assert Children(t, 0, 0) == [];
    assert Children(t, 0, 1) == [];
    assert Start(t, 0) == 6;
  }

  lemma {:induction false} CountFrom(bm: seq<bv8>, used: nat, n: nat)
    requires n <= 8 * |bm| && forall j :: 0 <= j < n ==> (Test(bm, j) <==> j < used)
    ensures FreeCount(bm, n) == if n <= used then 0 else n - used
  {
    hide Test;
    if n > 0 {
      CountFrom(bm, used, n - 1);
    }
  }

  lemma RootSlots(k: nat, s: nat)
    requires k < 1 && s < SLOTS
    ensures var d := SlotAt(RootOnly(), 0, k, s);
      (d.inode != 0 <==> s < 2) && (d.inode != 0 ==> Dot(d.name))
  {
    RootProper();
    hide Mkfs.Children, Mkfs.Start, Mkfs.DataCount;
    var l := Listing(RootOnly(), 0);
    assert |l| == 2;
  }

  lemma FreshPacked()
    ensures var v := Image(RootOnly(), MAX_BLOCKS); Sized(v) && Packed(v, v.root, 2)
  {
    hide Mkfs.Image, Mkfs.Start, Mkfs.Children, Mkfs.DataCount, Mkfs.SlotAt, Proper, Bitmap.Test;
    var t := RootOnly();
    RootProper();
    ImageSized(t, MAX_BLOCKS);
    ImageDir(t, MAX_BLOCKS, 0);
    var v := Image(t, MAX_BLOCKS);
    var ext := NodeOf(t, 0).extents;
    assert |ext| == 1;
    forall k: nat, i: nat | k < |ext| && i < SLOTS ensures PackedAt(v, v.root, 2, k, i) {
      RootSlots(k, i);
      assert v.disk[ext[k]] == DataBlock(t, 0, k);
    }
  }

  lemma FreshAbsent(m: nat)
    requires m < 2500
    ensures var v := Image(RootOnly(), MAX_BLOCKS); Sized(v) && DirAt(v, v.root) && Absent(v, v.root, m)
  {
    hide Mkfs.Image, Mkfs.Start, Mkfs.Children, Mkfs.DataCount, Mkfs.SlotAt, Proper, NameOf, AxfsDir.Scan, Bitmap.Test;
    var t := RootOnly();
    RootProper();
    ImageSized(t, MAX_BLOCKS);
    ImageDir(t, MAX_BLOCKS, 0);
    ImageScan(t, MAX_BLOCKS, 0, NameOf(m));
    NotDot(m);
    var v := Image(t, MAX_BLOCKS);
    match Scan(v, NodeOf(t, 0).extents, 0, Named(NameOf(m)))
    case Some((k, i)) => RootSlots(k, i);
    case None =>
  }

  lemma NotDot(m: nat)
    requires m < 2500
    ensures !Dot(NameOf(m))
  {
    if m > 0 {
      NamesDiffer(0, m);
    } else {
      NamesDiffer(0, 1);
    }
  }

  lemma FreshCount()
    ensures var v := Image(RootOnly(), MAX_BLOCKS); Sized(v) && FreeCount(v.bm, v.total) == MAX_BLOCKS - 7
  {
    RootProper();
    ImageSized(RootOnly(), MAX_BLOCKS);
    hide Bitmap.Test, Mkfs.BlockAt, Mkfs.Start;
    CountFrom(FirstBits(7), 7, MAX_BLOCKS);
  }

  lemma FreshFilling()
    ensures var v := Image(RootOnly(), MAX_BLOCKS); Sized(v) && Filling(v, v.root, 2)
  {
    hide Mkfs.Image, Mkfs.Start, Packed, AxfsRuns.Sound, Absent, Proper;
    RootProper();
    ImageSized(RootOnly(), MAX_BLOCKS);
    ImageSound(RootOnly(), MAX_BLOCKS);
    FreshPacked();
    FreshCount();
    forall m: nat | 2 <= m < 2500
      ensures var v := Image(RootOnly(), MAX_BLOCKS); Sized(v) && DirAt(v, v.root) && Absent(v, v.root, m)
    {
      FreshAbsent(m);
    }
  }

  lemma FullHasNoRoom(v: Vol, d: nat)
    requires Filling(v, d, FULL)
    ensures DirAt(v, d) && !HasRoom(v, d) && CreateNeed(v, d) == 1
  {
    FreeIsNext(v, d, FULL);
    hide AxfsDir.Scan, Bitmap.Test;
  }

  /**
   * A formatted volume reaches, by creating files in its root, a state where the
   * root is full: the next create succeeds, with blocks to spare, and leaves a live
   * inode that its name does not lead to.
   */
  lemma FullDirectoryReached() returns (ops: seq<Op>)
    ensures var v := Image(RootOnly(), MAX_BLOCKS);
      && Sized(v) && CanRun(v, ops)
      && var w, name := After(v, ops), NameOf(FULL);
      && Sound(w) && DirAt(w, v.root) && FindChild(w, v.root, name) == 0
      && FreeCount(w.bm, w.total) >= CreateNeed(w, v.root)
      && var r := Create(w, v.root, name, false);
      && ListDir(r, v.root) && FindChild(r, v.root, name) == 0 && Live(r, Alloc(w).1) && !Live(w, Alloc(w).1)
  {
    hide Mkfs.Image, CanRun, After, AxfsDir.Create, AxfsDir.FindChild, AxfsDir.Scan, Packed, Bitmap.Test, Bitmap.FreeCount;
    hide NameOf, Axfs.Alloc, HasRoom, AllTidy, AxfsInv.FsInv, Axfs.Live, AxfsDir.ListDir;
    FreshFilling();
    var v := Image(RootOnly(), MAX_BLOCKS);
    ops := FillUp(v, v.root, 2);
    var w := After(v, ops);
    FullHasNoRoom(w, v.root);
    NameNotEmpty(FULL);
    assert Absent(w, v.root, FULL);
    var g :| FsInv(w, g);
    ZeroUsed(w, g);
    CreateListsIff(w, v.root, NameOf(FULL), false, "");
  }
}
