/**
 * axfs_create under a parent that is a regular file. The code does not look at the
 * parent's type: it reads the file's bytes as directory entries and writes the new
 * entry among them.
 */
module AxfsInFile {
  import opened Sequences
  import opened Bitmap
  import opened Axfs
  import opened AxfsInv
  import opened AxfsDir
  import opened AxfsWrite
  import opened AxfsRuns

  const DENT := 264

  // ---- Entries as bytes ----

  function ByteOf(n: nat): bv8 {
    (n % 256) as bv8
  }

  /** The inode number, the type and the length of the name; two bytes of padding
      and the name follow. */
  function HeadBytes(ent: Dent): (r: seq<bv8>)
    ensures |r| == 6
  {
    [ByteOf(ent.inode), ByteOf(ent.inode / 256), ByteOf(ent.inode / 65536), ByteOf(ent.inode / 16777216),
     if ent.isDir then 2 else 1, ByteOf(|ent.name|)]
  }

  function NameBytes(name: string): (r: seq<bv8>)
    ensures |r| == |name|
  {
    seq(|name|, i requires 0 <= i < |name| => ByteOf(name[i] as int))
  }

  /** Entry i is free: its inode number is zero. */
  predicate FreeEntry(bytes: seq<bv8>, i: nat)
    requires |bytes| == BLOCK && i < SLOTS
  {
    forall j :: 264 * i <= j < 264 * i + 4 ==> bytes[j] == 0
  }

  /** The first free entry from i on, or 15. */
  function FirstFree(bytes: seq<bv8>, i: nat): (r: nat)
    requires |bytes| == BLOCK && i <= SLOTS
    ensures i <= r <= SLOTS && (r < SLOTS ==> FreeEntry(bytes, r))
    decreases SLOTS - i
  {
    if i == SLOTS || FreeEntry(bytes, i) then i else FirstFree(bytes, i + 1)
  }

  function EnterBytes(bytes: seq<bv8>, i: nat, ent: Dent): (r: seq<bv8>)
    requires |bytes| == BLOCK && i < SLOTS && |ent.name| <= 255
    ensures |r| == BLOCK
  {
    Patch(Patch(bytes, 264 * i, HeadBytes(ent)), 264 * i + 8, NameBytes(ent.name))
  }

  /** The scan over a file's blocks for a free entry. */
  function ScanFile(v: Vol, b: nat, k: nat): (r: Option<(nat, nat)>)
    requires Sized(v) && FileAt(v, b) && k <= |v.disk[b].node.extents|
    ensures r.Some? ==> k <= r.value.0 < |v.disk[b].node.extents| && r.value.1 < SLOTS
    decreases |v.disk[b].node.extents| - k
  {
    if k == |v.disk[b].node.extents| then None else
    var i := FirstFree(BlockOf(v, b, k), 0);
    if i < SLOTS then Some((k, i)) else ScanFile(v, b, k + 1)
  }

  // ---- The operation ----

  /** afs_dir_add_entry on a file. */
  function AddToFile(v: Vol, b: nat, ent: Dent): (r: Vol)
    requires Sized(v) && FileAt(v, b) && |ent.name| <= 255
    ensures Sized(r)
  {
    var node := v.disk[b].node;
    match ScanFile(v, b, 0)
    case Some((k, i)) =>
      assert DataAt(v, node.extents[k]);
      Attach(v, b, k, node.extents[k], EnterBytes(BlockOf(v, b, k), i, ent))
    case None =>
      if |node.extents| >= MAX_EXTENTS then v else
      AllocFacts(v);
      var (v1, e) := Alloc(v);
      Attach(v1, b, |node.extents|, e, EnterBytes(Zeros(), 0, ent))
  }

  /** The blocks of a file are in use. */
  ghost predicate HoldsUsed(v: Vol, b: nat)
    requires Sized(v) && FileAt(v, b)
  {
    forall k :: 0 <= k < |v.disk[b].node.extents| ==> 0 < v.disk[b].node.extents[k] && UsedBit(v, v.disk[b].node.extents[k])
  }

  lemma WithInodeFile(v: Vol, b: nat, isDir: bool)
    requires Sized(v) && FileAt(v, b) && HoldsUsed(v, b)
    ensures var r := WithInode(v, isDir);
      FileAt(r, b) && r.disk[b] == v.disk[b] && forall k :: 0 <= k < |v.disk[b].node.extents| ==> BlockOf(r, b, k) == BlockOf(v, b, k)
  {
    AllocFacts(v);
    hide Bitmap.Test, Bitmap.FreeCount, Axfs.Alloc;
    var r, ext := WithInode(v, isDir), v.disk[b].node.extents;
    forall k | 0 <= k < |ext| ensures DataAt(r, ext[k]) && r.disk[ext[k]] == v.disk[ext[k]] {
      assert DataAt(v, ext[k]) && UsedBit(v, ext[k]);
    }
    assert FileAt(r, b);
  }

  /** axfs_create with file b as the parent. */
  ghost function CreateInFile(v: Vol, b: nat, name: string, isDir: bool): (r: Vol)
    requires Sized(v) && FileAt(v, b) && HoldsUsed(v, b) && |name| <= 255
    ensures Sized(r)
  {
    if name == "" then v else
    WithInodeFile(v, b, isDir);
    AddToFile(WithInode(v, isDir), b, Dent(Alloc(v).1, isDir, name))
  }

  /** The blocks it takes: the inode, and one more if no entry of the file is free. */
  function FileNeed(v: Vol, b: nat): nat
    requires Sized(v) && FileAt(v, b)
  {
    if ScanFile(v, b, 0).None? && |v.disk[b].node.extents| < MAX_EXTENTS then 2 else 1
  }

  lemma {:induction false} ScanFileSame(v: Vol, r: Vol, b: nat, k: nat)
    requires Sized(v) && FileAt(v, b) && Sized(r) && FileAt(r, b) && r.disk[b] == v.disk[b] && k <= |v.disk[b].node.extents|
    requires forall j :: 0 <= j < |v.disk[b].node.extents| ==> BlockOf(r, b, j) == BlockOf(v, b, j)
    ensures ScanFile(r, b, k) == ScanFile(v, b, k)
    decreases |v.disk[b].node.extents| - k
  {
    hide Axfs.BlockOf, FirstFree, FreeEntry;
    if k < |v.disk[b].node.extents| {
      ScanFileSame(v, r, b, k + 1);
    }
  }

  lemma SoundHolds(v: Vol, g: Ledger, b: nat)
    requires FsInv(v, g) && Live(v, b) && FileAt(v, b)
    ensures HoldsUsed(v, b) && |Node(v, b).extents| <= MAX_EXTENTS
  {
    assert NodeOk(v, g, b);
    forall k | 0 <= k < |Node(v, b).extents|
      ensures 0 < Node(v, b).extents[k] && UsedBit(v, Node(v, b).extents[k])
    {
      assert ExtentOk(v, g, b, k);
    }
  }

  /** r has the inodes of v and c; all but b are untouched, and b is still a file. */
  ghost predicate OnlyFile(v: Vol, r: Vol, b: nat, c: nat)
    requires Sized(v) && Sized(r)
  {
    && Live(r, c) && !Live(v, c)
    && (forall d :: Live(r, d) ==> Live(v, d) || d == c)
    && (forall d :: Live(v, d) && d != b ==> Untouched(v, r, d))
    && Live(r, b) && FileAt(r, b)
    && r.root == v.root && r.total == v.total
  }

  /** The inode half: a live inode that nothing lists. */
  lemma InodeHalf(v: Vol, g: Ledger, isDir: bool)
    requires FsInv(v, g) && FreeCount(v.bm, v.total) > 0
    ensures var v1, c := WithInode(v, isDir), Alloc(v).1;
      && FsInv(v1, g) && c < v.total && !UsedBit(v, c) && Live(v1, c) && Node(v1, c) == Inode(isDir, 0, [])
      && (forall d :: Live(v1, d) ==> Live(v, d) || d == c)
      && (forall d :: Live(v, d) ==> Untouched(v, v1, d))
      && v1.total == v.total && v1.root == v.root && v1.disk == v.disk[c := InodeB(Inode(isDir, 0, []))]
      && FreeCount(v1.bm, v.total) == FreeCount(v.bm, v.total) - 1
  {
    SoundDir(v, g, v.root);
    WithInodeScan(v, v.root, isDir);
    var v1, c := WithInode(v, isDir), Alloc(v).1;
    hide Bitmap.Test, Bitmap.FreeCount, Axfs.Alloc, AxfsDir.Scan, AxfsDir.WithInode;
    assert Unlisted(v, v1, c, isDir);
    UnlistedInv(v, g, v1, v.root, c, isDir);
    forall d | Live(v, d) ensures Untouched(v, v1, d) {
      assert NodeOk(v, g, d);
      forall j | 0 <= j < |Node(v, d).extents| ensures SameBlock(v, v1, Node(v, d).extents[j]) {
        assert ExtentOk(v, g, d, j);
      }
    }
  }

  /** The entry half, on a volume where the inode is in place. */
  lemma EntryHalf(v: Vol, g: Ledger, b: nat, ent: Dent) returns (g': Ledger)
    requires FsInv(v, g) && Live(v, b) && !Node(v, b).isDir && FileAt(v, b) && |ent.name| <= 255
    requires FreeCount(v.bm, v.total) >= FileNeed(v, b) - 1
    ensures var r := AddToFile(v, b, ent);
      FsInv(r, g') && SameInodes(v, r, b) && FileAt(r, b) && r.root == v.root && r.total == v.total
  {
    hide Bitmap.Test, Bitmap.FreeCount, Axfs.Alloc, EnterBytes, Axfs.BlockOf, ScanFile;
    var ext := v.disk[b].node.extents;
    match ScanFile(v, b, 0)
    case Some((k, i)) =>
      var bytes := EnterBytes(BlockOf(v, b, k), i, ent);
      OverwriteInv(v, g, b, k, bytes);
      assert ExtentOk(v, g, b, k);
      AttachFile(v, v, b, k, ext[k], bytes);
      g' := g;
    case None =>
      if |ext| < MAX_EXTENTS {
        var bytes := EnterBytes(Zeros(), 0, ent);
        AllocFacts(v);
        AppendInv(v, g, b, |ext|, bytes);
        var (v1, e) := Alloc(v);
        AttachFile(v, v1, b, |ext|, e, bytes);
        g' := g.(owner := g.owner[e := (b, |ext|)]);
      } else {
        forall c | Live(v, c) ensures Untouched(v, v, c) { UntouchedSelf(v, g, c); }
        g' := g;
      }
  }

  /** Blocks are still owned once and every other inode keeps what it holds: only
      the file that stood in for a directory changes, and the new inode is listed
      nowhere. */
  lemma InFileInv(v: Vol, g: Ledger, b: nat, name: string, isDir: bool) returns (g': Ledger)
    requires FsInv(v, g) && Live(v, b) && !Node(v, b).isDir && FileAt(v, b) && HoldsUsed(v, b)
    requires 0 < |name| <= 255 && FreeCount(v.bm, v.total) >= FileNeed(v, b)
    ensures var r := CreateInFile(v, b, name, isDir); FsInv(r, g') && OnlyFile(v, r, b, Alloc(v).1)
    ensures Node(CreateInFile(v, b, name, isDir), Alloc(v).1) == Inode(isDir, 0, [])
  {
    var v1, c := WithInode(v, isDir), Alloc(v).1;
    InodeHalf(v, g, isDir);
    WithInodeFile(v, b, isDir);
    ScanFileSame(v, v1, b, 0);
    hide AxfsDir.WithInode, Axfs.Alloc, ScanFile, AddToFile, Bitmap.Test, Bitmap.FreeCount, Axfs.BlockOf;
    g' := EntryHalf(v1, g, b, Dent(c, isDir, name));
    var r := CreateInFile(v, b, name, isDir);
    assert r == AddToFile(v1, b, Dent(c, isDir, name));
    assert Untouched(v1, r, c);
    forall d | Live(v, d) && d != b ensures Untouched(v, r, d) {
      TwiceUntouched(v, v1, r, d);
    }
  }

  lemma TwiceUntouched(v: Vol, u: Vol, r: Vol, d: nat)
    requires Sized(v) && Sized(u) && Sized(r) && Live(v, d) && Untouched(v, u, d) && Untouched(u, r, d)
    ensures Untouched(v, r, d)
  {
    forall k | 0 <= k < |Node(v, d).extents| ensures SameBlock(v, r, Node(v, d).extents[k]) {
      assert SameBlock(v, u, Node(v, d).extents[k]) && SameBlock(u, r, Node(u, d).extents[k]);
    }
  }

  // ---- What happens to the file's bytes ----

  predicate FileHasRoom(v: Vol, b: nat)
    requires Sized(v) && FileAt(v, b)
  {
    ScanFile(v, b, 0).Some? || |v.disk[b].node.extents| < MAX_EXTENTS
  }

  /** Where in the file the entry goes. */
  function EntryPlace(v: Vol, b: nat): nat
    requires Sized(v) && FileAt(v, b)
  {
    match ScanFile(v, b, 0)
    case Some((k, i)) => 4096 * k + 264 * i
    case None => 4096 * |v.disk[b].node.extents|
  }

  /** Byte x of an entry at o, over the byte that was there. */
  function Entered(ent: Dent, o: nat, x: nat, was: bv8): bv8 {
    if o <= x < o + 6 then HeadBytes(ent)[x - o]
    else if o + 8 <= x < o + 8 + |ent.name| then NameBytes(ent.name)[x - o - 8]
    else was
  }

  lemma EnterBytesAt(bytes: seq<bv8>, i: nat, ent: Dent, j: nat)
    requires |bytes| == BLOCK && i < SLOTS && |ent.name| <= 255 && j < BLOCK
    ensures EnterBytes(bytes, i, ent)[j] == Entered(ent, 264 * i, j, bytes[j])
  {
    hide HeadBytes, NameBytes;
  }

  lemma EnteredShift(ent: Dent, k: nat, o: nat, x: nat, was: bv8)
    ensures Entered(ent, 4096 * k + o, 4096 * k + x, was) == Entered(ent, o, x, was)
  {
    hide HeadBytes, NameBytes;
  }

  /** An entry stays within its block. */
  lemma EnteredElsewhere(ent: Dent, k: nat, i: nat, x: nat, was: bv8)
    requires i < SLOTS && |ent.name| <= 255 && x / 4096 != k
    ensures Entered(ent, 4096 * k + 264 * i, x, was) == was
  {
  }

  lemma EntryHalfBytes(v: Vol, g: Ledger, b: nat, ent: Dent, x: nat)
    requires FsInv(v, g) && Live(v, b) && !Node(v, b).isDir && FileAt(v, b) && |ent.name| <= 255
    requires FreeCount(v.bm, v.total) >= FileNeed(v, b) - 1 && FileHasRoom(v, b)
    ensures FileAt(AddToFile(v, b, ent), b)
    ensures ByteAt(AddToFile(v, b, ent), b, x) == Entered(ent, EntryPlace(v, b), x, ByteAt(v, b, x))
    ensures Live(AddToFile(v, b, ent), b) && Node(AddToFile(v, b, ent), b).size == Node(v, b).size
  {
    hide Bitmap.Test, Bitmap.FreeCount, Axfs.Alloc, EnterBytes, ScanFile, Entered, AxfsWrite.ByteAt, Axfs.Attach, Axfs.BlockOf;
    match ScanFile(v, b, 0)
    case Some((k, i)) => EntryOver(v, g, b, k, i, ent, x);
    case None => EntryGrow(v, g, b, ent, x);
  }

  lemma EntryOver(v: Vol, g: Ledger, b: nat, k: nat, i: nat, ent: Dent, x: nat)
    requires FsInv(v, g) && Live(v, b) && !Node(v, b).isDir && FileAt(v, b) && |ent.name| <= 255
    requires k < |Node(v, b).extents| && i < SLOTS
    ensures Node(v, b).extents[k] < v.total
    ensures var r := Attach(v, b, k, Node(v, b).extents[k], EnterBytes(BlockOf(v, b, k), i, ent));
      && FileAt(r, b) && Live(r, b) && Node(r, b).size == Node(v, b).size
      && ByteAt(r, b, x) == Entered(ent, 4096 * k + 264 * i, x, ByteAt(v, b, x))
  {
    hide Bitmap.Test, EnterBytes, Entered, AxfsWrite.ByteAt, Axfs.BlockOf, AxfsInv.DirOk;
    var ext := Node(v, b).extents;
    assert NodeOk(v, g, b) && ExtentOk(v, g, b, k);
    forall j | 0 <= j < |ext| && j != k ensures ext[j] != ext[k] {
      assert ExtentOk(v, g, b, j);
    }
    var was := BlockOf(v, b, k);
    AttachBytes(v, v, b, k, ext[k], EnterBytes(was, i, ent), x);
    PlacedBytes(v, b, k, i, was, ent, x);
  }

  lemma EntryGrow(v: Vol, g: Ledger, b: nat, ent: Dent, x: nat)
    requires FsInv(v, g) && Live(v, b) && !Node(v, b).isDir && FileAt(v, b) && |ent.name| <= 255
    requires FreeCount(v.bm, v.total) > 0
    ensures var (v1, e) := Alloc(v);
      && Sized(v1) && b < v1.total && v1.disk[b].InodeB? && e < v1.total
      && var r := Attach(v1, b, |Node(v, b).extents|, e, EnterBytes(Zeros(), 0, ent));
      && FileAt(r, b) && Live(r, b) && Node(r, b).size == Node(v, b).size
      && ByteAt(r, b, x) == Entered(ent, 4096 * |Node(v, b).extents|, x, ByteAt(v, b, x))
  {
    hide Bitmap.Test, Bitmap.FreeCount, Axfs.Alloc, EnterBytes, Entered, AxfsWrite.ByteAt, Axfs.BlockOf, AxfsInv.DirOk;
    var ext := Node(v, b).extents;
    AllocFacts(v);
    var (v1, e) := Alloc(v);
    assert NodeOk(v, g, b);
    forall j | 0 <= j < |ext| ensures ext[j] != e {
      assert ExtentOk(v, g, b, j);
    }
    AttachBytes(v, v1, b, |ext|, e, EnterBytes(Zeros(), 0, ent), x);
    PlacedBytes(v, b, |ext|, 0, Zeros(), ent, x);
  }

  /** Block k with an entry in slot i, seen as bytes of the file. */
  lemma PlacedBytes(v: Vol, b: nat, k: nat, i: nat, was: seq<bv8>, ent: Dent, x: nat)
    requires Sized(v) && FileAt(v, b) && k <= |v.disk[b].node.extents| && i < SLOTS && |ent.name| <= 255 && |was| == BLOCK
    requires was == if k < |v.disk[b].node.extents| then BlockOf(v, b, k) else Zeros()
    ensures (if x / BLOCK == k then EnterBytes(was, i, ent)[x % BLOCK] else ByteAt(v, b, x))
         == Entered(ent, 4096 * k + 264 * i, x, ByteAt(v, b, x))
  {
    hide Entered, EnterBytes, Axfs.BlockOf;
    if x / BLOCK == k {
      EnterBytesAt(was, i, ent, x % BLOCK);
      EnteredShift(ent, k, 264 * i, x % BLOCK, was[x % BLOCK]);
      assert x == 4096 * k + x % BLOCK;
    } else {
      EnteredElsewhere(ent, k, i, x, ByteAt(v, b, x));
    }
  }

  /** Every byte of the file after the create: those of the entry where it landed,
      and otherwise what was there. The size stays. */
  lemma InFileBytes(v: Vol, g: Ledger, b: nat, name: string, isDir: bool, x: nat)
    requires FsInv(v, g) && Live(v, b) && !Node(v, b).isDir && FileAt(v, b) && HoldsUsed(v, b)
    requires 0 < |name| <= 255 && FreeCount(v.bm, v.total) >= FileNeed(v, b) && FileHasRoom(v, b)
    ensures var r, ent := CreateInFile(v, b, name, isDir), Dent(Alloc(v).1, isDir, name);
      && FileAt(r, b) && Live(r, b) && Node(r, b).size == Node(v, b).size
      && ByteAt(r, b, x) == Entered(ent, EntryPlace(v, b), x, ByteAt(v, b, x))
  {
    hide *;
    SoundSized(v, g);
    NeedsOne(v, b);
    var v1, ent := WithInode(v, isDir), Dent(Alloc(v).1, isDir, name);
    InodeHalf(v, g, isDir);
    WithInodeFile(v, b, isDir);
    SamePlaces(v, v1, b, x);
    CreateIs(v, b, name, isDir);
    EntryHalfBytes(v1, g, b, ent, x);
  }

  lemma CreateIs(v: Vol, b: nat, name: string, isDir: bool)
    requires Sized(v) && FileAt(v, b) && HoldsUsed(v, b) && 0 < |name| <= 255
    ensures FileAt(WithInode(v, isDir), b)
    ensures CreateInFile(v, b, name, isDir) == AddToFile(WithInode(v, isDir), b, Dent(Alloc(v).1, isDir, name))
  {
    hide AxfsDir.WithInode, Axfs.Alloc, AddToFile;
    WithInodeFile(v, b, isDir);
  }

  /** The inode half leaves the file as it was. */
  lemma SamePlaces(v: Vol, r: Vol, b: nat, x: nat)
    requires Sized(v) && FileAt(v, b) && Sized(r) && FileAt(r, b) && r.disk[b] == v.disk[b]
    requires forall j :: 0 <= j < |v.disk[b].node.extents| ==> BlockOf(r, b, j) == BlockOf(v, b, j)
    ensures FileNeed(r, b) == FileNeed(v, b) && EntryPlace(r, b) == EntryPlace(v, b)
    ensures FileHasRoom(r, b) <==> FileHasRoom(v, b)
    ensures ByteAt(r, b, x) == ByteAt(v, b, x)
    ensures Live(r, b) && Live(v, b) && Node(r, b) == Node(v, b)
  {
    ScanFileSame(v, r, b, 0);
    hide ScanFile, Axfs.BlockOf;
  }

  /** No file survives it: its contents change, or bytes past its size are no longer
      zero and would surface when it grows. The contents change for certain when the
      entry's inode number falls inside them, for it was zero before. */
  lemma InFileCorrupts(v: Vol, g: Ledger, b: nat, name: string, isDir: bool)
    requires FsInv(v, g) && Live(v, b) && !Node(v, b).isDir && FileAt(v, b) && HoldsUsed(v, b)
    requires 0 < |name| <= 255 && FreeCount(v.bm, v.total) >= FileNeed(v, b) && FileHasRoom(v, b)
    ensures var r := CreateInFile(v, b, name, isDir);
      && FileAt(r, b) && (Content(r, b) != Content(v, b) || !Tidy(r, b))
      && (EntryPlace(v, b) + 4 <= Node(v, b).size ==> Content(r, b) != Content(v, b))
  {
    hide *;
    SoundSized(v, g);
    var r, ent, o := CreateInFile(v, b, name, isDir), Dent(Alloc(v).1, isDir, name), EntryPlace(v, b);
    NeedsOne(v, b);
    NumberShows(v, g);
    var j := HeadShows(ent, o);
    WasZero(v, b, j);
    InFileBytes(v, g, b, name, isDir, o + j);
    if o + j < Node(v, b).size {
      ContentDiffers(v, r, b, o + j);
    } else {
      NotTidy(r, b, o + j);
    }
  }

  lemma NotTidy(v: Vol, b: nat, x: nat)
    requires Sized(v) && FileAt(v, b) && Live(v, b) && Node(v, b).size <= x && ByteAt(v, b, x) != 0
    ensures !Tidy(v, b)
  {
    hide AxfsWrite.ByteAt;
  }

  lemma HeadShows(ent: Dent, o: nat) returns (j: nat)
    requires ByteOf(ent.inode) != 0 || ByteOf(ent.inode / 256) != 0
    ensures j < 4 && Entered(ent, o, o + j, 0) != 0
  {
    j := if ByteOf(ent.inode) != 0 then 0 else 1;
    hide ByteOf;
  }

  lemma SoundSized(v: Vol, g: Ledger)
    requires FsInv(v, g)
    ensures Sized(v) && 3 <= v.total
  {
  }

  lemma ContentDiffers(v: Vol, r: Vol, b: nat, x: nat)
    requires Sized(v) && FileAt(v, b) && Sized(r) && FileAt(r, b) && Live(v, b) && Live(r, b)
    requires x < Node(v, b).size == Node(r, b).size
    requires ByteAt(r, b, x) != ByteAt(v, b, x)
    ensures Content(r, b) != Content(v, b)
  {
    hide AxfsWrite.ByteAt;
    assert Content(r, b)[x] == ByteAt(r, b, x) && Content(v, b)[x] == ByteAt(v, b, x);
  }

  lemma NeedsOne(v: Vol, b: nat)
    requires Sized(v) && FileAt(v, b)
    ensures FileNeed(v, b) > 0
  {
  }

  /** A new inode number is not zero in its first two bytes: volumes are small. */
  lemma NumberShows(v: Vol, g: Ledger)
    requires FsInv(v, g) && FreeCount(v.bm, v.total) > 0
    ensures var c := Alloc(v).1; ByteOf(c) != 0 || ByteOf(c / 256) != 0
  {
    hide Axfs.Alloc, Bitmap.Test, Bitmap.FreeCount, ByteOf, AxfsInv.NodeOk;
    AllocFacts(v);
    var c := Alloc(v).1;
    assert c != 0 && c < 32768;
    ByteZero(c);
    ByteZero(c / 256);
  }

  lemma ByteZero(n: nat)
    ensures ByteOf(n) == 0 <==> n % 256 == 0
  {
  }

  lemma WasZero(v: Vol, b: nat, j: nat)
    requires Sized(v) && FileAt(v, b) && j < 4
    ensures ByteAt(v, b, EntryPlace(v, b) + j) == 0
  {
    hide ScanFile, Axfs.BlockOf, FreeEntry;
    ScanFileFree(v, b, 0);
    match ScanFile(v, b, 0)
    case Some((k, i)) =>
      InBlock(k, 264 * i + j);
      FreeIsZero(BlockOf(v, b, k), i, j);
    case None => InBlock(|v.disk[b].node.extents|, j);
  }

  lemma FreeIsZero(bytes: seq<bv8>, i: nat, j: nat)
    requires |bytes| == BLOCK && i < SLOTS && FreeEntry(bytes, i) && j < 4
    ensures bytes[264 * i + j] == 0
  {
  }

  lemma InBlock(k: nat, x: nat)
    requires x < 4096
    ensures (4096 * k + x) / 4096 == k && (4096 * k + x) % 4096 == x
  {
  }

  lemma {:induction false} ScanFileFree(v: Vol, b: nat, k: nat)
    requires Sized(v) && FileAt(v, b) && k <= |v.disk[b].node.extents|
    ensures match ScanFile(v, b, k)
      case Some((j, i)) => FreeEntry(BlockOf(v, b, j), i)
      case None => true
    decreases |v.disk[b].node.extents| - k
  {
    hide Axfs.BlockOf, FirstFree, FreeEntry;
    if k < |v.disk[b].node.extents| {
      ScanFileFree(v, b, k + 1);
    }
  }
}
