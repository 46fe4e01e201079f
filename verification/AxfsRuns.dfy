/** Every sequence of creates, writes and removes keeps an axiomefs volume sound. */
module AxfsRuns {
  import opened Sequences
  import opened Bitmap
  import opened Axfs
  import opened AxfsInv
  import opened AxfsDir
  import opened AxfsWrite

  lemma SoundDir(v: Vol, g: Ledger, d: nat)
    requires FsInv(v, g) && Live(v, d) && Node(v, d).isDir
    ensures DirAt(v, d)
  {
    assert NodeOk(v, g, d);
    forall k | 0 <= k < |v.disk[d].node.extents| ensures DirBlock(v, v.disk[d].node.extents[k]) {
      assert ExtentOk(v, g, d, k);
    }
  }

  /** r is v with one more, empty inode; apart from directory d nothing else moved. */
  ghost predicate NewInode(v: Vol, r: Vol, d: nat, isDir: bool)
    requires Sized(v) && Sized(r)
  {
    && Live(r, d) && Node(r, d).isDir
    && (forall b :: Live(r, b) && !Live(v, b) ==> Node(r, b) == Inode(isDir, 0, []))
    && (forall b :: Live(v, b) && b != d ==> Untouched(v, r, b))
  }

  // ---- filling a slot ----

  /** A new inode c, and an existing directory block e (extent k of d) with slot i naming it. */
  ghost predicate Listed(v: Vol, r: Vol, d: nat, k: nat, i: nat, c: nat, ent: Dent)
    requires Sized(v) && Live(v, d) && k < |Node(v, d).extents|
  {
    var e := Node(v, d).extents[k];
    && Sized(r) && r.total == v.total && r.root == v.root
    && c < v.total && e < v.total && !UsedBit(v, c) && ent.inode == c && i < SLOTS
    && v.disk[e].DirB? && |v.disk[e].slots| == SLOTS
    && r.disk == v.disk[c := InodeB(Inode(ent.isDir, 0, []))][e := DirB(v.disk[e].slots[i := ent])]
    && forall j :: 0 <= j < v.total ==> (Test(r.bm, j) <==> (Test(v.bm, j) || j == c))
  }

  function Enter(g: Ledger, c: nat, place: (nat, nat, nat)): Ledger {
    g.(entry := g.entry[c := place])
  }

  lemma ListedOther(v: Vol, g: Ledger, r: Vol, d: nat, k: nat, i: nat, c: nat, ent: Dent, b: nat)
    requires FsInv(v, g) && Live(v, d) && k < |Node(v, d).extents| && ExtentOk(v, g, d, k) && Listed(v, r, d, k, i, c, ent)
    requires Live(v, b) && b != d
    ensures Untouched(v, r, b) && NodeOk(r, Enter(g, c, (d, k, i)), b)
  {
    var g' := Enter(g, c, (d, k, i));
    assert NodeOk(v, g, b);
    forall j | 0 <= j < |Node(v, b).extents|
      ensures SameBlock(v, r, Node(v, b).extents[j]) && Vouched(g, g', Node(v, b).extents[j])
    {
      assert ExtentOk(v, g, b, j);
    }
    NodeKept(v, g, r, g', b);
  }

  lemma ListedSelf(v: Vol, g: Ledger, r: Vol, d: nat, k: nat, i: nat, c: nat, ent: Dent)
    requires FsInv(v, g) && Live(v, d) && Node(v, d).isDir && k < |Node(v, d).extents| && ExtentOk(v, g, d, k)
    requires Listed(v, r, d, k, i, c, ent) && 3 <= c
    ensures Live(r, d) && Node(r, d) == Node(v, d) && NodeOk(r, Enter(g, c, (d, k, i)), d)
  {
    var g' := Enter(g, c, (d, k, i));
    assert NodeOk(v, g, d);
    forall j | 0 <= j < |Node(r, d).extents| ensures ExtentOk(r, g', d, j) {
      assert ExtentOk(v, g, d, j);
      var e := Node(v, d).extents[j];
      forall s | 0 <= s < SLOTS ensures SlotOk(r, g', d, j, s, r.disk[e].slots[s]) {
        assert SlotOk(v, g, d, j, s, v.disk[e].slots[s]);
      }
    }
  }

  lemma ListedInv(v: Vol, g: Ledger, r: Vol, d: nat, k: nat, i: nat, c: nat, ent: Dent)
    requires FsInv(v, g) && Live(v, d) && Node(v, d).isDir && k < |Node(v, d).extents| && ExtentOk(v, g, d, k)
    requires Listed(v, r, d, k, i, c, ent)
    ensures FsInv(r, Enter(g, c, (d, k, i)))
    ensures NewInode(v, r, d, ent.isDir)
  {
    var g' := Enter(g, c, (d, k, i));
    ListedSelf(v, g, r, d, k, i, c, ent);
    forall b | Live(r, b) ensures NodeOk(r, g', b) {
      if b != c && b != d { ListedOther(v, g, r, d, k, i, c, ent, b); }
    }
    forall b | Live(v, b) && b != d ensures Untouched(v, r, b) {
      ListedOther(v, g, r, d, k, i, c, ent, b);
    }
    if v.root != d { ListedOther(v, g, r, d, k, i, c, ent, v.root); }
  }

  // ---- growing a directory ----

  /** A new inode c, and a new block e, entered as d's last extent, whose slot 0 names it. */
  ghost predicate Grown(v: Vol, r: Vol, d: nat, e: nat, c: nat, ent: Dent)
    requires Sized(v) && Live(v, d)
  {
    && Sized(r) && r.total == v.total && r.root == v.root
    && c < v.total && e < v.total && c != e && !UsedBit(v, c) && !UsedBit(v, e) && ent.inode == c
    && r.disk == v.disk[c := InodeB(Inode(ent.isDir, 0, []))][e := DirB(EmptySlots()[0 := ent])]
                       [d := InodeB(Node(v, d).(extents := Node(v, d).extents + [e]))]
    && forall j :: 0 <= j < v.total ==> (Test(r.bm, j) <==> (Test(v.bm, j) || j == c || j == e))
  }

  function Grow(g: Ledger, c: nat, e: nat, d: nat, n: nat): Ledger {
    Ledger(g.owner[e := (d, n)], g.entry[c := (d, n, 0)])
  }

  lemma GrownOther(v: Vol, g: Ledger, r: Vol, d: nat, e: nat, c: nat, ent: Dent, b: nat)
    requires FsInv(v, g) && Live(v, d) && Grown(v, r, d, e, c, ent) && Live(v, b) && b != d
    ensures Untouched(v, r, b) && NodeOk(r, Grow(g, c, e, d, |Node(v, d).extents|), b)
  {
    var g' := Grow(g, c, e, d, |Node(v, d).extents|);
    assert NodeOk(v, g, b);
    NotHeld(v, g, d, b);
    forall j | 0 <= j < |Node(v, b).extents|
      ensures SameBlock(v, r, Node(v, b).extents[j]) && Vouched(g, g', Node(v, b).extents[j])
    {
      assert ExtentOk(v, g, b, j);
    }
    NodeKept(v, g, r, g', b);
  }

  lemma GrownSelf(v: Vol, g: Ledger, r: Vol, d: nat, e: nat, c: nat, ent: Dent)
    requires FsInv(v, g) && Live(v, d) && Node(v, d).isDir && |Node(v, d).extents| < MAX_EXTENTS
    requires Grown(v, r, d, e, c, ent)
    ensures Live(r, d) && Node(r, d).isDir && NodeOk(r, Grow(g, c, e, d, |Node(v, d).extents|), d)
  {
    var n := |Node(v, d).extents|;
    var g' := Grow(g, c, e, d, n);
    assert NodeOk(v, g, d);
    NotHeld(v, g, d, d);
    forall j | 0 <= j < |Node(r, d).extents| ensures ExtentOk(r, g', d, j) {
      var x := Node(r, d).extents[j];
      if j < n {
        assert ExtentOk(v, g, d, j);
        forall s | 0 <= s < SLOTS ensures SlotOk(r, g', d, j, s, r.disk[x].slots[s]) {
          assert SlotOk(v, g, d, j, s, v.disk[x].slots[s]);
        }
      } else {
        forall s | 0 <= s < SLOTS ensures SlotOk(r, g', d, j, s, r.disk[x].slots[s]) {
        }
      }
    }
  }

  lemma GrownInv(v: Vol, g: Ledger, r: Vol, d: nat, e: nat, c: nat, ent: Dent)
    requires FsInv(v, g) && Live(v, d) && Node(v, d).isDir && |Node(v, d).extents| < MAX_EXTENTS
    requires Grown(v, r, d, e, c, ent)
    ensures FsInv(r, Grow(g, c, e, d, |Node(v, d).extents|))
    ensures NewInode(v, r, d, ent.isDir)
  {
    GrownSelf(v, g, r, d, e, c, ent);
    forall b | Live(r, b) ensures NodeOk(r, Grow(g, c, e, d, |Node(v, d).extents|), b) {
      if b != c && b != d { GrownOther(v, g, r, d, e, c, ent, b); }
    }
    forall b | Live(v, b) && b != d ensures Untouched(v, r, b) {
      GrownOther(v, g, r, d, e, c, ent, b);
    }
    if v.root != d { GrownOther(v, g, r, d, e, c, ent, v.root); }
  }

  /** A new inode that could not be listed, in a directory with no room left. */
  ghost predicate Unlisted(v: Vol, r: Vol, c: nat, isDir: bool)
    requires Sized(v)
  {
    && Sized(r) && r.total == v.total && r.root == v.root && c < v.total && !UsedBit(v, c)
    && r.disk == v.disk[c := InodeB(Inode(isDir, 0, []))]
    && forall j :: 0 <= j < v.total ==> (Test(r.bm, j) <==> (Test(v.bm, j) || j == c))
  }

  lemma UnlistedInv(v: Vol, g: Ledger, r: Vol, d: nat, c: nat, isDir: bool)
    requires FsInv(v, g) && Live(v, d) && Node(v, d).isDir && Unlisted(v, r, c, isDir)
    ensures FsInv(r, g) && NewInode(v, r, d, isDir)
  {
    forall b | Live(v, b) ensures Untouched(v, r, b) && NodeOk(r, g, b) {
      assert NodeOk(v, g, b);
      forall j | 0 <= j < |Node(v, b).extents|
        ensures SameBlock(v, r, Node(v, b).extents[j]) && Vouched(g, g, Node(v, b).extents[j])
      {
        assert ExtentOk(v, g, b, j);
      }
      NodeKept(v, g, r, g, b);
    }
  }

  // ---- create ----

  /** The blocks a create takes: the inode, and a directory block if every slot is in use. */
  function CreateNeed(v: Vol, d: nat): nat
    requires Sized(v) && DirAt(v, d)
  {
    var extents := v.disk[d].node.extents;
    if Scan(v, extents, 0, FreeSlot).None? && |extents| < MAX_EXTENTS then 2 else 1
  }

  lemma ScanFrame(v: Vol, r: Vol, extents: seq<nat>, k: nat, w: Want)
    requires Sized(v) && Sized(r) && DirBlocks(v, extents) && DirBlocks(r, extents) && k <= |extents|
    requires forall j :: 0 <= j < |extents| ==> DirBlock(v, extents[j]) && r.disk[extents[j]] == v.disk[extents[j]]
    ensures Scan(r, extents, k, w) == Scan(v, extents, k, w)
    decreases |extents| - k
  {
    if k < |extents| {
      assert DirBlock(v, extents[k]);
      ScanFrame(v, r, extents, k + 1, w);
    }
  }

  /** The new inode goes to a free block, so the directory reads as before. */
  lemma WithInodeScan(v: Vol, d: nat, isDir: bool)
    requires Sized(v) && DirAt(v, d) && FreeCount(v.bm, v.total) > 0
    ensures var v1, c, extents := WithInode(v, isDir), Alloc(v).1, v.disk[d].node.extents;
      && Sized(v1) && DirAt(v1, d) && c < v.total && !UsedBit(v, c)
      && v1.disk == v.disk[c := InodeB(Inode(isDir, 0, []))] && v1.disk[d] == v.disk[d]
      && (forall j :: 0 <= j < v.total ==> (Test(v1.bm, j) <==> (Test(v.bm, j) || j == c)))
      && (forall j :: 0 <= j < |extents| ==> extents[j] < v.total && v1.disk[extents[j]] == v.disk[extents[j]])
      && FreeCount(v1.bm, v.total) == FreeCount(v.bm, v.total) - 1
      && (forall w :: Scan(v1, extents, 0, w) == Scan(v, extents, 0, w))
  {
    AllocFacts(v);
    var v1 := WithInode(v, isDir);
    WithInodeDir(v, d, isDir);
    var extents := v.disk[d].node.extents;
    hide Bitmap.FreeCount, AxfsDir.Scan;
    assert forall j :: 0 <= j < |extents| ==> DirBlock(v, extents[j]) && v1.disk[extents[j]] == v.disk[extents[j]];
    forall w ensures Scan(v1, extents, 0, w) == Scan(v, extents, 0, w) {
      ScanFrame(v, v1, extents, 0, w);
    }
  }

  lemma CreateListed(v: Vol, d: nat, name: string, isDir: bool, k: nat, i: nat)
    requires Sized(v) && DirAt(v, d) && name != "" && FreeCount(v.bm, v.total) > 0
    requires Scan(v, v.disk[d].node.extents, 0, FreeSlot) == Some((k, i))
    ensures Listed(v, Create(v, d, name, isDir), d, k, i, Alloc(v).1, Dent(Alloc(v).1, isDir, name))
  {
    WithInodeScan(v, d, isDir);
    assert DirBlock(v, v.disk[d].node.extents[k]);
    hide Axfs.Alloc, Bitmap.FreeCount, AxfsDir.Scan, AxfsDir.WithInode, Bitmap.Test;
  }

  lemma CreateGrown(v: Vol, d: nat, name: string, isDir: bool)
    requires Sized(v) && DirAt(v, d) && name != "" && FreeCount(v.bm, v.total) >= 2
    requires Scan(v, v.disk[d].node.extents, 0, FreeSlot).None? && |v.disk[d].node.extents| < MAX_EXTENTS
    ensures Sized(WithInode(v, isDir))
    ensures Grown(v, Create(v, d, name, isDir), d, Alloc(WithInode(v, isDir)).1, Alloc(v).1, Dent(Alloc(v).1, isDir, name))
  {
    WithInodeScan(v, d, isDir);
    var v1, ent := WithInode(v, isDir), Dent(Alloc(v).1, isDir, name);
    AllocFacts(v1);
    AddEntryGrows(v1, d, ent);
    assert Create(v, d, name, isDir) == AddEntry(v1, d, ent);
    hide Axfs.Alloc, Bitmap.FreeCount, AxfsDir.Scan, AxfsDir.WithInode, Bitmap.Test, AxfsDir.AddEntry, AxfsDir.Create, Grown;
    GrownFrom(v, v1, AddEntry(v1, d, ent), d, Alloc(v1).1, ent);
  }

  /** Inode first, directory block second. */
  lemma GrownFrom(v: Vol, v1: Vol, r: Vol, d: nat, e: nat, ent: Dent)
    requires Sized(v) && Live(v, d) && Sized(v1) && Sized(r) && ent.inode < v.total && !UsedBit(v, ent.inode)
    requires v1.disk == v.disk[ent.inode := InodeB(Inode(ent.isDir, 0, []))] && v1.total == v.total && v1.root == v.root
    requires forall j :: 0 <= j < v.total ==> (Test(v1.bm, j) <==> (Test(v.bm, j) || j == ent.inode))
    requires e < v.total && !Test(v1.bm, e) && r.total == v.total && r.root == v.root && v1.disk[d] == v.disk[d]
    requires r.disk == v1.disk[e := DirB(EmptySlots()[0 := ent])]
                              [d := InodeB(Node(v, d).(extents := Node(v, d).extents + [e]))]
    requires forall j :: 0 <= j < v.total ==> (Test(r.bm, j) <==> (Test(v1.bm, j) || j == e))
    ensures Grown(v, r, d, e, ent.inode, ent)
  {
    hide Bitmap.Test;
  }

  lemma AddEntryGrows(v: Vol, d: nat, ent: Dent)
    requires Sized(v) && DirAt(v, d) && Alloc(v).1 < v.total
    requires Scan(v, v.disk[d].node.extents, 0, FreeSlot).None? && |v.disk[d].node.extents| < MAX_EXTENTS
    ensures var r, node, e := AddEntry(v, d, ent), v.disk[d].node, Alloc(v).1;
      && r.bm == Alloc(v).0.bm && r.total == v.total && r.root == v.root
      && r.disk == v.disk[e := DirB(EmptySlots()[0 := ent])][d := InodeB(node.(extents := node.extents + [e]))]
  {
    hide AxfsDir.Scan, Bitmap.Test;
  }

  lemma CreateUnlisted(v: Vol, d: nat, name: string, isDir: bool)
    requires Sized(v) && DirAt(v, d) && name != "" && FreeCount(v.bm, v.total) > 0
    requires Scan(v, v.disk[d].node.extents, 0, FreeSlot).None? && |v.disk[d].node.extents| >= MAX_EXTENTS
    ensures Unlisted(v, Create(v, d, name, isDir), Alloc(v).1, isDir)
  {
    WithInodeScan(v, d, isDir);
    hide Axfs.Alloc, Bitmap.FreeCount, AxfsDir.Scan, AxfsDir.WithInode, Bitmap.Test;
  }

  /** What axfs_create does to the disk, in each of its three cases. */
  lemma CreateShape(v: Vol, d: nat, name: string, isDir: bool)
    requires Sized(v) && DirAt(v, d) && name != "" && FreeCount(v.bm, v.total) >= CreateNeed(v, d)
    ensures var r, c, ent := Create(v, d, name, isDir), Alloc(v).1, Dent(Alloc(v).1, isDir, name);
      match Scan(v, v.disk[d].node.extents, 0, FreeSlot)
      case Some((k, i)) => Listed(v, r, d, k, i, c, ent)
      case None =>
        if |v.disk[d].node.extents| < MAX_EXTENTS
        then Sized(WithInode(v, isDir)) && Grown(v, r, d, Alloc(WithInode(v, isDir)).1, c, ent)
        else Unlisted(v, r, c, isDir)
  {
    hide AxfsDir.Create, Axfs.Alloc, AxfsDir.WithInode, Listed, Grown, Unlisted, Bitmap.FreeCount, AxfsDir.Scan;
    match Scan(v, v.disk[d].node.extents, 0, FreeSlot)
    case Some((k, i)) => CreateListed(v, d, name, isDir, k, i);
    case None =>
      if |v.disk[d].node.extents| < MAX_EXTENTS {
        CreateGrown(v, d, name, isDir);
      } else {
        CreateUnlisted(v, d, name, isDir);
      }
  }

  /** axfs_create keeps the volume sound when the blocks it needs are free. */
  lemma CreateInv(v: Vol, g: Ledger, d: nat, name: string, isDir: bool) returns (g': Ledger)
    requires FsInv(v, g) && Live(v, d) && Node(v, d).isDir && DirAt(v, d) && name != ""
    requires FreeCount(v.bm, v.total) >= CreateNeed(v, d)
    ensures FsInv(Create(v, d, name, isDir), g') && NewInode(v, Create(v, d, name, isDir), d, isDir)
  {
    hide AxfsDir.Create, Axfs.Alloc, AxfsDir.WithInode;
    CreateShape(v, d, name, isDir);
    var r, c, ent, extents := Create(v, d, name, isDir), Alloc(v).1, Dent(Alloc(v).1, isDir, name), Node(v, d).extents;
    assert NodeOk(v, g, d);
    match Scan(v, extents, 0, FreeSlot)
    case Some((k, i)) =>
      assert ExtentOk(v, g, d, k);
      g' := Enter(g, c, (d, k, i));
      ListedInv(v, g, r, d, k, i, c, ent);
    case None =>
      if |extents| < MAX_EXTENTS {
        var e := Alloc(WithInode(v, isDir)).1;
        g' := Grow(g, c, e, d, |extents|);
        GrownInv(v, g, r, d, e, c, ent);
      } else {
        g' := g;
        UnlistedInv(v, g, r, d, c, isDir);
      }
  }

  /** With fewer free blocks than that, the create overwrites the superblock. */
  lemma CreateOnFullVolume(v: Vol, g: Ledger, d: nat, name: string, isDir: bool)
    requires FsInv(v, g) && Live(v, d) && Node(v, d).isDir && DirAt(v, d) && name != ""
    requires FreeCount(v.bm, v.total) < CreateNeed(v, d)
    ensures Create(v, d, name, isDir).disk[0] != SuperB
  {
    var v1, ent := WithInode(v, isDir), Dent(Alloc(v).1, isDir, name);
    WithInodeDir(v, d, isDir);
    if FreeCount(v.bm, v.total) == 0 {
      AllocFacts(v);
      assert v1.disk[0].InodeB?;
      AddEntryKeeps(v1, d, ent);
    } else {
      WithInodeScan(v, d, isDir);
      AllocFacts(v1);
      AddEntryGrows(v1, d, ent);
    }
    hide AxfsDir.AddEntry, AxfsDir.Scan, AxfsDir.WithInode, Axfs.Alloc, Bitmap.Test, Bitmap.FreeCount;
  }

  lemma AddEntryKeeps(v: Vol, d: nat, ent: Dent)
    requires Sized(v) && DirAt(v, d) && v.disk[0] != SuperB
    ensures AddEntry(v, d, ent).disk[0] != SuperB
  {
    AllocFacts(v);
    hide AxfsDir.Scan, Bitmap.Test;
  }

  /** axfs_create keeps the volume sound exactly when the blocks it needs are free. */
  lemma CreateSoundIff(v: Vol, g: Ledger, d: nat, name: string, isDir: bool)
    requires FsInv(v, g) && Live(v, d) && Node(v, d).isDir && DirAt(v, d) && name != ""
    ensures (exists g' :: FsInv(Create(v, d, name, isDir), g')) <==> FreeCount(v.bm, v.total) >= CreateNeed(v, d)
  {
    hide AxfsDir.Create;
    if FreeCount(v.bm, v.total) >= CreateNeed(v, d) {
      var g' := CreateInv(v, g, d, name, isDir);
    } else {
      CreateOnFullVolume(v, g, d, name, isDir);
    }
  }

  // ---- remove ----

  /** Slot i of extent k of d, which named c, is freed; c and its blocks are released. */
  ghost predicate Dropped(v: Vol, r: Vol, d: nat, k: nat, i: nat, c: nat)
    requires Sized(v) && Live(v, d) && k < |Node(v, d).extents| && Live(v, c)
  {
    var e := Node(v, d).extents[k];
    && Sized(r) && r.total == v.total && r.root == v.root && i < SLOTS && e < v.total
    && v.disk[e].DirB? && |v.disk[e].slots| == SLOTS && v.disk[e].slots[i].inode == c
    && (exists ent: Dent :: ent.inode == 0 && r.disk == v.disk[e := DirB(v.disk[e].slots[i := ent])])
    && forall j :: 0 <= j < v.total ==> (Test(r.bm, j) <==> (Test(v.bm, j) && j != c && j !in Node(v, c).extents))
  }

  /** Everything but the removed inode stays live. */
  lemma DroppedLive(v: Vol, g: Ledger, r: Vol, d: nat, k: nat, i: nat, c: nat, b: nat)
    requires FsInv(v, g) && Live(v, d) && Node(v, d).isDir && k < |Node(v, d).extents| && Live(v, c)
    requires Dropped(v, r, d, k, i, c) && ExtentOk(v, g, d, k)
    requires Live(v, b) && b != c
    ensures Live(r, b) && r.disk[b] == v.disk[b]
  {
    NotHeld(v, g, b, c);
  }

  lemma DroppedNode(v: Vol, g: Ledger, r: Vol, d: nat, k: nat, i: nat, c: nat, b: nat)
    requires FsInv(v, g) && Live(v, d) && Node(v, d).isDir && k < |Node(v, d).extents| && Live(v, c)
    requires Dropped(v, r, d, k, i, c) && ExtentOk(v, g, d, k) && c in g.entry && g.entry[c] == (d, k, i)
    requires Live(v, b) && b != c
    ensures Live(r, b) && NodeOk(r, g, b) && (b != d ==> Untouched(v, r, b))
  {
    DroppedLive(v, g, r, d, k, i, c, b);
    assert NodeOk(v, g, b) && NodeOk(v, g, c);
    forall j | 0 <= j < |Node(v, b).extents|
      ensures ExtentOk(r, g, b, j) && (b != d ==> SameBlock(v, r, Node(v, b).extents[j]))
    {
      DroppedExtent(v, g, r, d, k, i, c, b, j);
    }
  }

  lemma DroppedExtent(v: Vol, g: Ledger, r: Vol, d: nat, k: nat, i: nat, c: nat, b: nat, j: nat)
    requires FsInv(v, g) && Live(v, d) && Node(v, d).isDir && k < |Node(v, d).extents| && Live(v, c)
    requires Dropped(v, r, d, k, i, c) && ExtentOk(v, g, d, k) && c in g.entry && g.entry[c] == (d, k, i)
    requires Live(v, b) && b != c && Live(r, b) && r.disk[b] == v.disk[b] && j < |Node(v, b).extents|
    ensures ExtentOk(r, g, b, j) && (b != d ==> SameBlock(v, r, Node(v, b).extents[j]))
  {
    assert NodeOk(v, g, b) && ExtentOk(v, g, b, j) && NodeOk(v, g, c);
    var x := Node(v, b).extents[j];
    forall n | 0 <= n < |Node(v, c).extents| ensures Node(v, c).extents[n] != x {
      assert ExtentOk(v, g, c, n);
    }
    assert x != c;
    if Node(v, b).isDir {
      forall s | 0 <= s < SLOTS ensures SlotOk(r, g, b, j, s, r.disk[x].slots[s]) {
        assert SlotOk(v, g, b, j, s, v.disk[x].slots[s]);
        var t := r.disk[x].slots[s].inode;
        if t != 0 && !Dot(r.disk[x].slots[s].name) && t != c { DroppedLive(v, g, r, d, k, i, c, t); }
      }
    }
  }

  lemma DroppedInv(v: Vol, g: Ledger, r: Vol, d: nat, k: nat, i: nat, c: nat)
    requires FsInv(v, g) && Live(v, d) && Node(v, d).isDir && k < |Node(v, d).extents| && Live(v, c)
    requires Dropped(v, r, d, k, i, c) && ExtentOk(v, g, d, k) && c in g.entry && g.entry[c] == (d, k, i) && c != v.root
    ensures FsInv(r, g) && !Live(r, c)
    ensures forall b: nat :: Live(r, b) ==> Live(v, b) && r.disk[b] == v.disk[b]
    ensures forall b :: Live(v, b) && b != c && b != d ==> Untouched(v, r, b)
  {
    assert NodeOk(v, g, c);
    forall n | 0 <= n < |Node(v, c).extents| ensures 3 <= Node(v, c).extents[n] {
      assert ExtentOk(v, g, c, n);
    }
    forall b | Live(v, b) && b != c ensures Live(r, b) && NodeOk(r, g, b) && (b != d ==> Untouched(v, r, b)) {
      DroppedNode(v, g, r, d, k, i, c, b);
    }
    DroppedLive(v, g, r, d, k, i, c, v.root);
  }

  /** axfs_remove finds a live inode that no other slot names, and keeps the volume sound. */
  lemma RemoveInv(v: Vol, g: Ledger, d: nat, name: string)
    requires FsInv(v, g) && Live(v, d) && Node(v, d).isDir && DirAt(v, d) && !Dot(name)
    ensures var c := FindChild(v, d, name);
      && (c != 0 ==> Freeable(v, c) && c != v.root)
      && FsInv(Remove(v, d, name), g)
      && (c != 0 ==> !Live(Remove(v, d, name), c))
      && (forall b: nat :: Live(Remove(v, d, name), b) ==> Live(v, b) && Remove(v, d, name).disk[b] == v.disk[b])
      && forall b :: Live(v, b) && b != c && b != d ==> Untouched(v, Remove(v, d, name), b)
  {
    var extents := Node(v, d).extents;
    assert NodeOk(v, g, d);
    match Scan(v, extents, 0, Named(name))
    case None =>
      assert Remove(v, d, name) == v;
      forall b | Live(v, b) ensures Untouched(v, v, b) { UntouchedSelf(v, g, b); }
    case Some((k, i)) =>
      assert ExtentOk(v, g, d, k);
      var e := extents[k];
      assert SlotOk(v, g, d, k, i, v.disk[e].slots[i]);
      var c := v.disk[e].slots[i].inode;
      SoundFreeable(v, g, c);
      RemoveDrops(v, d, name, k, i);
      DroppedInv(v, g, Remove(v, d, name), d, k, i, c);
  }

  lemma UntouchedSelf(v: Vol, g: Ledger, b: nat)
    requires FsInv(v, g) && Live(v, b)
    ensures Untouched(v, v, b)
  {
    assert NodeOk(v, g, b);
    forall k | 0 <= k < |Node(v, b).extents| ensures SameBlock(v, v, Node(v, b).extents[k]) {
      assert ExtentOk(v, g, b, k);
    }
  }

  lemma SoundFreeable(v: Vol, g: Ledger, c: nat)
    requires FsInv(v, g) && Live(v, c)
    ensures Freeable(v, c)
  {
    assert NodeOk(v, g, c);
    forall k | 0 <= k < |v.disk[c].node.extents| ensures v.disk[c].node.extents[k] < v.total {
      assert ExtentOk(v, g, c, k);
    }
  }

  lemma RemoveDrops(v: Vol, d: nat, name: string, k: nat, i: nat)
    requires Sized(v) && DirAt(v, d) && Scan(v, v.disk[d].node.extents, 0, Named(name)) == Some((k, i))
    requires Freeable(v, FindChild(v, d, name))
    ensures Dropped(v, Remove(v, d, name), d, k, i, FindChild(v, d, name))
  {
    var c := FindChild(v, d, name);
    var extents := v.disk[c].node.extents;
    var bm := FreeAll(v.bm, extents, |extents|);
    assert extents[..|extents|] == extents;
    SetBits(bm, c);
    var e := v.disk[d].node.extents[k];
    var ent := Dent(0, v.disk[e].slots[i].isDir, "");
    assert Remove(v, d, name).disk == v.disk[e := DirB(v.disk[e].slots[i := ent])];
  }

  // ---- runs ----

  datatype Op =
    | DoWrite(b: nat, off: nat, buf: seq<bv8>)
    | DoCreate(d: nat, name: string, isDir: bool)
    | DoRemove(d: nat, name: string)

  /** Operations on inodes of their own kind, with room. That a parent is a directory
      is not checked by axfs_create. */
  ghost predicate Allowed(v: Vol, op: Op)
    requires Sized(v)
  {
    match op
    case DoWrite(b, off, buf) => FileAt(v, b) && Writable(v, b, off, |buf|)
    case DoCreate(d, name, _) => DirAt(v, d) && (name != "" ==> FreeCount(v.bm, v.total) >= CreateNeed(v, d))
    case DoRemove(d, name) =>
      DirAt(v, d) && !Dot(name) && (FindChild(v, d, name) != 0 ==> Freeable(v, FindChild(v, d, name)))
  }

  ghost function Step(v: Vol, op: Op): (r: Vol)
    requires Sized(v) && Allowed(v, op)
    ensures Sized(r)
  {
    match op
    case DoWrite(b, off, buf) => Write(v, b, off, buf)
    case DoCreate(d, name, isDir) => Create(v, d, name, isDir)
    case DoRemove(d, name) => Remove(v, d, name)
  }

  ghost predicate AllTidy(v: Vol)
    requires Sized(v)
  {
    forall b :: Live(v, b) && FileAt(v, b) ==> Tidy(v, b)
  }

  ghost predicate Sound(v: Vol) {
    Sized(v) && (exists g :: FsInv(v, g)) && AllTidy(v)
  }

  /** The inode an operation is about. */
  ghost function Subject(v: Vol, op: Op): nat
    requires Sized(v) && Allowed(v, op)
  {
    match op
    case DoWrite(b, _, _) => b
    case DoCreate(_, _, _) => 0
    case DoRemove(d, name) => FindChild(v, d, name)
  }

  lemma TidyKept(v: Vol, r: Vol, b: nat)
    requires Sized(v) && Sized(r) && AllTidy(v) && Live(v, b) && FileAt(v, b)
    requires Untouched(v, r, b)
    ensures FileAt(r, b) && Content(r, b) == Content(v, b) && Tidy(r, b)
  {
    OtherFile(v, r, b);
  }

  lemma WriteStep(v: Vol, b: nat, off: nat, buf: seq<bv8>)
    requires Sound(v) && Allowed(v, DoWrite(b, off, buf))
    ensures var r := Write(v, b, off, buf); Sound(r) && SameInodes(v, r, b)
  {
    hide Axfs.Write;
    var g :| FsInv(v, g);
    var g' := WriteSplices(v, g, b, off, buf);
    var r := Write(v, b, off, buf);
    forall c | Live(r, c) && FileAt(r, c) ensures Tidy(r, c) {
      if c != b {
        assert Live(v, c);
        SoundFile(v, g, c);
        TidyKept(v, r, c);
      }
    }
  }

  lemma CreateStep(v: Vol, d: nat, name: string, isDir: bool)
    requires Sound(v) && Allowed(v, DoCreate(d, name, isDir))
    ensures var r := Create(v, d, name, isDir);
      Sound(r) && forall c :: Live(v, c) && c != d ==> Untouched(v, r, c)
  {
    var g :| FsInv(v, g);
    if name == "" {
      forall c | Live(v, c) ensures Untouched(v, v, c) { UntouchedSelf(v, g, c); }
    } else {
      hide AxfsDir.Create;
      var g' := CreateInv(v, g, d, name, isDir);
      NewInodeTidy(v, g, Create(v, d, name, isDir), d, isDir);
    }
  }

  lemma NewInodeTidy(v: Vol, g: Ledger, r: Vol, d: nat, isDir: bool)
    requires FsInv(v, g) && AllTidy(v) && Sized(r) && Live(v, d) && NewInode(v, r, d, isDir)
    ensures AllTidy(r)
  {
    forall c | Live(r, c) && FileAt(r, c) ensures Tidy(r, c) {
      if Live(v, c) {
        SoundFile(v, g, c);
        TidyKept(v, r, c);
      }
    }
  }

  lemma RemoveStep(v: Vol, d: nat, name: string)
    requires Sound(v) && Allowed(v, DoRemove(d, name))
    ensures var r := Remove(v, d, name);
      Sound(r) && forall c :: Live(v, c) && c != d && c != FindChild(v, d, name) ==> Untouched(v, r, c)
  {
    hide AxfsDir.Remove, AxfsDir.FindChild, AxfsInv.NodeOk, AxfsWrite.Tidy, Bitmap.Test;
    var g :| FsInv(v, g);
    RemoveInv(v, g, d, name);
    var r := Remove(v, d, name);
    forall c | Live(r, c) && FileAt(r, c) ensures Tidy(r, c) {
      assert Live(v, c);
      SoundFile(v, g, c);
      TidyKept(v, r, c);
    }
  }

  /** Every allowed operation keeps the volume sound. */
  lemma StepSound(v: Vol, op: Op)
    requires Sound(v) && Allowed(v, op)
    ensures Sound(Step(v, op))
  {
    hide Axfs.Write, AxfsDir.Create, AxfsDir.Remove, AllTidy, AxfsInv.FsInv;
    match op
    case DoWrite(b, off, buf) => WriteStep(v, b, off, buf);
    case DoCreate(d, name, isDir) => CreateStep(v, d, name, isDir);
    case DoRemove(d, name) => RemoveStep(v, d, name);
  }

  /** Every file but the one written or removed keeps its contents. */
  lemma OtherFilesKept(v: Vol, op: Op, c: nat)
    requires Sound(v) && Allowed(v, op) && Live(v, c) && FileAt(v, c) && c != Subject(v, op)
    ensures FileAt(Step(v, op), c) && Content(Step(v, op), c) == Content(v, c)
  {
    hide Axfs.Write, AxfsDir.Create, AxfsDir.Remove, AxfsInv.FsInv, Content;
    match op
    case DoWrite(b, off, buf) => WriteStep(v, b, off, buf); TidyKept(v, Write(v, b, off, buf), c);
    case DoCreate(d, name, isDir) => CreateStep(v, d, name, isDir); TidyKept(v, Create(v, d, name, isDir), c);
    case DoRemove(d, name) => RemoveStep(v, d, name); TidyKept(v, Remove(v, d, name), c);
  }

  ghost predicate CanRun(v: Vol, ops: seq<Op>)
    requires Sized(v)
    decreases |ops|
  {
    ops == [] || (Allowed(v, ops[0]) && CanRun(Step(v, ops[0]), ops[1..]))
  }

  ghost function After(v: Vol, ops: seq<Op>): (r: Vol)
    requires Sized(v) && CanRun(v, ops)
    ensures Sized(r)
    decreases |ops|
  {
    if ops == [] then v else After(Step(v, ops[0]), ops[1..])
  }

  lemma {:induction false} RunSound(v: Vol, ops: seq<Op>)
    requires Sound(v) && CanRun(v, ops)
    ensures Sound(After(v, ops))
    decreases |ops|
  {
    hide Step, Allowed, AllTidy, AxfsInv.FsInv;
    if ops != [] {
      StepSound(v, ops[0]);
      RunSound(Step(v, ops[0]), ops[1..]);
    }
  }

  /** Filesystem ownership over every run of create, write and remove: no block is
      held twice, every held block is marked used, and blocks 0-2 are never handed out. */
  lemma OwnershipOverRuns(v: Vol, ops: seq<Op>)
    requires Sound(v) && CanRun(v, ops)
    ensures var r := After(v, ops); NoSharing(r) && Accounted(r) && r.disk[0] == SuperB && AllTidy(r)
  {
    RunSound(v, ops);
    var r := After(v, ops);
    var g :| FsInv(r, g);
    Ownership(r, g);
  }
}
