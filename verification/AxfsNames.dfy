/** What creating and removing an entry does to lookups in its directory. */
module AxfsNames {
  import opened Sequences
  import opened Bitmap
  import opened Axfs
  import opened AxfsInv
  import opened AxfsDir
  import opened AxfsRuns

  /** Slot i of block e. */
  function SlotOf(v: Vol, e: nat, i: nat): Dent
    requires Sized(v) && ListBlock(v, e) && i < SLOTS
  {
    v.disk[e].slots[i]
  }

  /** The two blocks agree on what hits, and on the slots that do. */
  ghost predicate SameHits(v: Vol, r: Vol, e: nat, w: Want)
    requires Sized(v) && Sized(r)
  {
    && ListBlock(v, e) && ListBlock(r, e)
    && forall i: nat :: i < SLOTS ==>
         (Hit(SlotOf(v, e, i), w) || Hit(SlotOf(r, e, i), w) ==> SlotOf(r, e, i) == SlotOf(v, e, i))
  }

  lemma {:induction false} ScanSlotsSame(a: seq<Dent>, b: seq<Dent>, i: nat, w: Want)
    requires |a| == |b| && i <= |a|
    requires forall j :: 0 <= j < |a| ==> (Hit(a[j], w) <==> Hit(b[j], w))
    ensures ScanSlots(a, i, w) == ScanSlots(b, i, w)
    decreases |a| - i
  {
    if i < |a| {
      ScanSlotsSame(a, b, i + 1, w);
    }
  }

  /** A scan whose blocks agree, with possibly one more block that has no hit. */
  lemma {:induction false} ScanSame(v: Vol, r: Vol, ext: seq<nat>, more: seq<nat>, k: nat, w: Want)
    requires Sized(v) && Sized(r) && k <= |ext| && ListBlocks(v, ext) && ListBlocks(r, ext + more)
    requires forall j :: 0 <= j < |ext| ==> SameHits(v, r, ext[j], w)
    requires Scan(r, ext + more, |ext|, w).None?
    ensures Scan(r, ext + more, k, w) == Scan(v, ext, k, w)
    decreases |ext| - k
  {
    if k < |ext| {
      assert SameHits(v, r, ext[k], w) && (ext + more)[k] == ext[k];
      var a, b := v.disk[ext[k]].slots, r.disk[ext[k]].slots;
      forall j | 0 <= j < SLOTS ensures Hit(a[j], w) <==> Hit(b[j], w) {
        assert SlotOf(v, ext[k], j) == a[j] && SlotOf(r, ext[k], j) == b[j];
      }
      ScanSlotsSame(a, b, 0, w);
      hide AxfsDir.ScanSlots, AxfsDir.Hit;
      ScanSame(v, r, ext, more, k + 1, w);
    }
  }

  /** Then the same child is found. */
  lemma ChildSame(v: Vol, r: Vol, d: nat, more: seq<nat>, name: string)
    requires Sized(v) && Sized(r) && ListDir(v, d) && d < r.total
    requires r.disk[d].InodeB? && r.disk[d].node.isDir && r.disk[d].node.extents == v.disk[d].node.extents + more
    requires ListBlocks(r, v.disk[d].node.extents + more)
    requires forall j :: 0 <= j < |v.disk[d].node.extents| ==> SameHits(v, r, v.disk[d].node.extents[j], Named(name))
    requires Scan(r, v.disk[d].node.extents + more, |v.disk[d].node.extents|, Named(name)).None?
    ensures ListDir(r, d) && FindChild(r, d, name) == FindChild(v, d, name)
  {
    var ext, w := v.disk[d].node.extents, Named(name);
    ScanSame(v, r, ext, more, 0, w);
    match Scan(v, ext, 0, w)
    case None =>
    case Some((k, i)) =>
      assert SameHits(v, r, ext[k], w) && (ext + more)[k] == ext[k];
      assert SlotOf(v, ext[k], i) == SlotOf(r, ext[k], i);
  }

  // ---- create ----

  /** A name other than the one entered. */
  lemma ListedSame(v: Vol, r: Vol, d: nat, k: nat, i: nat, c: nat, ent: Dent, name: string)
    requires Sized(v) && DirAt(v, d) && k < |Node(v, d).extents| && Listed(v, r, d, k, i, c, ent)
    requires v.disk[Node(v, d).extents[k]].slots[i].inode == 0 && ent.name != name
    ensures ListDir(r, d) && FindChild(r, d, name) == FindChild(v, d, name)
  {
    var ext, w := Node(v, d).extents, Named(name);
    assert ext + [] == ext;
    forall j | 0 <= j < |ext| ensures ListBlock(r, ext[j]) && SameHits(v, r, ext[j], w) {
      assert DirBlock(v, ext[j]);
    }
    ChildSame(v, r, d, [], name);
  }

  /** The directory entry a name leads to. */
  ghost function EntryOf(v: Vol, d: nat, name: string): Option<Dent>
    requires Sized(v) && ListDir(v, d)
  {
    match Scan(v, v.disk[d].node.extents, 0, Named(name))
    case None => None
    case Some((k, i)) => Some(v.disk[v.disk[d].node.extents[k]].slots[i])
  }

  /** The name entered, if it was absent. */
  lemma ListedFound(v: Vol, r: Vol, d: nat, k: nat, i: nat, c: nat, ent: Dent)
    requires Sized(v) && DirAt(v, d) && k < |Node(v, d).extents| && Listed(v, r, d, k, i, c, ent)
    requires c != 0 && ent.name != "" && FindChild(v, d, ent.name) == 0
    ensures ListDir(r, d) && FindChild(r, d, ent.name) == c && EntryOf(r, d, ent.name) == Some(ent)
  {
    var ext, w := Node(v, d).extents, Named(ent.name);
    Absent(v, d, ent.name);
    forall j | 0 <= j < |ext| ensures ListBlock(r, ext[j]) {
      assert DirBlock(v, ext[j]);
    }
    assert HitAt(r, ext, k, i, w);
    match Scan(r, ext, 0, w)
    case Some((k', i')) =>
      assert DirBlock(v, ext[k']) && !HitAt(v, ext, k', i', w);
  }

  /** No slot of the directory has an absent name. */
  lemma Absent(v: Vol, d: nat, name: string)
    requires Sized(v) && ListDir(v, d) && FindChild(v, d, name) == 0
    ensures Scan(v, v.disk[d].node.extents, 0, Named(name)).None?
  {
  }

  lemma GrownBlocks(v: Vol, r: Vol, d: nat, e: nat, c: nat, ent: Dent, w: Want)
    requires Sized(v) && DirAt(v, d) && Grown(v, r, d, e, c, ent)
    ensures var ext := Node(v, d).extents;
      && ListBlocks(r, ext + [e])
      && forall j :: 0 <= j < |ext| ==> ext[j] < v.total && r.disk[ext[j]] == v.disk[ext[j]] && SameHits(v, r, ext[j], w)
  {
    var ext := Node(v, d).extents;
    forall j | 0 <= j < |ext| ensures r.disk[ext[j]] == v.disk[ext[j]] && SameHits(v, r, ext[j], w) {
      assert DirBlock(v, ext[j]);
    }
    forall j | 0 <= j < |ext + [e]| ensures ListBlock(r, (ext + [e])[j]) {
      if j < |ext| {
        assert SameHits(v, r, ext[j], w);
      }
    }
  }

  lemma GrownSame(v: Vol, r: Vol, d: nat, e: nat, c: nat, ent: Dent, name: string)
    requires Sized(v) && DirAt(v, d) && Grown(v, r, d, e, c, ent) && ent.name != name
    ensures ListDir(r, d) && FindChild(r, d, name) == FindChild(v, d, name)
  {
    GrownBlocks(v, r, d, e, c, ent, Named(name));
    var ext, w := Node(v, d).extents, Named(name);
    assert Scan(r, ext + [e], |ext|, w).None? by {
      forall i | 0 <= i < SLOTS ensures !Hit(r.disk[e].slots[i], w) {
      }
      assert (ext + [e])[|ext|] == e;
    }
    ChildSame(v, r, d, [e], name);
  }

  lemma GrownFound(v: Vol, r: Vol, d: nat, e: nat, c: nat, ent: Dent)
    requires Sized(v) && DirAt(v, d) && Grown(v, r, d, e, c, ent)
    requires c != 0 && ent.name != "" && FindChild(v, d, ent.name) == 0
    ensures ListDir(r, d) && FindChild(r, d, ent.name) == c && EntryOf(r, d, ent.name) == Some(ent)
  {
    var ext, w := Node(v, d).extents, Named(ent.name);
    GrownBlocks(v, r, d, e, c, ent, w);
    Absent(v, d, ent.name);
    var all := ext + [e];
    assert all[|ext|] == e;
    assert HitAt(r, all, |ext|, 0, w);
    forall k, i | 0 <= k < |ext| && 0 <= i < SLOTS ensures !HitAt(r, all, k, i, w) {
      assert all[k] == ext[k] && !HitAt(v, ext, k, i, w);
    }
    match Scan(r, all, 0, w)
    case Some((k, i)) =>
      assert HitAt(r, all, k, i, w);
  }

  lemma UnlistedSame(v: Vol, r: Vol, d: nat, c: nat, isDir: bool, name: string)
    requires Sized(v) && DirAt(v, d) && Unlisted(v, r, c, isDir)
    ensures ListDir(r, d) && FindChild(r, d, name) == FindChild(v, d, name)
  {
    var ext, w := Node(v, d).extents, Named(name);
    assert ext + [] == ext;
    forall j | 0 <= j < |ext| ensures ListBlock(r, ext[j]) && SameHits(v, r, ext[j], w) {
      assert DirBlock(v, ext[j]);
    }
    ChildSame(v, r, d, [], name);
  }

  /** Room for one more entry: a free slot, or fewer extents than an inode holds. */
  predicate HasRoom(v: Vol, d: nat)
    requires Sized(v) && DirAt(v, d)
  {
    Scan(v, v.disk[d].node.extents, 0, FreeSlot).Some? || |v.disk[d].node.extents| < MAX_EXTENTS
  }

  /**
   * Creating an absent name, with the blocks it needs free: the name then leads to
   * the new inode exactly when the directory has room. In a full one the call takes
   * a live inode that the name does not lead to. The inode is empty and of the kind
   * asked for, and so says its entry. Lookups of every other name are unchanged.
   */
  lemma CreateListsIff(v: Vol, d: nat, name: string, isDir: bool, other: string)
    requires Sized(v) && DirAt(v, d) && UsedBit(v, 0) && FreeCount(v.bm, v.total) >= CreateNeed(v, d)
    requires name != "" && FindChild(v, d, name) == 0
    ensures var r, c := Create(v, d, name, isDir), Alloc(v).1;
      && ListDir(r, d) && Live(r, c) && !Live(v, c) && Node(r, c) == Inode(isDir, 0, [])
      && (FindChild(r, d, name) == c <==> HasRoom(v, d))
      && (HasRoom(v, d) ==> EntryOf(r, d, name) == Some(Dent(c, isDir, name)))
      && (!HasRoom(v, d) ==> FindChild(r, d, name) == 0)
      && (other != name ==> FindChild(r, d, other) == FindChild(v, d, other))
  {
    CreateShape(v, d, name, isDir);
    CreateNeedPositive(v, d);
    NewInodeLive(v, d, name, isDir);
    hide AxfsDir.Create, Axfs.Alloc, AxfsDir.WithInode, Bitmap.FreeCount, AxfsDir.FindChild, CreateNeed, AxfsDir.Scan;
    hide AxfsDir.ListDir, EntryOf, Listed, Grown, Unlisted, Axfs.Live, Bitmap.Test;
    var r, c, ent := Create(v, d, name, isDir), Alloc(v).1, Dent(Alloc(v).1, isDir, name);
    match Scan(v, v.disk[d].node.extents, 0, FreeSlot)
    case Some((k, i)) =>
      ListedFound(v, r, d, k, i, c, ent);
      assert DirBlock(v, v.disk[d].node.extents[k]);
      if other != name { ListedSame(v, r, d, k, i, c, ent, other); }
    case None =>
      if |v.disk[d].node.extents| < MAX_EXTENTS {
        var e := Alloc(WithInode(v, isDir)).1;
        GrownFound(v, r, d, e, c, ent);
        if other != name { GrownSame(v, r, d, e, c, ent, other); }
      } else {
        UnlistedSame(v, r, d, c, isDir, name);
        UnlistedSame(v, r, d, c, isDir, other);
      }
  }

  lemma NewInodeLive(v: Vol, d: nat, name: string, isDir: bool)
    requires Sized(v) && DirAt(v, d) && UsedBit(v, 0) && FreeCount(v.bm, v.total) >= CreateNeed(v, d) && name != ""
    ensures var r, c := Create(v, d, name, isDir), Alloc(v).1;
      c != 0 && Live(r, c) && !Live(v, c) && Node(r, c) == Inode(isDir, 0, [])
  {
    hide AxfsDir.Create, Axfs.Alloc, AxfsDir.WithInode, Bitmap.FreeCount, AxfsDir.Scan, Bitmap.Test, Axfs.EmptySlots;
    CreateNeedPositive(v, d);
    CreateShape(v, d, name, isDir);
    AllocFacts(v);
    var ext := v.disk[d].node.extents;
    match Scan(v, ext, 0, FreeSlot)
    case Some((k, i)) => assert DirBlock(v, ext[k]);
    case None =>
  }

  lemma CreateNeedPositive(v: Vol, d: nat)
    requires Sized(v) && DirAt(v, d)
    ensures CreateNeed(v, d) > 0
  {
  }

  // ---- remove ----

  /** Removing a name leaves lookups of every other name as they were. */
  lemma RemoveKeepsOthers(v: Vol, d: nat, name: string, other: string)
    requires Sized(v) && DirAt(v, d) && (FindChild(v, d, name) != 0 ==> Freeable(v, FindChild(v, d, name)))
    requires other != name
    ensures ListDir(Remove(v, d, name), d) && FindChild(Remove(v, d, name), d, other) == FindChild(v, d, other)
  {
    var r, ext, w := Remove(v, d, name), v.disk[d].node.extents, Named(other);
    assert ext + [] == ext;
    forall j | 0 <= j < |ext| ensures ListBlock(r, ext[j]) && SameHits(v, r, ext[j], w) {
      assert DirBlock(v, ext[j]);
    }
    assert r.disk[d] == v.disk[d];
    hide AxfsDir.Remove, AxfsDir.FindChild;
    ChildSame(v, r, d, [], other);
  }

  lemma DirStays(v: Vol, g: Ledger, d: nat, name: string)
    requires FsInv(v, g) && Live(v, d) && Node(v, d).isDir && DirAt(v, d) && !Dot(name) && FindChild(v, d, name) != 0
    requires Freeable(v, FindChild(v, d, name)) && d != FindChild(v, d, name)
    ensures Live(Remove(v, d, name), d) && Remove(v, d, name).disk[d] == v.disk[d]
  {
    hide Bitmap.Test, AxfsDir.Remove;
    assert NodeOk(v, g, d);
    var (k, i) := Scan(v, Node(v, d).extents, 0, Named(name)).value;
    assert ExtentOk(v, g, d, k);
    RemoveDrops(v, d, name, k, i);
    DroppedLive(v, g, Remove(v, d, name), d, k, i, FindChild(v, d, name), d);
  }

  /** The name removed no longer leads to the inode it led to. */
  lemma RemoveUnlists(v: Vol, g: Ledger, d: nat, name: string)
    requires FsInv(v, g) && Live(v, d) && Node(v, d).isDir && DirAt(v, d) && !Dot(name) && FindChild(v, d, name) != 0
    requires Freeable(v, FindChild(v, d, name)) && d != FindChild(v, d, name)
    ensures var r := Remove(v, d, name); Sized(r) && ListDir(r, d) && FindChild(r, d, name) != FindChild(v, d, name)
  {
    hide AxfsDir.Remove, Bitmap.Test;
    RemoveInv(v, g, d, name);
    DirStays(v, g, d, name);
    var r := Remove(v, d, name);
    SoundDir(r, g, d);
    if FindChild(r, d, name) != 0 {
      NamesLive(r, g, d, name);
    }
  }

  /** In a sound volume every name but "." and ".." leads to a live inode, if to any. */
  lemma NamesLive(v: Vol, g: Ledger, d: nat, name: string)
    requires FsInv(v, g) && Live(v, d) && Node(v, d).isDir && ListDir(v, d) && !Dot(name) && FindChild(v, d, name) != 0
    ensures Live(v, FindChild(v, d, name))
  {
    assert NodeOk(v, g, d);
    var (k, i) := Scan(v, Node(v, d).extents, 0, Named(name)).value;
    assert ExtentOk(v, g, d, k) && SlotOk(v, g, d, k, i, v.disk[Node(v, d).extents[k]].slots[i]);
  }
}
