/** Creating by path: which directory a path's new entry goes to, and when a lookup
    of the path finds it afterwards. */
module AxfsPath {
  import opened Sequences
  import opened Bitmap
  import opened Axfs
  import opened AxfsInv
  import opened AxfsDir
  import opened AxfsWrite
  import opened AxfsRuns
  import opened AxfsNames
  import opened AxfsInFile
  import opened AxfsVolume
  import opened AxfsLookup
  import opened Paths

  // ---- Parents ----

  /** What precedes the last slash. */
  function DirPart(path: string): string {
    if LastSlash(path) < 0 then "" else path[..LastSlash(path)]
  }

  /** axfs_parent_dir: the directory part, cut to 255 characters, leads to the parent;
      the rest is the name. */
  function ParentOf(v: Vol, path: string): Option<nat>
    requires Sized(v)
  {
    Walk(v, v.root, Components(Clip(DirPart(path))))
  }

  function NameIn(path: string): string {
    Clip(BaseName(path))
  }

  lemma PathSplits(path: string)
    requires BaseName(path) != ""
    ensures Components(path) == Components(DirPart(path)) + [BaseName(path)]
  {
    if LastSlash(path) < 0 {
      assert path[0..] == path;
      assert Components("") == [];
    }
  }

  // ---- What a create changes for lookups ----

  /** Dot entries of live directories name live inodes, as every other entry does. */
  ghost predicate DotsLive(v: Vol)
    requires Sized(v)
  {
    forall d: nat, x: string :: Live(v, d) && ListDir(v, d) && Dot(x) ==> FindChild(v, d, x) == 0 || Live(v, FindChild(v, d, x))
  }

  lemma ChildLive(v: Vol, g: Ledger, d: nat, x: string)
    requires FsInv(v, g) && DotsLive(v) && Live(v, d) && ListDir(v, d) && FindChild(v, d, x) != 0
    ensures Live(v, FindChild(v, d, x))
  {
    if !Dot(x) {
      assert NodeOk(v, g, d);
      var ext := v.disk[d].node.extents;
      match Scan(v, ext, 0, Named(x))
      case Some((k, i)) =>
        assert ExtentOk(v, g, d, k);
        assert SlotOk(v, g, d, k, i, v.disk[ext[k]].slots[i]);
    }
  }

  /** r is v with a new inode c, which at most parent p lists, under `name`. */
  ghost predicate Added(v: Vol, r: Vol, p: nat, name: string, c: nat)
    requires Sized(v) && Sized(r)
  {
    && !Live(v, c) && r.root == v.root
    && (forall d: nat :: Live(v, d) ==> SameDir(v, r, d))
    && (forall d: nat, x: string :: Live(v, d) && ListDir(v, d) && ListDir(r, d) && (d != p || x != name) ==>
          FindChild(r, d, x) == FindChild(v, d, x))
    && (ListDir(v, p) && ListDir(r, p) ==> FindChild(v, p, name) == 0 && FindChild(r, p, name) in {0, c})
    && (forall x: string :: ListDir(r, c) ==> FindChild(r, c, x) == 0)
  }

  ghost predicate SameDir(v: Vol, r: Vol, d: nat)
    requires Sized(v) && Sized(r)
  {
    ListDir(v, d) <==> ListDir(r, d)
  }

  /** Where a walk from a live inode can end afterwards. */
  lemma {:induction false} WalkAfter(v: Vol, g: Ledger, r: Vol, p: nat, name: string, c: nat, cur: nat, comps: seq<string>)
    requires FsInv(v, g) && DotsLive(v) && Sized(r) && Added(v, r, p, name, c) && Live(v, cur)
    ensures Walk(v, cur, comps).Some? ==> Walk(r, cur, comps) == Walk(v, cur, comps) && Live(v, Walk(v, cur, comps).value)
    ensures Walk(r, cur, comps).Some? ==>
      Walk(r, cur, comps).value == c || (Live(v, Walk(r, cur, comps).value) && Walk(v, cur, comps) == Walk(r, cur, comps))
    decreases |comps|
  {
    hide AxfsDir.FindChild, AxfsDir.ListDir, Bitmap.Test;
    assert SameDir(v, r, cur);
    if comps != [] && ListDir(v, cur) {
      var x := Clip(comps[0]);
      if cur == p && x == name {
        if FindChild(r, p, name) == c && c != 0 {
          DeadEnd(r, c, comps[1..]);
        }
      } else if FindChild(v, cur, x) != 0 {
        ChildLive(v, g, cur, x);
        WalkAfter(v, g, r, p, name, c, FindChild(v, cur, x), comps[1..]);
      }
    }
  }

  /** Nothing lies beyond a new inode. */
  lemma DeadEnd(r: Vol, c: nat, comps: seq<string>)
    requires Sized(r) && forall x: string :: ListDir(r, c) ==> FindChild(r, c, x) == 0
    ensures Walk(r, c, comps) == if comps == [] then Some(c) else None
  {
    hide AxfsDir.FindChild, AxfsDir.ListDir;
  }

  /** The path leads to the new inode exactly when its directory part leads to the
      parent and the parent lists it. */
  lemma FoundIff(v: Vol, g: Ledger, r: Vol, p: nat, path: string, c: nat)
    requires FsInv(v, g) && DotsLive(v) && Sized(r) && Added(v, r, p, NameIn(path), c) && Live(v, p) && c != 0
    requires BaseName(path) != ""
    ensures Walk(r, r.root, Components(path)) == Some(c) <==>
      && Walk(v, v.root, Components(DirPart(path))) == Some(p)
      && ListDir(r, p) && FindChild(r, p, NameIn(path)) == c
  {
    hide AxfsDir.FindChild, AxfsDir.ListDir, Bitmap.Test, AxfsLookup.Walk, Paths.Components;
    var d := Components(DirPart(path));
    PathSplits(path);
    WalkAfter(v, g, r, p, NameIn(path), c, v.root, d);
    WalkConcat(r, r.root, d, [BaseName(path)]);
    match Walk(r, r.root, d)
    case None =>
    case Some(q) =>
      WalkOne(r, q, BaseName(path));
      if Live(v, q) && q != p && ListDir(r, q) {
        assert SameDir(v, r, q);
        if FindChild(v, q, NameIn(path)) != 0 {
          ChildLive(v, g, q, NameIn(path));
        }
      }
  }

  // ---- The two kinds of parent ----

  lemma UntouchedDir(v: Vol, r: Vol, d: nat)
    requires Sized(v) && Sized(r) && r.total == v.total && Live(v, d) && Untouched(v, r, d)
    ensures SameDir(v, r, d)
    ensures ListDir(v, d) ==> forall x: string :: FindChild(r, d, x) == FindChild(v, d, x)
  {
    var ext := Node(v, d).extents;
    forall k | 0 <= k < |ext| ensures ListBlock(v, ext[k]) <==> ListBlock(r, ext[k]) {
      assert SameBlock(v, r, ext[k]);
    }
    if ListDir(v, d) {
      forall x: string ensures FindChild(r, d, x) == FindChild(v, d, x) {
        UntouchedChild(v, r, d, x);
      }
    }
  }

  lemma UntouchedChild(v: Vol, r: Vol, d: nat, x: string)
    requires Sized(v) && Sized(r) && Live(v, d) && Untouched(v, r, d) && ListDir(v, d) && ListDir(r, d)
    ensures FindChild(r, d, x) == FindChild(v, d, x)
  {
    var ext := Node(v, d).extents;
    assert ext + [] == ext;
    forall j | 0 <= j < |ext| ensures SameHits(v, r, ext[j], Named(x)) {
      assert SameBlock(v, r, ext[j]) && ListBlock(v, ext[j]) && ListBlock(r, ext[j]);
    }
    hide AxfsDir.FindChild;
    ChildSame(v, r, d, [], x);
  }

  lemma EmptyInode(r: Vol, c: nat, isDir: bool, x: string)
    requires Sized(r) && Live(r, c) && Node(r, c) == Inode(isDir, 0, []) && ListDir(r, c)
    ensures FindChild(r, c, x) == 0
  {
  }

  lemma AddedInDir(v: Vol, g: Ledger, p: nat, name: string, isDir: bool)
    requires FsInv(v, g) && Live(v, p) && Node(v, p).isDir && DirAt(v, p) && name != ""
    requires FreeCount(v.bm, v.total) >= CreateNeed(v, p) && FindChild(v, p, name) == 0
    ensures var r, c := Create(v, p, name, isDir), Alloc(v).1;
      && Added(v, r, p, name, c) && c != 0 && ListDir(r, p)
      && (FindChild(r, p, name) == c <==> HasRoom(v, p))
  {
    hide AxfsDir.Create, Axfs.Alloc, Bitmap.Test, Bitmap.FreeCount, CreateNeed, HasRoom, AxfsDir.FindChild, AxfsDir.Scan;
    var r, c := Create(v, p, name, isDir), Alloc(v).1;
    var g' := CreateInv(v, g, p, name, isDir);
    NewInodeLive(v, p, name, isDir);
    CreateListsIff(v, p, name, isDir, name);
    CreateTotals(v, p, name, isDir);
    forall d: nat | Live(v, d) && d != p
      ensures SameDir(v, r, d)
      ensures ListDir(v, d) ==> forall x: string :: FindChild(r, d, x) == FindChild(v, d, x)
    {
      UntouchedDir(v, r, d);
    }
    forall x: string | x != name ensures FindChild(r, p, x) == FindChild(v, p, x) {
      CreateListsIff(v, p, name, isDir, x);
    }
    assert Node(r, c) == Inode(isDir, 0, []);
    forall x: string | ListDir(r, c) ensures FindChild(r, c, x) == 0 {
      EmptyInode(r, c, isDir, x);
    }
    hide AxfsDir.ListDir, AxfsDir.DirAt, AxfsInv.FsInv;
  }

  lemma CreateTotals(v: Vol, p: nat, name: string, isDir: bool)
    requires Sized(v) && DirAt(v, p)
    ensures Create(v, p, name, isDir).root == v.root && Create(v, p, name, isDir).total == v.total
  {
    hide AxfsDir.Scan, Bitmap.Test;
  }

  lemma AddedInFile(v: Vol, g: Ledger, p: nat, name: string, isDir: bool)
    requires FsInv(v, g) && Live(v, p) && !Node(v, p).isDir && FileAt(v, p) && HoldsUsed(v, p)
    requires 0 < |name| <= 255 && FreeCount(v.bm, v.total) >= FileNeed(v, p)
    ensures var r, c := CreateInFile(v, p, name, isDir), Alloc(v).1;
      Added(v, r, p, name, c) && c != 0 && !ListDir(r, p)
  {
    hide CreateInFile, Axfs.Alloc, Bitmap.Test, Bitmap.FreeCount, FileNeed, AxfsDir.FindChild;
    var r, c := CreateInFile(v, p, name, isDir), Alloc(v).1;
    var g' := InFileInv(v, g, p, name, isDir);
    forall d: nat | Live(v, d) && d != p
      ensures SameDir(v, r, d)
      ensures ListDir(v, d) ==> forall x: string :: FindChild(r, d, x) == FindChild(v, d, x)
    {
      UntouchedDir(v, r, d);
    }
    assert SameDir(v, r, p);
    forall x: string | ListDir(r, c) ensures FindChild(r, c, x) == 0 {
      EmptyInode(r, c, isDir, x);
    }
    assert c != 0 by { assert NodeOk(r, g', c); }
  }

  // ---- Create by path, then look up by path ----

  /** axfs_create with p as the resolved parent, whatever it is. */
  ghost function CreateAt(v: Vol, p: nat, name: string, isDir: bool): (r: Vol)
    requires Sized(v) && |name| <= 255 && (DirAt(v, p) || (FileAt(v, p) && HoldsUsed(v, p)))
    ensures Sized(r)
  {
    if DirAt(v, p) then Create(v, p, name, isDir) else CreateInFile(v, p, name, isDir)
  }

  /** The blocks the create needs. */
  ghost function NeedAt(v: Vol, p: nat): nat
    requires Sized(v) && (DirAt(v, p) || FileAt(v, p))
  {
    if DirAt(v, p) then CreateNeed(v, p) else FileNeed(v, p)
  }

  lemma EitherKind(v: Vol, g: Ledger, p: nat)
    requires FsInv(v, g) && Live(v, p)
    ensures if Node(v, p).isDir then DirAt(v, p) else FileAt(v, p) && HoldsUsed(v, p)
  {
    if Node(v, p).isDir {
      SoundDir(v, g, p);
    } else {
      SoundFile(v, g, p);
      SoundHolds(v, g, p);
    }
  }

  /**
   * Create by path, then look up by path. On a sound volume with the blocks free,
   * for a name its parent does not list yet: the lookup finds the new inode exactly
   * when the parent that axfs_parent_dir resolved is a directory with room, and the
   * whole directory part leads to it, not only its first 255 characters.
   */
  lemma CreateThenLookup(v: Vol, g: Ledger, path: string, isDir: bool, p: nat)
    requires FsInv(v, g) && DotsLive(v) && ParentOf(v, path) == Some(p) && Live(v, p)
    requires DirAt(v, p) || (FileAt(v, p) && HoldsUsed(v, p))
    requires BaseName(path) != "" && FreeCount(v.bm, v.total) >= NeedAt(v, p)
    requires DirAt(v, p) ==> FindChild(v, p, NameIn(path)) == 0
    ensures var r, c := CreateAt(v, p, NameIn(path), isDir), Alloc(v).1;
      Walk(r, r.root, Components(path)) == Some(c) <==>
        && DirAt(v, p) && HasRoom(v, p)
        && Walk(v, v.root, Components(DirPart(path))) == Some(p)
  {
    assert Sized(v);
    hide Axfs.Alloc, Bitmap.Test, Bitmap.FreeCount, HasRoom, AxfsLookup.Walk, Paths.Components, AxfsDir.FindChild;
    hide Paths.BaseName, DirPart, Added, CreateNeed, FileNeed, AxfsInv.FsInv, AxfsDir.Create, CreateInFile;
    var name := NameIn(path);
    NameFits(path);
    EitherKind(v, g, p);
    if DirAt(v, p) {
      AddedInDir(v, g, p, name, isDir);
    } else {
      AddedInFile(v, g, p, name, isDir);
    }
    FoundIff(v, g, CreateAt(v, p, name, isDir), p, path, Alloc(v).1);
  }

  lemma NameFits(path: string)
    requires BaseName(path) != ""
    ensures 0 < |NameIn(path)| <= 255
  {
  }

  /** With a directory part of at most 255 characters the last condition is met. */
  lemma ShortPath(v: Vol, path: string, p: nat)
    requires Sized(v) && ParentOf(v, path) == Some(p) && |DirPart(path)| <= MAX_NAME
    ensures Walk(v, v.root, Components(DirPart(path))) == Some(p)
  {
  }

  // ---- The kernel's code ----

  method FindLastSlash(path: string) returns (s: int)
    ensures s == LastSlash(path)
  {
    s := -1;
    var q := 0;
    while q < |path|
      invariant 0 <= q <= |path| && s == LastSlash(path[..q])
    {
      assert path[..q + 1][..q] == path[..q];
      if path[q] == '/' {
        s := q;
      }
      q := q + 1;
    }
    assert path[..q] == path;
  }

  /** axfs_parent_dir, for paths whose directory part runs through directories. */
  method ParentDir(vol: Volume, path: string) returns (parent: Option<nat>, name: string)
    requires Sized(vol.Abs())
    ensures parent == ParentOf(vol.Abs(), path) && name == NameIn(path)
  {
    hide AxfsLookup.Walk, Paths.Components, Paths.LastSlash;
    var slash := FindLastSlash(path);
    if slash < 0 {
      EmptyWalk(vol.Abs());
      name := path[0..];
      if |name| > MAX_NAME { name := name[..MAX_NAME]; }
      return Some(vol.root), name;
    }
    var dpath := path[..slash];
    if |dpath| > MAX_NAME { dpath := dpath[..MAX_NAME]; }
    parent := Lookup(vol, vol.root, dpath);
    name := path[slash + 1..];
    if |name| > MAX_NAME { name := name[..MAX_NAME]; }
  }

  lemma EmptyWalk(v: Vol)
    requires Sized(v)
    ensures Walk(v, v.root, Components(Clip(""))) == Some(v.root)
  {
  }

  /** The scan of afs_dir_add_entry over a file's blocks. */
  method FindFreeEntry(vol: Volume, b: nat) returns (found: bool, k: nat, i: nat)
    requires Sized(vol.Abs()) && FileAt(vol.Abs(), b)
    ensures ScanFile(vol.Abs(), b, 0) == if found then Some((k, i)) else None
  {
    hide FreeEntry, Bitmap.Test, Axfs.BlockOf, FirstFree, ScanFile;
    var ext := vol.disk[b].node.extents;
    k, i := 0, 0;
    while k < |ext|
      invariant k <= |ext| && ScanFile(vol.Abs(), b, 0) == ScanFile(vol.Abs(), b, k)
    {
      assert DataAt(vol.Abs(), ext[k]);
      ScanFileStep(vol.Abs(), b, k);
      i := FirstFreeEntry(vol.disk[ext[k]].bytes);
      if i < SLOTS { return true, k, i; }
      k := k + 1;
    }
    ScanFileStep(vol.Abs(), b, k);
    return false, 0, 0;
  }

  lemma ScanFileStep(v: Vol, b: nat, k: nat)
    requires Sized(v) && FileAt(v, b) && k <= |v.disk[b].node.extents|
    ensures k == |v.disk[b].node.extents| ==> ScanFile(v, b, k) == None
    ensures k < |v.disk[b].node.extents| ==>
      && v.disk[b].node.extents[k] < v.total && BlockOf(v, b, k) == v.disk[v.disk[b].node.extents[k]].bytes
      && var i := FirstFree(BlockOf(v, b, k), 0);
         ScanFile(v, b, k) == if i < SLOTS then Some((k, i)) else ScanFile(v, b, k + 1)
  {
    hide FirstFree, Bitmap.Test;
    assert k < |v.disk[b].node.extents| ==> DataAt(v, v.disk[b].node.extents[k]);
  }

  method FirstFreeEntry(bytes: seq<bv8>) returns (i: nat)
    requires |bytes| == BLOCK
    ensures i == FirstFree(bytes, 0)
  {
    hide FreeEntry;
    i := 0;
    while i < SLOTS
      invariant i <= SLOTS && FirstFree(bytes, 0) == FirstFree(bytes, i)
    {
      if FreeEntry(bytes, i) { return; }
      i := i + 1;
    }
  }

  /** afs_dir_add_entry on a file. */
  method AddEntryToFile(vol: Volume, b: nat, ent: Dent)
    requires Sized(vol.Abs()) && FileAt(vol.Abs(), b) && |ent.name| <= 255
    modifies vol
    ensures vol.Abs() == AddToFile(old(vol.Abs()), b, ent)
  {
    hide EnterBytes, ScanFile, Bitmap.FreeCount, Bitmap.Test;
    var node := vol.disk[b].node;
    var found, k, i := FindFreeEntry(vol, b);
    if found {
      assert DataAt(vol.Abs(), node.extents[k]);
      var nb := EnterBytes(vol.disk[node.extents[k]].bytes, i, ent);
      assert node.extents[k := node.extents[k]] == node.extents;
      vol.disk := vol.disk[node.extents[k] := DataB(nb)];
      assert vol.disk[b := InodeB(node)] == vol.disk;
      return;
    }
    if |node.extents| >= MAX_EXTENTS { return; }
    AllocFacts(vol.Abs());
    hide Axfs.Alloc;
    var e := vol.AllocBlock();
    vol.disk := vol.disk[e := DataB(EnterBytes(Zeros(), 0, ent))];
    vol.disk := vol.disk[b := InodeB(node.(extents := node.extents + [e]))];
  }

  /** axfs_create. */
  method CreateByPath(vol: Volume, path: string, isDir: bool) returns (ok: bool)
    requires Sized(vol.Abs())
    requires var p := ParentOf(vol.Abs(), path);
      p.None? || DirAt(vol.Abs(), p.value) || (FileAt(vol.Abs(), p.value) && HoldsUsed(vol.Abs(), p.value))
    modifies vol
    ensures |NameIn(path)| <= 255 && ok == (ParentOf(old(vol.Abs()), path).Some? && NameIn(path) != "")
    ensures vol.Abs() == if !ok then old(vol.Abs())
      else CreateAt(old(vol.Abs()), ParentOf(old(vol.Abs()), path).value, NameIn(path), isDir)
  {
    ghost var v := vol.Abs();
    var parent, name := ParentDir(vol, path);
    hide ParentOf, NameIn, HoldsUsed, Axfs.Alloc, AddToFile, AxfsDir.Create;
    assert |name| <= 255 by { NameShort(path); }
    if parent.None? || name == "" { return false; }
    if vol.disk[parent.value].node.isDir {
      ok := vol.Create(parent.value, name, isDir);
      return;
    }
    WithInodeFile(v, parent.value, isDir);
    AllocFacts(v);
    var child := vol.AllocBlock();
    vol.disk := vol.disk[child := InodeB(Inode(isDir, 0, []))];
    AddEntryToFile(vol, parent.value, Dent(child, isDir, name));
    return true;
  }

  lemma NameShort(path: string)
    ensures |NameIn(path)| <= 255
  {
  }
}
