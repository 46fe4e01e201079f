/** The formatter and the kernel agree on what an image means. */
module MkfsImage {
  import opened Sequences
  import opened Bitmap
  import opened Axfs
  import opened AxfsInv
  import opened AxfsDir
  import opened AxfsWrite
  import opened AxfsRuns
  import opened AxfsLookup
  import opened Paths
  import opened Mkfs

  /** A node whose path has a base name and a declared parent directory. */
  predicate Declared(t: seq<Entry>, i: nat)
    requires i < |t|
  {
    Parent(t, i) >= 0 && t[Parent(t, i)].isDir && |t[i].path| <= MAX_NAME && BaseName(t[i].path) != ""
  }

  /** A manifest that fits the image: declared ancestors, at most 160 blocks a file. */
  predicate Proper(t: seq<Entry>, total: nat) {
    && 0 < |t| <= MAX_NODES && t[0].path == "" && t[0].isDir
    && (forall i :: 0 < i < |t| ==> Declared(t, i))
    && (forall i :: 0 <= i < |t| && !t[i].isDir ==> |t[i].content| <= MAX_EXTENTS * BLOCK)
    && Start(t, |t|) <= total <= MAX_BLOCKS
  }

  // ---- where things are ----

  lemma ImageSized(t: seq<Entry>, total: nat)
    requires Proper(t, total)
    ensures var v := Image(t, total); Sized(v) && v.root == InodeBlock(0) && v.total == total
  {
    hide Mkfs.BlockAt, Mkfs.FirstBits, Mkfs.Start;
    StartMonotone(t, 0, |t|);
  }

  lemma ImageAt(t: seq<Entry>, total: nat, b: nat)
    requires Proper(t, total) && b < total
    ensures var v := Image(t, total); Sized(v) && v.disk[b] == BlockAt(t, b) && (UsedBit(v, b) <==> b < Start(t, |t|))
  {
    hide Bitmap.Test, Mkfs.BlockAt, Mkfs.FirstBits, Mkfs.Start;
    ImageSized(t, total);
  }

  /** Exactly the inode blocks are live, and they hold the nodes. */
  lemma ImageInode(t: seq<Entry>, total: nat, b: nat)
    requires Proper(t, total)
    ensures var v := Image(t, total);
      && Sized(v) && (Live(v, b) <==> FIRST_INODE <= b < FIRST_INODE + |t|)
      && (FIRST_INODE <= b < FIRST_INODE + |t| ==> v.disk[b] == InodeB(NodeOf(t, b - FIRST_INODE)))
  {
    hide Bitmap.Test, Mkfs.Image, Mkfs.NodeOf, Mkfs.Start, Mkfs.Holder;
    ImageSized(t, total);
    if b < total { ImageAt(t, total, b); }
  }

  lemma ImageData(t: seq<Entry>, total: nat, i: nat, k: nat)
    requires Proper(t, total) && i < |t| && k < DataCount(t, i)
    ensures Start(t, i) + k < Start(t, |t|) && Image(t, total).disk[Start(t, i) + k] == DataBlock(t, i, k)
  {
    hide Bitmap.Test, Mkfs.Image, Mkfs.DataBlock, Mkfs.Start, Mkfs.Holder, Mkfs.DataCount;
    HolderIs(t, i, k);
    ImageSized(t, total);
    ImageAt(t, total, Start(t, i) + k);
  }

  // ---- the image is a sound volume ----

  function Place(t: seq<Entry>, c: nat): nat
    requires c < |t| && Parent(t, c) >= 0
  {
    ChildrenAre(t, Parent(t, c), |t|);
    2 + IndexOf(Children(t, Parent(t, c), |t|), c)
  }

  /** Which node holds data block e, and as which extent. */
  function HeldAs(t: seq<Entry>, e: nat): (nat, nat)
    requires 0 < |t| && FIRST_INODE + |t| <= e < Start(t, |t|)
  {
    var i := Holder(t, e, |t| - 1);
    (InodeBlock(i), e - Start(t, i))
  }

  /** Where inode block b is listed. */
  function ListedAs(t: seq<Entry>, b: nat): (nat, nat, nat)
    requires FIRST_INODE < b < FIRST_INODE + |t| && Parent(t, b - FIRST_INODE) >= 0
  {
    var f := Place(t, b - FIRST_INODE);
    (InodeBlock(Parent(t, b - FIRST_INODE)), f / 15, f % 15)
  }

  ghost function Books(t: seq<Entry>): Ledger
    requires 0 < |t| && forall i :: 0 < i < |t| ==> Declared(t, i)
  {
    Ledger(map e: nat | FIRST_INODE + |t| <= e < Start(t, |t|) :: HeldAs(t, e),
           map b: nat | FIRST_INODE < b < FIRST_INODE + |t| && Declared(t, b - FIRST_INODE) :: ListedAs(t, b))
  }

  /** The j-th child of directory i is listed in place 2 + j. */
  lemma KidPlace(t: seq<Entry>, i: nat, j: nat)
    requires i < |t| && j < |Children(t, i, |t|)|
    ensures var c := Children(t, i, |t|)[j]; 0 < c < |t| && Parent(t, c) == i && Place(t, c) == 2 + j
  {
    assert Parent(t, 0) == -1;
    hide Mkfs.Children, Mkfs.Parent;
    ChildrenAre(t, i, |t|);
    var kids := Children(t, i, |t|);
    assert Parent(t, kids[j]) == i;
    forall a, b | 0 <= a < b < |kids| ensures kids[a] != kids[b] { assert kids[a] < kids[b]; }
    IndexOfUnique(kids, j);
  }

  /** A used, non-dot slot of directory i is the place of one of its children. */
  lemma SlotIsChild(t: seq<Entry>, i: nat, k: nat, s: nat) returns (c: nat)
    requires i < |t| && s < SLOTS && SlotAt(t, i, k, s).inode != 0 && !Dot(SlotAt(t, i, k, s).name)
    ensures 0 < c < |t| && Parent(t, c) == i && SlotAt(t, i, k, s) == DentOf(t, c)
    ensures ListedAs(t, InodeBlock(c)) == (InodeBlock(i), k, s)
  {
    hide Mkfs.Children, Mkfs.Parent, Place, Mkfs.DentOf;
    var j := 15 * k + s - 2;
    assert SlotAt(t, i, k, s) == Listing(t, i)[j + 2];
    assert j >= 0;
    c := Children(t, i, |t|)[j];
    KidPlace(t, i, j);
  }

  lemma BooksEntry(t: seq<Entry>, c: nat)
    requires 0 < |t| && (forall i :: 0 < i < |t| ==> Declared(t, i)) && 0 < c < |t| && Parent(t, c) >= 0
    ensures InodeBlock(c) in Books(t).entry && Books(t).entry[InodeBlock(c)] == ListedAs(t, InodeBlock(c))
  {
    hide ListedAs, HeldAs, Mkfs.Start, Mkfs.Parent;
    assert Declared(t, c);
  }

  lemma BooksOwner(t: seq<Entry>, e: nat)
    requires 0 < |t| && (forall i :: 0 < i < |t| ==> Declared(t, i)) && FIRST_INODE + |t| <= e < Start(t, |t|)
    ensures e in Books(t).owner && Books(t).owner[e] == HeldAs(t, e)
  {
    hide ListedAs, HeldAs, Mkfs.Start, Mkfs.Parent;
  }

  lemma SlotSound(t: seq<Entry>, total: nat, i: nat, k: nat, s: nat)
    requires Proper(t, total) && i < |t| && s < SLOTS
    ensures Sized(Image(t, total)) && SlotOk(Image(t, total), Books(t), InodeBlock(i), k, s, SlotAt(t, i, k, s))
  {
    hide Bitmap.Test, Mkfs.Image, Mkfs.SlotAt, ListedAs, HeldAs, Mkfs.NodeOf, Mkfs.Start, Books, Mkfs.Parent;
    ImageSized(t, total);
    if SlotAt(t, i, k, s).inode != 0 && !Dot(SlotAt(t, i, k, s).name) {
      var c := SlotIsChild(t, i, k, s);
      BooksEntry(t, c);
      ImageInode(t, total, InodeBlock(c));
    }
  }

  lemma DirSound(t: seq<Entry>, total: nat, i: nat, k: nat)
    requires Proper(t, total) && i < |t| && t[i].isDir
    ensures Sized(Image(t, total)) && DirOk(Image(t, total), Books(t), InodeBlock(i), k, DataBlock(t, i, k))
  {
    hide Bitmap.Test, Mkfs.Image, Mkfs.SlotAt, Books, AxfsInv.SlotOk, Mkfs.Start, Mkfs.Parent;
    ImageSized(t, total);
    forall s | 0 <= s < SLOTS
      ensures SlotOk(Image(t, total), Books(t), InodeBlock(i), k, s, DataBlock(t, i, k).slots[s])
    {
      SlotSound(t, total, i, k, s);
    }
  }

  lemma ExtentSound(t: seq<Entry>, total: nat, i: nat, k: nat)
    requires Proper(t, total) && i < |t| && k < DataCount(t, i)
    ensures var v, e := Image(t, total), Start(t, i) + k;
      && Sized(v) && 3 <= e && UsedBit(v, e) && e in Books(t).owner && Books(t).owner[e] == (InodeBlock(i), k)
      && if t[i].isDir then DirOk(v, Books(t), InodeBlock(i), k, v.disk[e]) else v.disk[e].DataB? && |v.disk[e].bytes| == BLOCK
  {
    hide Bitmap.Test, Mkfs.Image, Books, Mkfs.DataCount, Mkfs.Start, Mkfs.Parent, AxfsInv.DirOk, ListedAs;
    hide Mkfs.Children, Mkfs.Holder, Mkfs.Listing, Mkfs.DataBlock, Mkfs.BlockAt, Mkfs.FirstBits;
    HolderIs(t, i, k);
    ImageAt(t, total, Start(t, i) + k);
    BooksOwner(t, Start(t, i) + k);
    ImageData(t, total, i, k);
    if t[i].isDir { DirSound(t, total, i, k); } else { FileBlock(t, i, k); }
  }

  lemma FileBlock(t: seq<Entry>, i: nat, k: nat)
    requires i < |t| && k < DataCount(t, i) && !t[i].isDir
    ensures DataBlock(t, i, k).DataB? && |DataBlock(t, i, k).bytes| == BLOCK
  {
  }

  lemma NodeSound(t: seq<Entry>, total: nat, i: nat)
    requires Proper(t, total) && i < |t|
    ensures var v := Image(t, total);
      Sized(v) && Live(v, InodeBlock(i)) && Node(v, InodeBlock(i)) == NodeOf(t, i) && NodeOk(v, Books(t), InodeBlock(i))
  {
    hide Bitmap.Test, Mkfs.Image, Books, Mkfs.DataCount, Mkfs.Start, Mkfs.Parent, AxfsInv.DirOk;
    ImageInode(t, total, InodeBlock(i));
    var v, b := Image(t, total), InodeBlock(i);
    assert Node(v, b) == NodeOf(t, i);
    forall k | 0 <= k < |Node(v, b).extents| ensures ExtentOk(v, Books(t), b, k) {
      ExtentSound(t, total, i, k);
    }
  }

  lemma ImageInv(t: seq<Entry>, total: nat)
    requires Proper(t, total)
    ensures FsInv(Image(t, total), Books(t))
  {
    hide Bitmap.Test, Mkfs.Image, Books, Mkfs.Start, Mkfs.Parent, AxfsInv.NodeOk;
    ImageSized(t, total);
    var v := Image(t, total);
    forall b: nat | Live(v, b) ensures NodeOk(v, Books(t), b) {
      ImageInode(t, total, b);
      NodeSound(t, total, b - FIRST_INODE);
    }
    NodeSound(t, total, 0);
    ImageAt(t, total, 0);
    ImageAt(t, total, 1);
    ImageAt(t, total, 2);
  }

  // ---- contents ----

  /** Byte p of the blocks of file i is byte p of its content, zero past the end. */
  lemma ImageByte(t: seq<Entry>, total: nat, i: nat, p: nat)
    requires Proper(t, total) && i < |t| && !t[i].isDir
    ensures var v := Image(t, total);
      && Sized(v) && FileAt(v, InodeBlock(i)) && v.disk[InodeBlock(i)].node == NodeOf(t, i)
      && ByteAt(v, InodeBlock(i), p) == if p < |t[i].content| then t[i].content[p] else 0
  {
    hide Bitmap.Test, Mkfs.Image, Books, Mkfs.Start, Mkfs.Parent, AxfsInv.NodeOk;
    var v, b := Image(t, total), InodeBlock(i);
    ImageInv(t, total);
    ImageInode(t, total, b);
    SoundFile(v, Books(t), b);
    StartMonotone(t, 0, i);
    if p / BLOCK < DataCount(t, i) { ImageData(t, total, i, p / BLOCK); }
  }

  /** The kernel sees the content the manifest declared, and nothing after it. */
  lemma ImageContent(t: seq<Entry>, total: nat, i: nat)
    requires Proper(t, total) && i < |t| && !t[i].isDir
    ensures var v := Image(t, total);
      Sized(v) && FileAt(v, InodeBlock(i)) && Tidy(v, InodeBlock(i)) && Content(v, InodeBlock(i)) == t[i].content
  {
    hide Mkfs.Image, AxfsWrite.ByteAt, Mkfs.Start;
    ImageByte(t, total, i, 0);
    forall p: nat
      ensures ByteAt(Image(t, total), InodeBlock(i), p) == if p < |t[i].content| then t[i].content[p] else 0
    {
      ImageByte(t, total, i, p);
    }
  }

  /** The formatter hands the kernel a sound volume. */
  lemma ImageSound(t: seq<Entry>, total: nat)
    requires Proper(t, total)
    ensures Sound(Image(t, total))
  {
    hide Mkfs.Image, Mkfs.Start, Books, AxfsInv.FsInv, AxfsWrite.Tidy, AxfsWrite.Content;
    ImageSized(t, total);
    ImageInv(t, total);
    var v := Image(t, total);
    forall b: nat | Live(v, b) && FileAt(v, b) ensures Tidy(v, b) {
      ImageInode(t, total, b);
      ImageContent(t, total, b - FIRST_INODE);
    }
  }

  // ---- lookup ----

  predicate DistinctSiblings(t: seq<Entry>) {
    forall i, j :: 0 < i < j < |t| && Parent(t, i) == Parent(t, j) ==> BaseName(t[i].path) != BaseName(t[j].path)
  }

  predicate NoDots(t: seq<Entry>) {
    forall i :: 0 < i < |t| ==> !Dot(BaseName(t[i].path))
  }

  /** A path is its parent's path and one more component, and is longer. */
  lemma PathStep(t: seq<Entry>, total: nat, i: nat)
    requires Proper(t, total) && 0 < i < |t|
    ensures Parent(t, i) >= 0 && |t[Parent(t, i)].path| < |t[i].path|
    ensures Components(t[i].path) == Components(t[Parent(t, i)].path) + [BaseName(t[i].path)]
  {
    assert Declared(t, i);
    var s := LastSlash(t[i].path);
    if s < 0 {
      assert t[i].path[0..] == t[i].path;
    }
  }

  /** Every child of a directory occupies exactly one of its slots. */
  lemma ChildOnce(t: seq<Entry>, total: nat, i: nat)
    requires Proper(t, total) && 0 < i < |t|
    ensures Parent(t, i) >= 0 && Place(t, i) / 15 < DataCount(t, Parent(t, i))
    ensures forall k, s :: 0 <= k && 0 <= s < SLOTS && 15 * k + s >= 2 ==>
              (SlotAt(t, Parent(t, i), k, s).inode == InodeBlock(i) <==> 15 * k + s == Place(t, i))
    ensures SlotAt(t, Parent(t, i), Place(t, i) / 15, Place(t, i) % 15) == DentOf(t, i)
  {
    hide Mkfs.Children, Mkfs.Parent;
    assert Declared(t, i);
    var p := Parent(t, i);
    var kids := Children(t, p, |t|);
    ChildrenAre(t, p, |t|);
    assert i in kids;
    assert kids[IndexOf(kids, i)] == i;
  }

  lemma ImageDir(t: seq<Entry>, total: nat, p: nat)
    requires Proper(t, total) && p < |t| && t[p].isDir
    ensures var v := Image(t, total);
      && Sized(v) && DirAt(v, InodeBlock(p)) && v.disk[InodeBlock(p)].node == NodeOf(t, p)
      && (forall k :: 0 <= k < DataCount(t, p) ==> v.disk[NodeOf(t, p).extents[k]] == DataBlock(t, p, k))
  {
    hide Bitmap.Test, Mkfs.Image, Books, Mkfs.Start, Mkfs.Parent, AxfsInv.NodeOk, Mkfs.DataBlock, Mkfs.DataCount;
    ImageInv(t, total);
    ImageInode(t, total, InodeBlock(p));
    SoundDir(Image(t, total), Books(t), InodeBlock(p));
    forall k | 0 <= k < DataCount(t, p)
      ensures Image(t, total).disk[NodeOf(t, p).extents[k]] == DataBlock(t, p, k)
    {
      ImageData(t, total, p, k);
    }
  }

  /** A scan of directory p stops at the slot the formatter filled, if it hits. */
  lemma ImageScan(t: seq<Entry>, total: nat, p: nat, name: string)
    requires Proper(t, total) && p < |t| && t[p].isDir
    ensures var v, ext := Image(t, total), NodeOf(t, p).extents;
      && Sized(v) && DirBlocks(v, ext)
      && match Scan(v, ext, 0, Named(name))
         case Some((k, s)) =>
           k < DataCount(t, p) && s < SLOTS && Hit(SlotAt(t, p, k, s), Named(name))
           && v.disk[ext[k]].DirB? && |v.disk[ext[k]].slots| == SLOTS && v.disk[ext[k]].slots[s] == SlotAt(t, p, k, s)
         case None => forall k, s :: 0 <= k < DataCount(t, p) && 0 <= s < SLOTS ==> !Hit(SlotAt(t, p, k, s), Named(name))
  {
    hide Mkfs.Image, Mkfs.SlotAt, Mkfs.Start, Mkfs.Parent, AxfsDir.Hit, AxfsDir.Scan, Mkfs.DataCount;
    ImageDir(t, total, p);
    var v, ext := Image(t, total), NodeOf(t, p).extents;
    match Scan(v, ext, 0, Named(name))
    case Some((k, s)) => assert v.disk[ext[k]] == DataBlock(t, p, k);
    case None =>
      forall k, s | 0 <= k < DataCount(t, p) && 0 <= s < SLOTS ensures !Hit(SlotAt(t, p, k, s), Named(name)) {
        assert v.disk[ext[k]] == DataBlock(t, p, k);
        assert !HitAt(v, ext, k, s, Named(name));
      }
  }

  /** A child with a name of its own is found under that name. */
  lemma ChildFound(t: seq<Entry>, total: nat, i: nat)
    requires Proper(t, total) && 0 < i < |t| && DistinctSiblings(t) && NoDots(t)
    ensures var v, p := Image(t, total), Parent(t, i);
      p >= 0 && Sized(v) && ListDir(v, InodeBlock(p)) && FindChild(v, InodeBlock(p), BaseName(t[i].path)) == InodeBlock(i)
  {
    hide Mkfs.Image, Mkfs.SlotAt, Mkfs.Start, Mkfs.Parent, AxfsDir.Scan, Mkfs.DataCount, Mkfs.Children, Place, ListedAs;
    assert Declared(t, i);
    var v, p, name := Image(t, total), Parent(t, i), BaseName(t[i].path);
    ImageDir(t, total, p);
    ImageScan(t, total, p, name);
    ChildOnce(t, total, i);
    match Scan(v, NodeOf(t, p).extents, 0, Named(name))
    case None =>
    case Some((k, s)) =>
      var c := SlotIsChild(t, p, k, s);
  }

  /** axfs_lookup on the path of a manifest node finds its inode. */
  lemma {:induction false} LookupFinds(t: seq<Entry>, total: nat, i: nat)
    requires Proper(t, total) && i < |t| && DistinctSiblings(t) && NoDots(t)
    ensures Sized(Image(t, total)) && Walk(Image(t, total), InodeBlock(0), Components(t[i].path)) == Some(InodeBlock(i))
    decreases |t[i].path|
  {
    hide Mkfs.Image, Mkfs.Start, Mkfs.Parent, Paths.Components, AxfsDir.FindChild, AxfsDir.ListDir, AxfsLookup.Walk;
    ImageSized(t, total);
    if i == 0 {
      RootWalk(t, total);
    } else {
      var p := Parent(t, i);
      PathStep(t, total, i);
      LookupFinds(t, total, p);
      ChildFound(t, total, i);
      var v := Image(t, total);
      WalkConcat(v, InodeBlock(0), Components(t[p].path), [BaseName(t[i].path)]);
      WalkOne(v, InodeBlock(p), BaseName(t[i].path));
      assert Declared(t, i);
    }
  }

  lemma RootWalk(t: seq<Entry>, total: nat)
    requires Proper(t, total) && Sized(Image(t, total))
    ensures Walk(Image(t, total), InodeBlock(0), Components(t[0].path)) == Some(InodeBlock(0))
  {
    hide Mkfs.Image;
  }

  /** Formatter and kernel agree: looking a file up and reading it gives its content. */
  lemma FormatterAgrees(t: seq<Entry>, total: nat, i: nat)
    requires Proper(t, total) && i < |t| && !t[i].isDir && DistinctSiblings(t) && NoDots(t)
    ensures var v := Image(t, total);
      && Sound(v) && Walk(v, v.root, Components(t[i].path)) == Some(InodeBlock(i)) && FileAt(v, InodeBlock(i))
      && Read(v, InodeBlock(i), 0, |t[i].content|) == t[i].content
  {
    hide Mkfs.Image, Mkfs.Start, AxfsLookup.Walk, AxfsWrite.Content, AxfsWrite.Tidy, AxfsWrite.Read, AxfsInv.FsInv, AxfsRuns.AllTidy;
    ImageSized(t, total);
    ImageSound(t, total);
    LookupFinds(t, total, i);
    ImageContent(t, total, i);
    ReadSlices(Image(t, total), InodeBlock(i), 0, |t[i].content|);
  }

  // ---- when the path of a node does not lead to it ----

  /** A child named like one of the two dot entries is shadowed by that entry. */
  lemma DotShadows(t: seq<Entry>, total: nat, i: nat)
    requires Proper(t, total) && 0 < i < |t| && Dot(BaseName(t[i].path))
    ensures var v, p := Image(t, total), Parent(t, i);
      p >= 0 && Sized(v) && ListDir(v, InodeBlock(p)) && FindChild(v, InodeBlock(p), BaseName(t[i].path)) != InodeBlock(i)
  {
    DotNodes(t, total, i);
    hide Mkfs.Image, Mkfs.Start, Mkfs.DataCount, Mkfs.Children, Paths.Components, Mkfs.Parent, Mkfs.SlotAt, AxfsDir.Scan;
    hide Paths.BaseName;
    var p := Parent(t, i);
    ImageDir(t, total, p);
    var v, ext := Image(t, total), NodeOf(t, p).extents;
    assert v.disk[ext[0]] == DataBlock(t, p, 0);
    var slots := v.disk[ext[0]].slots;
    assert slots[0] == SlotAt(t, p, 0, 0) && slots[1] == SlotAt(t, p, 0, 1);
    assert DirBlock(v, ext[0]);
    ScanDots(v, ext, BaseName(t[i].path), slots);
  }

  /** The two dot entries of a node's directory, neither of which names the node. */
  lemma DotNodes(t: seq<Entry>, total: nat, i: nat)
    requires Proper(t, total) && 0 < i < |t|
    ensures var p := Parent(t, i);
      && p >= 0 && t[p].isDir
      && SlotAt(t, p, 0, 0).name == "." && SlotAt(t, p, 0, 0).inode !in {0, InodeBlock(i)}
      && SlotAt(t, p, 0, 1).name == ".." && SlotAt(t, p, 0, 1).inode !in {0, InodeBlock(i)}
  {
    assert Parent(t, 0) == -1;
    hide Mkfs.Start, Mkfs.DataCount, Mkfs.Children, Paths.Components, Paths.BaseName, Mkfs.Parent;
    assert Declared(t, i);
    var p := Parent(t, i);
    PathStep(t, total, i);
    if p > 0 { PathStep(t, total, p); }
    var l := Listing(t, p);
    assert SlotAt(t, p, 0, 0) == l[0] && SlotAt(t, p, 0, 1) == l[1];
    assert l[0].inode == InodeBlock(p);
  }

  lemma ScanDots(v: Vol, ext: seq<nat>, name: string, slots: seq<Dent>)
    requires Sized(v) && DirBlocks(v, ext) && |ext| > 0 && v.disk[ext[0]] == DirB(slots) && |slots| == SLOTS && Dot(name)
    requires slots[0].inode != 0 && slots[0].name == "." && slots[1].inode != 0 && slots[1].name == ".."
    ensures Scan(v, ext, 0, Named(name)) == Some((0, if name == "." then 0 else 1))
  {
  }

  /** Looking up every manifest path finds its own node exactly when siblings have
      different names and none is named "." or "..". */
  lemma LookupExact(t: seq<Entry>, total: nat)
    requires Proper(t, total)
    ensures Sized(Image(t, total))
    ensures (forall i :: 0 <= i < |t| ==> Walk(Image(t, total), InodeBlock(0), Components(t[i].path)) == Some(InodeBlock(i)))
            <==> DistinctSiblings(t) && NoDots(t)
  {
    hide Mkfs.Image, Mkfs.Start, Mkfs.Parent, Paths.Components, AxfsDir.FindChild, AxfsDir.ListDir, AxfsLookup.Walk;
    ImageSized(t, total);
    if DistinctSiblings(t) && NoDots(t) {
      forall i | 0 <= i < |t|
        ensures Walk(Image(t, total), InodeBlock(0), Components(t[i].path)) == Some(InodeBlock(i))
      {
        LookupFinds(t, total, i);
      }
    } else if (forall i :: 0 <= i < |t| ==> Walk(Image(t, total), InodeBlock(0), Components(t[i].path)) == Some(InodeBlock(i))) {
      FoundMeansDistinct(t, total);
      assert false;
    }
  }

  /** Twins share their components, so a walk cannot tell them apart. */
  lemma TwinsCollide(t: seq<Entry>, total: nat, i: nat, j: nat)
    requires Proper(t, total) && 0 < i < j < |t| && Parent(t, i) == Parent(t, j) && BaseName(t[i].path) == BaseName(t[j].path)
    ensures Components(t[i].path) == Components(t[j].path)
  {
    hide Paths.Components, Mkfs.Parent, Paths.BaseName, Mkfs.Start;
    PathStep(t, total, i);
    PathStep(t, total, j);
  }

  lemma DotNotFound(t: seq<Entry>, total: nat, i: nat)
    requires Proper(t, total) && 0 < i < |t| && Dot(BaseName(t[i].path)) && Sized(Image(t, total)) && Parent(t, i) >= 0
    requires Walk(Image(t, total), InodeBlock(0), Components(t[Parent(t, i)].path)) == Some(InodeBlock(Parent(t, i)))
    ensures Walk(Image(t, total), InodeBlock(0), Components(t[i].path)) != Some(InodeBlock(i))
  {
    hide Mkfs.Image, Mkfs.Start, Mkfs.Parent, Paths.Components, AxfsDir.FindChild, AxfsDir.ListDir, AxfsLookup.Walk;
    var v, p := Image(t, total), Parent(t, i);
    PathStep(t, total, i);
    WalkConcat(v, InodeBlock(0), Components(t[p].path), [BaseName(t[i].path)]);
    WalkOne(v, InodeBlock(p), BaseName(t[i].path));
    assert Declared(t, i);
    DotShadows(t, total, i);
  }

  lemma FoundMeansDistinct(t: seq<Entry>, total: nat)
    requires Proper(t, total) && Sized(Image(t, total))
    requires forall i :: 0 <= i < |t| ==> Walk(Image(t, total), InodeBlock(0), Components(t[i].path)) == Some(InodeBlock(i))
    ensures DistinctSiblings(t) && NoDots(t)
  {
    hide Mkfs.Image, Mkfs.Start, Mkfs.Parent, Paths.Components, AxfsLookup.Walk, Paths.BaseName, Dot;
    forall i, j | 0 < i < j < |t| && Parent(t, i) == Parent(t, j) ensures BaseName(t[i].path) != BaseName(t[j].path) {
      if BaseName(t[i].path) == BaseName(t[j].path) { TwinsCollide(t, total, i, j); }
    }
    forall i | 0 < i < |t| ensures !Dot(BaseName(t[i].path)) {
      assert Declared(t, i);
      if Dot(BaseName(t[i].path)) { DotNotFound(t, total, i); }
    }
  }

  /** The root with two files: "a" and "/a" are different paths. */
  function Twins(): seq<Entry> {
    [Entry("", true, []), Entry("a", false, [1]), Entry("/a", false, [2])]
  }

  /** Of two siblings with one name, at most one is found under its path. */
  lemma TwinsLost(t: seq<Entry>, total: nat, i: nat, j: nat)
    requires Proper(t, total) && 0 < i < j < |t| && Parent(t, i) == Parent(t, j) && BaseName(t[i].path) == BaseName(t[j].path)
    ensures Sized(Image(t, total))
    ensures Walk(Image(t, total), InodeBlock(0), Components(t[i].path)) != Some(InodeBlock(i))
      || Walk(Image(t, total), InodeBlock(0), Components(t[j].path)) != Some(InodeBlock(j))
  {
    hide Mkfs.Image, Paths.Components, AxfsLookup.Walk, Mkfs.Parent, Mkfs.Start, Paths.BaseName;
    ImageSized(t, total);
    TwinsCollide(t, total, i, j);
  }

  /** Two different paths can name the same place: both are the child "a" of the
      root, so looking one of them up does not find its node. */
  lemma SlashedTwin()
    ensures var t := Twins();
      && t[1].path != t[2].path && Proper(t, MAX_BLOCKS) && Sized(Image(t, MAX_BLOCKS))
      && (|| Walk(Image(t, MAX_BLOCKS), InodeBlock(0), Components(t[1].path)) != Some(InodeBlock(1))
          || Walk(Image(t, MAX_BLOCKS), InodeBlock(0), Components(t[2].path)) != Some(InodeBlock(2)))
  {
    TwinParents();
    TwinsProper(Twins());
    var t := Twins();
    assert t[1].path != t[2].path && |t| == 3;
    hide Twins, Mkfs.Image, Paths.Components, AxfsLookup.Walk, Mkfs.Parent, Mkfs.Start, Paths.BaseName, Proper;
    TwinsLost(t, MAX_BLOCKS, 1, 2);
  }

  lemma TwinsProper(t: seq<Entry>)
    requires t == Twins()
    ensures Proper(t, MAX_BLOCKS)
  {
    TwinParents();
    hide Mkfs.Parent, Paths.BaseName, Mkfs.DataCount;
    assert Declared(t, 1) && Declared(t, 2);
    assert Start(t, 3) == Start(t, 2) + DataCount(t, 2);
    assert Start(t, 2) == Start(t, 1) + DataCount(t, 1);
    assert Start(t, 1) == 8 + DataCount(t, 0);
  }

  lemma TwinParents()
    ensures var t := Twins();
      && Parent(t, 1) == 0 && Parent(t, 2) == 0
      && BaseName(t[1].path) == "a" && BaseName(t[2].path) == "a"
  {
    var t := Twins();
    LastSlashIs("a", -1);
    LastSlashIs("/a", 0);
    assert t[2].path[..0] == "" && t[2].path[1..] == "a" && t[1].path[0..] == "a";
    assert FindPath(t, "", 0) == 0;
  }
}
