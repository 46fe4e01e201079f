/** What the formatter records beside names and contents: the dot entries, and the
    kind and size of every node. */
module MkfsEntries {
  import opened Sequences
  import opened Bitmap
  import opened Axfs
  import opened AxfsInv
  import opened AxfsDir
  import opened AxfsNames
  import opened AxfsLookup
  import opened Paths
  import opened Mkfs
  import opened MkfsImage

  /** The parent of a node; the root is its own. */
  function Above(t: seq<Entry>, i: nat): (p: nat)
    requires i < |t|
    ensures p < |t|
  {
    if Parent(t, i) >= 0 then Parent(t, i) else i
  }

  lemma FirstSlots(t: seq<Entry>, i: nat)
    requires i < |t| && t[i].isDir
    ensures DataBlock(t, i, 0).DirB? && |DataBlock(t, i, 0).slots| == SLOTS && DataCount(t, i) > 0
    ensures DataBlock(t, i, 0).slots[0] == Dent(InodeBlock(i), true, ".")
    ensures DataBlock(t, i, 0).slots[1] == Dent(InodeBlock(Above(t, i)), true, "..")
  {
    hide Mkfs.Parent, Mkfs.Children;
    assert SlotAt(t, i, 0, 0) == Listing(t, i)[0] && SlotAt(t, i, 0, 1) == Listing(t, i)[1];
  }

  /** In every directory "." leads to itself and ".." to its parent, at the root to
      the root. */
  lemma DotsLead(t: seq<Entry>, total: nat, i: nat)
    requires Proper(t, total) && i < |t| && t[i].isDir
    ensures var v, b := Image(t, total), InodeBlock(i);
      Sized(v) && ListDir(v, b) && FindChild(v, b, ".") == b && FindChild(v, b, "..") == InodeBlock(Above(t, i))
  {
    hide Mkfs.Image, Mkfs.Start, Mkfs.DataCount, Mkfs.Children, Mkfs.Parent, Mkfs.SlotAt, AxfsDir.Scan, Mkfs.DataBlock;
    ImageDir(t, total, i);
    FirstSlots(t, i);
    var v, ext := Image(t, total), NodeOf(t, i).extents;
    assert v.disk[ext[0]] == DataBlock(t, i, 0);
    assert DirBlock(v, ext[0]);
    ScanDots(v, ext, ".", v.disk[ext[0]].slots);
    ScanDots(v, ext, "..", v.disk[ext[0]].slots);
  }

  /** Down a manifest path and up again. */
  lemma UpAgain(t: seq<Entry>, total: nat, i: nat)
    requires Proper(t, total) && i < |t| && t[i].isDir && DistinctSiblings(t) && NoDots(t)
    ensures Sized(Image(t, total))
    ensures Walk(Image(t, total), InodeBlock(0), Components(t[i].path) + [".."]) == Some(InodeBlock(Above(t, i)))
  {
    hide Mkfs.Image, Mkfs.Start, Mkfs.Parent, Paths.Components, AxfsDir.FindChild, AxfsDir.ListDir, AxfsLookup.Walk;
    LookupFinds(t, total, i);
    DotsLead(t, total, i);
    var v := Image(t, total);
    WalkConcat(v, InodeBlock(0), Components(t[i].path), [".."]);
    WalkOne(v, InodeBlock(i), "..");
  }

  /** Every node's entry names its inode and its kind. */
  lemma EntryKind(t: seq<Entry>, total: nat, i: nat)
    requires Proper(t, total) && 0 < i < |t| && DistinctSiblings(t) && NoDots(t)
    ensures var v, b := Image(t, total), InodeBlock(Above(t, i));
      Sized(v) && ListDir(v, b) && EntryOf(v, b, BaseName(t[i].path)) == Some(Dent(InodeBlock(i), t[i].isDir, BaseName(t[i].path)))
  {
    hide Mkfs.Image, Mkfs.SlotAt, Mkfs.Start, Mkfs.Parent, AxfsDir.Scan, Mkfs.DataCount, Mkfs.Children, MkfsImage.Place;
    ChildFound(t, total, i);
    assert Declared(t, i);
    var v, p, name := Image(t, total), Parent(t, i), BaseName(t[i].path);
    ImageDir(t, total, p);
    ImageScan(t, total, p, name);
    match Scan(v, NodeOf(t, p).extents, 0, Named(name))
    case None =>
    case Some((k, s)) =>
      var c := SlotIsChild(t, p, k, s);
  }

  /** An inode has the kind of its node; the size of a file is its length, that of a
      directory the size of its blocks, and no node has more blocks than it needs. */
  lemma KindAndSize(t: seq<Entry>, total: nat, i: nat)
    requires Proper(t, total) && i < |t|
    ensures var v, b := Image(t, total), InodeBlock(i);
      && Sized(v) && Live(v, b) && Node(v, b).isDir == t[i].isDir
      && (if t[i].isDir then Node(v, b).size == 4096 * |Node(v, b).extents|
          else
            && Node(v, b).size == |t[i].content|
            && (|Node(v, b).extents| == 1 || 4096 * (|Node(v, b).extents| - 1) < |t[i].content|))
  {
    hide Mkfs.Image, Mkfs.Start, Mkfs.Parent;
    NodeSound(t, total, i);
  }
}
