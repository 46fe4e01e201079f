/** The image tools/mkfs_axiomefs.c lays out for a table of manifest nodes. */
module Mkfs {
  import opened Bitmap
  import opened Axfs
  import opened Paths

  const MAX_NODES := 256
  const FIRST_INODE := 5

  /** A manifest node; node 0 is the synthetic root with the empty path. */
  datatype Entry = Entry(path: string, isDir: bool, content: seq<bv8>)

  /** The first node with this path, or -1. */
  function FindPath(t: seq<Entry>, path: string, i: nat): (r: int)
    requires i <= |t|
    ensures -1 <= r < |t| && (r >= 0 ==> i <= r && t[r].path == path)
    ensures r < 0 ==> forall j :: i <= j < |t| ==> t[j].path != path
    decreases |t| - i
  {
    if i == |t| then -1 else if t[i].path == path then i else FindPath(t, path, i + 1)
  }

  /** find_parent; the root has none. */
  function Parent(t: seq<Entry>, i: nat): (r: int)
    requires i < |t|
    ensures -1 <= r < |t|
  {
    var s := LastSlash(t[i].path);
    if i == 0 then -1 else if s < 0 then 0 else FindPath(t, t[i].path[..s], 0)
  }

  /** The nodes below c whose parent is p, in table order. */
  function Children(t: seq<Entry>, p: nat, c: nat): (r: seq<nat>)
    requires c <= |t|
    ensures |r| <= c
    ensures forall j :: 0 <= j < |r| ==> r[j] < c
  {
    if c == 0 then []
    else if Parent(t, c - 1) == p then Children(t, p, c - 1) + [c - 1]
    else Children(t, p, c - 1)
  }

  /** Children lists exactly the nodes with that parent, in increasing order. */
  lemma ChildrenAre(t: seq<Entry>, p: nat, c: nat)
    requires c <= |t|
    ensures var r := Children(t, p, c);
      && (forall j :: 0 <= j < |r| ==> Parent(t, r[j]) == p)
      && (forall x: nat :: x < c && Parent(t, x) == p ==> x in r)
      && (forall a, b :: 0 <= a < b < |r| ==> r[a] < r[b])
  {
    hide Parent;
    if c > 0 { ChildrenAre(t, p, c - 1); }
  }

  /** How many data blocks node i gets. */
  function DataCount(t: seq<Entry>, i: nat): (n: nat)
    requires i < |t|
    ensures 1 <= n <= MAX_EXTENTS
  {
    var n := if t[i].isDir then (2 + |Children(t, i, |t|)| + 14) / 15
             else (|t[i].content| + BLOCK - 1) / BLOCK;
    if n < 1 then 1 else if n > MAX_EXTENTS then MAX_EXTENTS else n
  }

  /** The first data block of node i; data blocks follow the inode blocks. */
  function Start(t: seq<Entry>, i: nat): (s: nat)
    requires i <= |t|
    ensures s >= FIRST_INODE + |t|
  {
    if i == 0 then FIRST_INODE + |t| else Start(t, i - 1) + DataCount(t, i - 1)
  }

  /** The node that data block e was assigned to, searching down from node i. */
  function Holder(t: seq<Entry>, e: nat, i: nat): (r: nat)
    requires i < |t| && FIRST_INODE + |t| <= e < Start(t, i + 1)
    ensures r <= i && Start(t, r) <= e < Start(t, r + 1)
  {
    if e >= Start(t, i) then i else Holder(t, e, i - 1)
  }

  lemma StartMonotone(t: seq<Entry>, i: nat, j: nat)
    requires i <= j <= |t|
    ensures Start(t, i) <= Start(t, j)
    decreases j - i
  {
    if i < j { StartMonotone(t, i, j - 1); }
  }

  /** The data blocks of node i are held by node i. */
  lemma HolderIs(t: seq<Entry>, i: nat, k: nat)
    requires i < |t| && k < DataCount(t, i)
    ensures Start(t, i) + k < Start(t, |t|) && Holder(t, Start(t, i) + k, |t| - 1) == i
  {
    var e := Start(t, i) + k;
    StartMonotone(t, i + 1, |t|);
    var h := Holder(t, e, |t| - 1);
    if h < i { StartMonotone(t, h + 1, i); }
    if h > i { StartMonotone(t, i + 1, h); }
  }

  function InodeBlock(i: nat): nat { FIRST_INODE + i }

  /** n consecutive block numbers. */
  function Span(start: nat, n: nat): (r: seq<nat>)
    ensures |r| == n && forall k :: 0 <= k < n ==> r[k] == start + k
  {
    if n == 0 then [] else Span(start, n - 1) + [start + n - 1]
  }

  function NodeOf(t: seq<Entry>, i: nat): Inode
    requires i < |t|
  {
    Inode(t[i].isDir, if t[i].isDir then DataCount(t, i) * BLOCK else |t[i].content|,
          Span(Start(t, i), DataCount(t, i)))
  }

  function DentOf(t: seq<Entry>, c: nat): Dent
    requires c < |t|
  {
    Dent(InodeBlock(c), t[c].isDir, BaseName(t[c].path))
  }

  /** What directory i lists: itself, its parent, then its children in table order. */
  function Listing(t: seq<Entry>, i: nat): (r: seq<Dent>)
    requires i < |t|
    ensures |r| == 2 + |Children(t, i, |t|)|
  {
    var up := if Parent(t, i) >= 0 then Parent(t, i) else i;
    var kids := Children(t, i, |t|);
    [Dent(InodeBlock(i), true, "."), Dent(InodeBlock(up), true, "..")] + seq(|kids|, j requires 0 <= j < |kids| => DentOf(t, kids[j]))
  }

  /** Slot s of data block k of directory i. */
  function SlotAt(t: seq<Entry>, i: nat, k: nat, s: nat): Dent
    requires i < |t|
  {
    if 15 * k + s < |Listing(t, i)| then Listing(t, i)[15 * k + s] else FREE_SLOT
  }

  /** Data block k of node i. */
  function DataBlock(t: seq<Entry>, i: nat, k: nat): Block
    requires i < |t|
  {
    if t[i].isDir then DirB(seq(SLOTS, s requires 0 <= s => SlotAt(t, i, k, s)))
    else DataB(seq(BLOCK, x requires 0 <= x =>
                     if k * BLOCK + x < |t[i].content| then t[i].content[k * BLOCK + x] else 0))
  }

  function BlockAt(t: seq<Entry>, b: nat): Block {
    if b < 2 then SuperB
    else if FIRST_INODE <= b < FIRST_INODE + |t| then InodeB(NodeOf(t, b - FIRST_INODE))
    else if FIRST_INODE + |t| <= b < Start(t, |t|) && |t| > 0 then
      var i := Holder(t, b, |t| - 1);
      DataBlock(t, i, b - Start(t, i))
    else DataB(Zeros())
  }

  /** A bitmap with the first n bits set. */
  function FirstBits(n: nat): (bm: seq<bv8>)
    requires n <= 8 * BITMAP_BYTES
    ensures |bm| == BITMAP_BYTES
    ensures forall j :: 0 <= j < 8 * BITMAP_BYTES ==> (Test(bm, j) <==> j < n)
  {
    if n == 0 then
      assert forall k :: 0 <= k < 8 ==> 0 & Mask(k) == 0;
      seq(BITMAP_BYTES, _ => 0)
    else
      SetBits(FirstBits(n - 1), n - 1);
      Set(FirstBits(n - 1), n - 1)
  }

  /** write_fs. */
  function Image(t: seq<Entry>, total: nat): Vol
    requires Start(t, |t|) <= MAX_BLOCKS
  {
    Vol(total, InodeBlock(0), FirstBits(Start(t, |t|)), seq(total, b requires 0 <= b => BlockAt(t, b)))
  }
}
