/** tools/mkfs_axiomefs.c as it is written: a node table resolved, blocks assigned by a
    running counter, and the image filled by nested loops. */
module MkfsBuild {
  import opened Bitmap
  import opened Axfs
  import opened Paths
  import opened Mkfs

  /** find_parent for node i > 0. */
  method FindParent(t: seq<Entry>, i: nat) returns (p: int)
    requires 0 < i < |t|
    ensures p == Parent(t, i)
  {
    var path := t[i].path;
    var cut := 0;
    for x := 0 to |path|
      invariant cut <= x && (cut > 0 ==> path[cut - 1] == '/') && forall y :: cut <= y < x ==> path[y] != '/'
    {
      if path[x] == '/' { cut := x + 1; }
    }
    LastSlashIs(path, cut - 1);
    if cut == 0 { return 0; }
    var j := 0;
    while j < |t|
      invariant j <= |t| && FindPath(t, path[..cut - 1], 0) == FindPath(t, path[..cut - 1], j)
    {
      if t[j].path == path[..cut - 1] { return j; }
      j := j + 1;
    }
    return -1;
  }

  /** The last loop of build_tree: every node's parent index, -1 for the root. */
  method ResolveParents(t: seq<Entry>) returns (parent: seq<int>)
    ensures |parent| == |t| && forall i :: 0 <= i < |t| ==> parent[i] == Parent(t, i)
  {
    parent := [];
    for i := 0 to |t|
      invariant |parent| == i && forall j :: 0 <= j < i ==> parent[j] == Parent(t, j)
    {
      if i == 0 {
        parent := parent + [-1];
      } else {
        var p := FindParent(t, i);
        parent := parent + [p];
      }
    }
  }

  ghost predicate Resolved(t: seq<Entry>, parent: seq<int>) {
    |parent| == |t| && forall i :: 0 <= i < |t| ==> parent[i] == Parent(t, i)
  }

  method CountChildren(t: seq<Entry>, parent: seq<int>, i: nat) returns (n: nat)
    requires Resolved(t, parent) && i < |t|
    ensures n == |Children(t, i, |t|)|
  {
    n := 0;
    for c := 0 to |t|
      invariant n == |Children(t, i, c)|
    {
      if parent[c] == i { n := n + 1; }
    }
  }

  ghost predicate Assigned(t: seq<Entry>, first: seq<nat>, count: seq<nat>, i: nat) {
    i < |t| && i < |first| && i < |count| && first[i] == Start(t, i) && count[i] == DataCount(t, i)
  }

  method BlocksFor(t: seq<Entry>, parent: seq<int>, i: nat) returns (nd: nat)
    requires Resolved(t, parent) && i < |t|
    ensures nd == DataCount(t, i)
  {
    if t[i].isDir {
      var kids := CountChildren(t, parent, i);
      nd := (2 + kids + 14) / 15;
    } else {
      nd := (|t[i].content| + BLOCK - 1) / BLOCK;
    }
    if nd < 1 { nd := 1; }
    if nd > MAX_EXTENTS { nd := MAX_EXTENTS; }
  }

  /** The first loop of write_fs: data blocks handed out from a running counter. */
  method AssignBlocks(t: seq<Entry>, parent: seq<int>) returns (first: seq<nat>, count: seq<nat>, top: nat)
    requires Resolved(t, parent)
    ensures |first| == |count| == |t| && top == Start(t, |t|)
    ensures forall i :: 0 <= i < |t| ==> Assigned(t, first, count, i)
  {
    hide Mkfs.DataCount, Mkfs.Parent;
    first, count, top := [], [], FIRST_INODE + |t|;
    for i := 0 to |t|
      invariant |first| == |count| == i && top == Start(t, i)
      invariant forall j :: 0 <= j < i ==> Assigned(t, first, count, j)
    {
      var nd := BlocksFor(t, parent, i);
      ghost var first0, count0 := first, count;
      first, count, top := first + [top], count + [nd], top + nd;
      forall j | 0 <= j < i ensures Assigned(t, first, count, j) {
        assert Assigned(t, first0, count0, j);
      }
    }
  }

  /** The bitmap loop of write_fs. */
  method MarkUsed(top: nat) returns (bitmap: array<bv8>)
    requires top <= MAX_BLOCKS
    ensures bitmap[..] == FirstBits(top)
  {
    bitmap := new bv8[BITMAP_BYTES](_ => 0);
    assert bitmap[..] == FirstBits(0);
    for b := 0 to top
      invariant bitmap[..] == FirstBits(b)
    {
      bitmap[b / 8] := bitmap[b / 8] | Mask(b % 8);
      assert bitmap[..] == Set(FirstBits(b), b);
    }
  }

  /** The children found so far come first among all children. */
  lemma {:induction false} ChildrenPrefix(t: seq<Entry>, p: nat, c: nat, d: nat)
    requires c <= d <= |t|
    ensures Children(t, p, c) <= Children(t, p, d)
    decreases d - c
  {
    if c < d { ChildrenPrefix(t, p, c, d - 1); }
  }

  /** What moving the child cursor on by one does to the listing written so far. */
  lemma {:induction false} CursorStep(t: seq<Entry>, i: nat, c: nat)
    requires i < |t| && c < |t|
    ensures var n := |Children(t, i, c)|;
      if Parent(t, c) == i
      then |Children(t, i, c + 1)| == n + 1 && 2 + n < |Listing(t, i)| && Listing(t, i)[2 + n] == DentOf(t, c)
      else Children(t, i, c + 1) == Children(t, i, c)
  {
    if Parent(t, c) == i {
      ChildrenPrefix(t, i, c + 1, |t|);
      assert Children(t, i, |t|)[|Children(t, i, c)|] == c;
    }
  }

  /** How far the child cursor is when block k of directory i starts. */
  ghost predicate Cursor(t: seq<Entry>, i: nat, k: nat, child: nat)
    requires i < |t|
  {
    && child <= |t| && (k == 0 ==> child == 0)
    && (k > 0 ==> 2 + |Children(t, i, child)| == 15 * k || (child == |t| && |Listing(t, i)| <= 15 * k))
  }

  /** The slots of block k below `local` are written, the others are still free. */
  ghost predicate Filled(t: seq<Entry>, i: nat, k: nat, slots: seq<Dent>, local: nat)
    requires i < |t|
  {
    && local <= |slots| == SLOTS
    && (forall s :: 0 <= s < local ==> slots[s] == SlotAt(t, i, k, s))
    && (forall s :: local <= s < SLOTS ==> slots[s] == FREE_SLOT)
  }

  lemma SlotForChild(t: seq<Entry>, i: nat, k: nat, local: nat, c: nat)
    requires i < |t| && c < |t| && Parent(t, c) == i && 2 + |Children(t, i, c)| == 15 * k + local
    ensures SlotAt(t, i, k, local) == DentOf(t, c)
  {
    hide Mkfs.Children, Mkfs.Parent;
    CursorStep(t, i, c);
  }

  lemma NoMoreSlots(t: seq<Entry>, i: nat, k: nat, local: nat)
    requires i < |t| && |Listing(t, i)| <= 15 * k + local
    ensures forall s :: local <= s < SLOTS ==> SlotAt(t, i, k, s) == FREE_SLOT
  {
    hide Mkfs.Children, Mkfs.Parent;
  }

  /** The cursor inside block k: `local` slots used, or no child left for this block. */
  ghost predicate Midway(t: seq<Entry>, i: nat, k: nat, local: nat, child: nat)
    requires i < |t|
  {
    child <= |t| && (2 + |Children(t, i, child)| == 15 * k + local || (local == 0 && child == |t| && |Listing(t, i)| <= 15 * k))
  }

  /** One block of directory i: the dot entries in the first, then children in turn. */
  method FillDirBlock(t: seq<Entry>, parent: seq<int>, i: nat, k: nat, from: nat) returns (slots: seq<Dent>, child: nat)
    requires Resolved(t, parent) && i < |t| && Cursor(t, i, k, from)
    ensures Cursor(t, i, k + 1, child)
    ensures |slots| == SLOTS && forall s :: 0 <= s < SLOTS ==> slots[s] == SlotAt(t, i, k, s)
  {
    hide Mkfs.Children, Mkfs.Listing, Mkfs.Parent, Mkfs.SlotAt;
    var local;
    slots, local := StartDirBlock(t, parent, i, k);
    slots, local, child := FillChildren(t, parent, i, k, slots, local, from);
    if child == |t| { NoMoreSlots(t, i, k, local); }
  }

  /** One round of the inner loop. */
  lemma FillStep(t: seq<Entry>, i: nat, k: nat, slots: seq<Dent>, local: nat, child: nat)
    requires i < |t| && Filled(t, i, k, slots, local) && Midway(t, i, k, local, child) && local < SLOTS && child < |t|
    ensures |slots| == SLOTS
    ensures if Parent(t, child) == i
      then Filled(t, i, k, slots[local := DentOf(t, child)], local + 1) && Midway(t, i, k, local + 1, child + 1)
      else Midway(t, i, k, local, child + 1)
  {
    hide Mkfs.Children, Mkfs.Listing, Mkfs.Parent, Mkfs.SlotAt, Mkfs.DentOf;
    CursorStep(t, i, child);
    if Parent(t, child) == i { SlotForChild(t, i, k, local, child); }
  }

  /** The inner loop over the remaining children. */
  method FillChildren(t: seq<Entry>, parent: seq<int>, i: nat, k: nat, slots0: seq<Dent>, local0: nat, from: nat)
    returns (slots: seq<Dent>, local: nat, child: nat)
    requires Resolved(t, parent) && i < |t| && local0 <= SLOTS && from <= |t|
    requires Filled(t, i, k, slots0, local0) && Midway(t, i, k, local0, from)
    ensures Filled(t, i, k, slots, local) && Midway(t, i, k, local, child) && (local == SLOTS || child == |t|)
  {
    hide Mkfs.Children, Mkfs.Listing, Mkfs.Parent, Mkfs.SlotAt, Paths.BaseName, Filled, Midway;
    slots, local, child := slots0, local0, from;
    while local < SLOTS && child < |t|
      invariant local <= SLOTS && child <= |t| && Filled(t, i, k, slots, local) && Midway(t, i, k, local, child)
      decreases |t| - child
    {
      FillStep(t, i, k, slots, local, child);
      if parent[child] == i {
        slots := slots[local := Dent(InodeBlock(child), t[child].isDir, BaseName(t[child].path))];
        local := local + 1;
      }
      child := child + 1;
    }
  }

  /** An empty block, with the dot entries if it is the directory's first. */
  method StartDirBlock(t: seq<Entry>, parent: seq<int>, i: nat, k: nat) returns (slots: seq<Dent>, local: nat)
    requires Resolved(t, parent) && i < |t|
    ensures Filled(t, i, k, slots, local) && local == (if k == 0 then 2 else 0)
    ensures Children(t, i, 0) == []
  {
    slots, local := EmptySlots(), 0;
    if k == 0 {
      var up := if parent[i] >= 0 then parent[i] else i;
      slots := slots[0 := Dent(InodeBlock(i), true, ".")][1 := Dent(InodeBlock(up), true, "..")];
      local := 2;
    }
  }

  /** One block of a file: its piece of the content, zero-padded. */
  method FillFileBlock(content: seq<bv8>, k: nat) returns (bytes: seq<bv8>)
    ensures |bytes| == BLOCK
    ensures forall x :: 0 <= x < BLOCK ==> bytes[x] == if k * BLOCK + x < |content| then content[k * BLOCK + x] else 0
  {
    bytes := Zeros();
    var off := k * BLOCK;
    if off < |content| {
      var c := if |content| - off > BLOCK then BLOCK else |content| - off;
      bytes := content[off..off + c] + bytes[c..];
    }
  }

  // ---- write_fs ----

  /** The data blocks below `end` are laid out as assigned; those from it on are zero. */
  ghost predicate LaidOut(t: seq<Entry>, img: seq<Block>, end: nat) {
    forall b :: 0 <= b < |img| ==> img[b] == if b < end then BlockAt(t, b) else DataB(Zeros())
  }

  lemma LaidOutNext(t: seq<Entry>, img: seq<Block>, i: nat, k: nat)
    requires i < |t| && k < DataCount(t, i) && LaidOut(t, img, Start(t, i) + k) && Start(t, i) + k < |img|
    ensures LaidOut(t, img[Start(t, i) + k := DataBlock(t, i, k)], Start(t, i) + k + 1)
  {
    hide Mkfs.DataBlock, Mkfs.Start, Mkfs.Holder, Mkfs.DataCount, Mkfs.NodeOf;
    HolderIs(t, i, k);
  }

  /** The blocks before the data area: superblock and copy, then the inodes. */
  method WriteInodes(t: seq<Entry>, first: seq<nat>, count: seq<nat>, img: array<Block>)
    requires |first| == |count| == |t| && forall i :: 0 <= i < |t| ==> Assigned(t, first, count, i)
    requires FIRST_INODE + |t| <= img.Length && forall b :: 0 <= b < img.Length ==> img[b] == DataB(Zeros())
    modifies img
    ensures LaidOut(t, img[..], FIRST_INODE + |t|)
  {
    hide Mkfs.DataCount, Mkfs.Start, Mkfs.Holder;
    img[0] := SuperB;
    img[1] := SuperB;
    for i := 0 to |t|
      invariant forall b :: 0 <= b < img.Length ==>
        img[b] == if b < FIRST_INODE + i then BlockAt(t, b) else DataB(Zeros())
    {
      assert Assigned(t, first, count, i);
      img[FIRST_INODE + i] := InodeB(Inode(t[i].isDir, if t[i].isDir then count[i] * BLOCK else |t[i].content|,
                                           Span(first[i], count[i])));
    }
  }

  /** Directory blocks and file blocks of node i. */
  method WriteData(t: seq<Entry>, parent: seq<int>, i: nat, first: nat, count: nat, img: array<Block>)
    requires Resolved(t, parent) && i < |t| && first == Start(t, i) && count == DataCount(t, i)
    requires first + count <= img.Length && LaidOut(t, img[..], first)
    modifies img
    ensures LaidOut(t, img[..], first + count)
  {
    hide LaidOut, Mkfs.DataCount, Mkfs.Start, Mkfs.Parent, Mkfs.SlotAt, Cursor;
    var child := 0;
    CursorStart(t, i);
    for k := 0 to count
      invariant LaidOut(t, img[..], first + k) && (t[i].isDir ==> Cursor(t, i, k, child))
    {
      LaidOutNext(t, img[..], i, k);
      if t[i].isDir {
        var slots;
        slots, child := FillDirBlock(t, parent, i, k, child);
        img[first + k] := DirB(slots);
        assert img[first + k] == DataBlock(t, i, k);
      } else {
        var bytes := FillFileBlock(t[i].content, k);
        img[first + k] := DataB(bytes);
        assert img[first + k] == DataBlock(t, i, k);
      }
    }
  }

  lemma CursorStart(t: seq<Entry>, i: nat)
    requires i < |t|
    ensures Cursor(t, i, 0, 0)
  {
  }

  /** write_fs into a zeroed image of `total` blocks. */
  method WriteFs(t: seq<Entry>, total: nat) returns (img: array<Block>, bitmap: array<bv8>)
    requires 0 < |t| <= MAX_NODES && Start(t, |t|) <= total <= MAX_BLOCKS
    ensures Vol(total, InodeBlock(0), bitmap[..], img[..]) == Image(t, total)
  {
    hide LaidOut, Mkfs.DataCount, Mkfs.Start, Mkfs.Parent;
    var parent := ResolveParents(t);
    var first, count, top := AssignBlocks(t, parent);
    bitmap := MarkUsed(top);
    img := new Block[total](_ => DataB(Zeros()));
    StartMonotone(t, 0, |t|);
    WriteInodes(t, first, count, img);
    StartZero(t);
    for i := 0 to |t|
      invariant LaidOut(t, img[..], Start(t, i)) && bitmap[..] == FirstBits(top)
    {
      assert Assigned(t, first, count, i);
      StartStep(t, i);
      StartMonotone(t, i + 1, |t|);
      WriteData(t, parent, i, first[i], count[i], img);
    }
    LaidOutAll(t, img[..], total);
  }

  lemma StartZero(t: seq<Entry>)
    ensures Start(t, 0) == FIRST_INODE + |t|
  {
  }

  lemma StartStep(t: seq<Entry>, i: nat)
    requires i < |t|
    ensures Start(t, i + 1) == Start(t, i) + DataCount(t, i)
  {
  }

  lemma LaidOutAll(t: seq<Entry>, img: seq<Block>, total: nat)
    requires Start(t, |t|) <= total <= MAX_BLOCKS && |img| == total && LaidOut(t, img, Start(t, |t|))
    ensures img == Image(t, total).disk
  {
    hide Mkfs.Start, Mkfs.Holder, Mkfs.FirstBits, Mkfs.DataBlock;
  }
}
