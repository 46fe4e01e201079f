/** axiomefs directories: slots are found by scanning, filled and emptied in place. */
module AxfsDir {
  import opened Sequences
  import opened Bitmap
  import opened Axfs

  /** What a scan over directory slots looks for. */
  datatype Want = FreeSlot | Named(name: string)

  predicate Hit(d: Dent, w: Want) {
    match w
    case FreeSlot => d.inode == 0
    case Named(name) => d.inode != 0 && d.name != "" && d.name == name
  }

  /** The first slot at or after i that hits, or the number of slots. */
  function ScanSlots(slots: seq<Dent>, i: nat, w: Want): (r: nat)
    requires i <= |slots|
    ensures i <= r <= |slots| && (r < |slots| ==> Hit(slots[r], w))
    ensures forall j :: i <= j < r ==> !Hit(slots[j], w)
    decreases |slots| - i
  {
    if i == |slots| || Hit(slots[i], w) then i else ScanSlots(slots, i + 1, w)
  }

  /** A block that reads as 15 directory slots. */
  predicate ListBlock(v: Vol, e: nat)
    requires Sized(v)
  {
    e < v.total && v.disk[e].DirB? && |v.disk[e].slots| == SLOTS
  }

  predicate ListBlocks(v: Vol, extents: seq<nat>)
    requires Sized(v)
  {
    forall k :: 0 <= k < |extents| ==> ListBlock(v, extents[k])
  }

  /** A directory whose blocks read as such. */
  predicate ListDir(v: Vol, d: nat)
    requires Sized(v)
  {
    d < v.total && v.disk[d].InodeB? && v.disk[d].node.isDir && ListBlocks(v, v.disk[d].node.extents)
  }

  /** A directory block that is marked used, so that nothing else is put there. */
  predicate DirBlock(v: Vol, e: nat)
    requires Sized(v)
  {
    0 < e && UsedBit(v, e) && ListBlock(v, e)
  }

  predicate DirBlocks(v: Vol, extents: seq<nat>)
    requires Sized(v)
  {
    forall k :: 0 <= k < |extents| ==> DirBlock(v, extents[k])
  }

  /** The scan over a directory's blocks from extent k on: where it stops, if it does. */
  function Scan(v: Vol, extents: seq<nat>, k: nat, w: Want): (r: Option<(nat, nat)>)
    requires Sized(v) && ListBlocks(v, extents) && k <= |extents|
    ensures r.Some? ==>
      && k <= r.value.0 < |extents| && ListBlock(v, extents[r.value.0]) && r.value.1 < SLOTS
      && Hit(v.disk[extents[r.value.0]].slots[r.value.1], w)
    ensures r.None? ==> forall j, i :: k <= j < |extents| && 0 <= i < SLOTS ==> !HitAt(v, extents, j, i, w)
    decreases |extents| - k
  {
    if k == |extents| then None else
      assert ListBlock(v, extents[k]);
      var i := ScanSlots(v.disk[extents[k]].slots, 0, w);
      if i < SLOTS then Some((k, i)) else Scan(v, extents, k + 1, w)
  }

  predicate HitAt(v: Vol, extents: seq<nat>, k: nat, i: nat, w: Want)
    requires Sized(v) && ListBlocks(v, extents) && k < |extents| && i < SLOTS
  {
    assert ListBlock(v, extents[k]);
    Hit(v.disk[extents[k]].slots[i], w)
  }

  /** A directory in use. */
  predicate DirAt(v: Vol, d: nat)
    requires Sized(v)
  {
    0 < d && Live(v, d) && ListDir(v, d) && DirBlocks(v, v.disk[d].node.extents)
  }

  /** afs_dir_add_entry: the first free slot, or slot 0 of a newly allocated block. */
  function AddEntry(v: Vol, d: nat, ent: Dent): (r: Vol)
    requires Sized(v) && DirAt(v, d)
    ensures Sized(r)
  {
    var node := v.disk[d].node;
    match Scan(v, node.extents, 0, FreeSlot)
    case Some((k, i)) =>
      var e := node.extents[k];
      Put(v, e, DirB(v.disk[e].slots[i := ent]))
    case None =>
      if |node.extents| >= MAX_EXTENTS then v else
      var (v1, e) := Alloc(v);
      Put(Put(v1, e, DirB(EmptySlots()[0 := ent])), d, InodeB(node.(extents := node.extents + [e])))
  }

  /** axfs_create in directory d: a new inode, then its entry.  The caller resolved d. */
  function Create(v: Vol, d: nat, name: string, isDir: bool): (r: Vol)
    requires Sized(v) && DirAt(v, d)
    ensures Sized(r)
  {
    if name == "" then v else
    var v1 := WithInode(v, isDir);
    WithInodeDir(v, d, isDir);
    AddEntry(v1, d, Dent(Alloc(v).1, isDir, name))
  }

  /** The inode half of axfs_create. */
  function WithInode(v: Vol, isDir: bool): (r: Vol)
    requires Sized(v)
    ensures Sized(r) && r.total == v.total && r.root == v.root
  {
    var (v1, c) := Alloc(v);
    Put(v1, c, InodeB(Inode(isDir, 0, [])))
  }

  lemma WithInodeDir(v: Vol, d: nat, isDir: bool)
    requires Sized(v) && DirAt(v, d)
    ensures DirAt(WithInode(v, isDir), d)
  {
    AllocFacts(v);
    var r, extents := WithInode(v, isDir), v.disk[d].node.extents;
    forall k | 0 <= k < |extents| ensures DirBlock(r, extents[k]) {
      assert DirBlock(v, extents[k]);
    }
  }

  /** afs_dir_remove_entry: the first slot with the name becomes free. */
  function RemoveEntry(v: Vol, d: nat, name: string): (r: Vol)
    requires Sized(v) && DirAt(v, d)
    ensures Sized(r) && r.total == v.total && r.root == v.root && r.bm == v.bm
  {
    match Scan(v, v.disk[d].node.extents, 0, Named(name))
    case None => v
    case Some((k, i)) =>
      var e := v.disk[d].node.extents[k];
      Put(v, e, DirB(v.disk[e].slots[i := Dent(0, v.disk[e].slots[i].isDir, "")]))
  }

  /** afs_free_block for each extent in turn. */
  function FreeAll(bm: seq<bv8>, extents: seq<nat>, n: nat): (r: seq<bv8>)
    requires n <= |extents| && forall k :: 0 <= k < n ==> extents[k] < 8 * |bm|
    ensures |r| == |bm|
    ensures forall j :: 0 <= j < 8 * |bm| ==> (Test(r, j) <==> (Test(bm, j) && j !in extents[..n]))
  {
    if n == 0 then bm else
      var mid := FreeAll(bm, extents, n - 1);
      SetBits(mid, extents[n - 1]);
      assert extents[..n] == extents[..n - 1] + [extents[n - 1]];
      Clear(mid, extents[n - 1])
  }

  /** The child a lookup or axfs_remove finds: the inode of the first slot with the name. */
  function FindChild(v: Vol, d: nat, name: string): (c: nat)
    requires Sized(v) && ListDir(v, d)
  {
    match Scan(v, v.disk[d].node.extents, 0, Named(name))
    case None => 0
    case Some((k, i)) => v.disk[v.disk[d].node.extents[k]].slots[i].inode
  }

  /** An inode whose blocks all exist. */
  predicate Freeable(v: Vol, c: nat)
    requires Sized(v)
  {
    Live(v, c) && forall k :: 0 <= k < |v.disk[c].node.extents| ==> v.disk[c].node.extents[k] < v.total
  }

  /** axfs_remove in directory d. */
  function Remove(v: Vol, d: nat, name: string): (r: Vol)
    requires Sized(v) && DirAt(v, d) && (FindChild(v, d, name) != 0 ==> Freeable(v, FindChild(v, d, name)))
    ensures Sized(r)
  {
    var c := FindChild(v, d, name);
    if c == 0 then v else
    var v1 := RemoveEntry(v, d, name);
    var extents := v.disk[c].node.extents;
    v1.(bm := Clear(FreeAll(v1.bm, extents, |extents|), c))
  }
}
