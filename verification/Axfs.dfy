/**
 * axiomefs as transitions on a volume: a free-space bitmap and typed blocks.
 * A block is addressed by number; block 0 is the superblock, block 2 the bitmap.
 */
module Axfs {
  import opened Bitmap

  const BLOCK := 4096
  const SLOTS := 15
  const MAX_EXTENTS := 160
  const MAX_BLOCKS := 32768
  const BITMAP_BYTES := 4096

  /** A directory slot; inode 0 marks it free. */
  datatype Dent = Dent(inode: nat, isDir: bool, name: string)

  /** Extents are single blocks, in file order. */
  datatype Inode = Inode(isDir: bool, size: nat, extents: seq<nat>)

  datatype Block =
    | SuperB
    | InodeB(node: Inode)
    | DirB(slots: seq<Dent>)
    | DataB(bytes: seq<bv8>)

  datatype Vol = Vol(total: nat, root: nat, bm: seq<bv8>, disk: seq<Block>)

  const FREE_SLOT := Dent(0, false, "")

  function Zeros(): (z: seq<bv8>)
    ensures |z| == BLOCK
  {
    seq(BLOCK, _ => 0)
  }

  function EmptySlots(): (s: seq<Dent>)
    ensures |s| == SLOTS
  {
    seq(SLOTS, _ => FREE_SLOT)
  }

  /** Sizes the code relies on: one bitmap block, and the reserved blocks exist. */
  predicate Sized(v: Vol) {
    3 <= v.total <= MAX_BLOCKS && |v.bm| == BITMAP_BYTES && |v.disk| == v.total
  }

  predicate UsedBit(v: Vol, b: nat)
    requires Sized(v)
  {
    b < v.total && Test(v.bm, b)
  }

  /** An inode block in use. */
  predicate Live(v: Vol, b: nat)
    requires Sized(v)
  {
    UsedBit(v, b) && v.disk[b].InodeB?
  }

  function Node(v: Vol, b: nat): Inode
    requires Sized(v) && Live(v, b)
  {
    v.disk[b].node
  }

  // ---- the bitmap ----

  /** The first clear bit at or after i, or n. */
  function FirstClear(bm: seq<bv8>, i: nat, n: nat): (r: nat)
    requires i <= n <= 8 * |bm|
    ensures i <= r <= n
    ensures forall j :: i <= j < r ==> Test(bm, j)
    ensures r < n ==> !Test(bm, r)
    decreases n - i
  {
    if i == n || !Test(bm, i) then i else FirstClear(bm, i + 1, n)
  }

  /** afs_alloc_block: the lowest free block, or 0 when the volume is full. */
  function Alloc(v: Vol): (Vol, nat)
    requires Sized(v)
  {
    var r := FirstClear(v.bm, 0, v.total);
    if r < v.total then (v.(bm := Set(v.bm, r)), r) else (v, 0)
  }

  /** afs_free_block. */
  function Free(v: Vol, b: nat): Vol
    requires Sized(v) && b < v.total
  {
    v.(bm := Clear(v.bm, b))
  }

  function Put(v: Vol, b: nat, blk: Block): Vol
    requires Sized(v) && b < v.total
  {
    v.(disk := v.disk[b := blk])
  }

  // ---- files ----

  /** A file whose inode block and data blocks can be read as such. */
  predicate FileAt(v: Vol, b: nat)
    requires Sized(v)
  {
    && 0 < b && Live(v, b) && !v.disk[b].node.isDir
    && forall k :: 0 <= k < |v.disk[b].node.extents| ==> DataAt(v, v.disk[b].node.extents[k])
  }

  predicate DataAt(v: Vol, e: nat)
    requires Sized(v)
  {
    e < v.total && v.disk[e].DataB? && |v.disk[e].bytes| == BLOCK
  }

  /** The part of logical block L that a transfer of len bytes at off covers. */
  function Low(L: nat, off: nat): nat {
    if L == off / BLOCK then off % BLOCK else 0
  }

  function High(L: nat, off: nat, len: nat): nat
    requires len > 0
  {
    if L == (off + len - 1) / BLOCK then (off + len - 1) % BLOCK else BLOCK - 1
  }

  /** The cut of [off, off + len) to logical block L, in plain terms. */
  lemma Cut(L: nat, off: nat, len: nat)
    requires len > 0 && off / BLOCK <= L <= (off + len - 1) / BLOCK
    ensures L * BLOCK + Low(L, off) == if off > L * BLOCK then off else L * BLOCK
    ensures L * BLOCK + High(L, off, len) + 1 == if off + len < L * BLOCK + BLOCK then off + len else L * BLOCK + BLOCK
    ensures Low(L, off) <= High(L, off, len) < BLOCK
  {
  }

  function Patch(blk: seq<bv8>, lo: nat, data: seq<bv8>): (r: seq<bv8>)
    requires lo + |data| <= |blk|
    ensures |r| == |blk|
    ensures forall i :: 0 <= i < |r| ==> r[i] == if lo <= i < lo + |data| then data[i - lo] else blk[i]
  {
    blk[..lo] + data + blk[lo + |data|..]
  }

  predicate Transfer(L: nat, off: nat, len: nat) {
    len > 0 && off / BLOCK <= L <= (off + len - 1) / BLOCK
  }

  /** The piece of buf that goes into logical block L. */
  function Piece(L: nat, off: nat, buf: seq<bv8>): (r: seq<bv8>)
    requires Transfer(L, off, |buf|)
    ensures Low(L, off) + |r| <= BLOCK
  {
    Cut(L, off, |buf|);
    var src := L * BLOCK + Low(L, off) - off;
    buf[src..src + High(L, off, |buf|) - Low(L, off) + 1]
  }

  /** The block that backs logical block L: the existing one, or a newly allocated one. */
  function Backing(v: Vol, b: nat, L: nat): (Vol, nat)
    requires Sized(v) && FileAt(v, b)
  {
    var extents := v.disk[b].node.extents;
    if L < |extents| && extents[L] != 0 then (v, extents[L]) else Alloc(v)
  }

  /** The block an extent names, block 0 included. */
  function BlockOf(v: Vol, b: nat, L: nat): (r: seq<bv8>)
    requires Sized(v) && FileAt(v, b) && L < |v.disk[b].node.extents|
    ensures |r| == BLOCK
  {
    assert DataAt(v, v.disk[b].node.extents[L]);
    v.disk[v.disk[b].node.extents[L]].bytes
  }

  /** What a write finds in logical block L: extent 0 counts as none, and a new block is zeroed. */
  function Before(v: Vol, b: nat, L: nat): (r: seq<bv8>)
    requires Sized(v) && FileAt(v, b)
    ensures |r| == BLOCK
  {
    var extents := v.disk[b].node.extents;
    if L < |extents| && extents[L] != 0 then
      assert DataAt(v, extents[L]);
      v.disk[extents[L]].bytes
    else Zeros()
  }

  /** Store bytes in block e and enter e as logical block L (or as the next one). */
  function Attach(v: Vol, b: nat, L: nat, e: nat, bytes: seq<bv8>): (r: Vol)
    requires Sized(v) && b < v.total && v.disk[b].InodeB? && e < v.total
    ensures Sized(r) && r.total == v.total && r.root == v.root
  {
    var node := v.disk[b].node;
    var extents := if L < |node.extents| then node.extents[L := e] else node.extents + [e];
    Put(Put(v, e, DataB(bytes)), b, InodeB(node.(extents := extents)))
  }

  /** One round of the loop in axfs_write, with the inode kept up to date on disk. */
  function WriteBlock(v: Vol, b: nat, L: nat, off: nat, buf: seq<bv8>): (r: Vol)
    requires Sized(v) && FileAt(v, b) && Transfer(L, off, |buf|)
    ensures Sized(r) && r.total == v.total && r.root == v.root
  {
    assert forall k :: 0 <= k < |v.disk[b].node.extents| ==> DataAt(v, v.disk[b].node.extents[k]);
    var (v1, e) := Backing(v, b, L);
    Attach(v1, b, L, e, Patch(Before(v, b, L), Low(L, off), Piece(L, off, buf)))
  }

  /** Rounds L to the last one. */
  function WriteRange(v: Vol, b: nat, L: nat, off: nat, buf: seq<bv8>): (r: Vol)
    requires Sized(v) && FileAt(v, b) && Transfer(L, off, |buf|)
    ensures Sized(r) && r.total == v.total && r.root == v.root
    decreases (off + |buf| - 1) / BLOCK - L
  {
    var v1 := WriteBlock(v, b, L, off, buf);
    WriteBlockFile(v, b, L, off, buf);
    if L < (off + |buf| - 1) / BLOCK then WriteRange(v1, b, L + 1, off, buf) else v1
  }

  /** axfs_write of a non-empty buffer. */
  function Write(v: Vol, b: nat, off: nat, buf: seq<bv8>): (r: Vol)
    requires Sized(v) && FileAt(v, b) && |buf| > 0
    ensures Sized(r)
  {
    var v1 := WriteRange(v, b, off / BLOCK, off, buf);
    WriteRangeFile(v, b, off / BLOCK, off, buf);
    var node := v1.disk[b].node;
    Put(v1, b, InodeB(node.(size := if off + |buf| > node.size then off + |buf| else node.size)))
  }

  lemma WriteRangeFile(v: Vol, b: nat, L: nat, off: nat, buf: seq<bv8>)
    requires Sized(v) && FileAt(v, b) && Transfer(L, off, |buf|)
    ensures FileAt(WriteRange(v, b, L, off, buf), b)
    decreases (off + |buf| - 1) / BLOCK - L
  {
    WriteBlockFile(v, b, L, off, buf);
    if L < (off + |buf| - 1) / BLOCK {
      WriteRangeFile(WriteBlock(v, b, L, off, buf), b, L + 1, off, buf);
    }
  }

  lemma WriteBlockFile(v: Vol, b: nat, L: nat, off: nat, buf: seq<bv8>)
    requires Sized(v) && FileAt(v, b) && Transfer(L, off, |buf|)
    ensures FileAt(WriteBlock(v, b, L, off, buf), b)
  {
    AllocFacts(v);
    var (v1, e) := Backing(v, b, L);
    assert e < v.total && e != b by { assert L < |v.disk[b].node.extents| ==> DataAt(v, v.disk[b].node.extents[L]); }
    AttachFile(v, v1, b, L, e, Patch(Before(v, b, L), Low(L, off), Piece(L, off, buf)));
  }

  lemma AttachFile(v: Vol, v1: Vol, b: nat, L: nat, e: nat, bytes: seq<bv8>)
    requires Sized(v) && FileAt(v, b) && v1.disk == v.disk && v1.total == v.total && Sized(v1) && UsedBit(v1, b)
    requires e < v.total && e != b && |bytes| == BLOCK
    ensures FileAt(Attach(v1, b, L, e, bytes), b)
  {
    var r := Attach(v1, b, L, e, bytes);
    forall k | 0 <= k < |r.disk[b].node.extents| ensures DataAt(r, r.disk[b].node.extents[k]) {
      if k < |v.disk[b].node.extents| { assert DataAt(v, v.disk[b].node.extents[k]); }
    }
  }

  /** What afs_alloc_block hands out was free, and only its bit changes. */
  lemma AllocFacts(v: Vol)
    requires Sized(v)
    ensures var (r, n) := Alloc(v);
      && Sized(r) && r.disk == v.disk && r.root == v.root && n < v.total
      && (FreeCount(v.bm, v.total) > 0 ==> !Test(v.bm, n))
      && (FreeCount(v.bm, v.total) == 0 ==> n == 0 && r == v)
      && (forall j :: 0 <= j < v.total ==>
            (Test(r.bm, j) <==> (Test(v.bm, j) || (j == n && FreeCount(v.bm, v.total) > 0))))
      && FreeCount(r.bm, v.total) == if FreeCount(v.bm, v.total) > 0 then FreeCount(v.bm, v.total) - 1 else 0
  {
    var r := FirstClear(v.bm, 0, v.total);
    CountZero(v.bm, v.total);
    if r < v.total {
      SetBits(v.bm, r);
      CountFlip(v.bm, Set(v.bm, r), v.total, r);
    }
  }
}
