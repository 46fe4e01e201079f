/** axfs_write and axfs_read: a file behaves as a flat sequence of bytes. */
module AxfsWrite {
  import opened Bitmap
  import opened Axfs
  import opened AxfsInv

  lemma SoundFile(v: Vol, g: Ledger, b: nat)
    requires FsInv(v, g) && Live(v, b) && !Node(v, b).isDir
    ensures FileAt(v, b)
  {
    assert NodeOk(v, g, b);
    forall k | 0 <= k < |v.disk[b].node.extents| ensures DataAt(v, v.disk[b].node.extents[k]) {
      assert ExtentOk(v, g, b, k);
    }
  }

  // ---- one round of the write loop ----

  /** A block of r that v's inode c holds is the block it was. */
  lemma OtherUntouched(v: Vol, g: Ledger, r: Vol, b: nat, e: nat, c: nat)
    requires FsInv(v, g) && Sized(r) && r.total == v.total && Live(v, c) && c != b
    requires forall x :: 0 <= x < v.total && x != b && x != e ==> r.disk[x] == v.disk[x]
    requires forall x :: 0 <= x < v.total && Test(v.bm, x) ==> Test(r.bm, x)
    requires !UsedBit(v, e) || (e in g.owner && g.owner[e].0 == b && !Live(v, e))
    requires !exists k :: 0 <= k < |Node(v, c).extents| && Node(v, c).extents[k] == b
    ensures Untouched(v, r, c)
  {
    assert NodeOk(v, g, c);
    forall k | 0 <= k < |Node(v, c).extents| ensures SameBlock(v, r, Node(v, c).extents[k]) {
      assert ExtentOk(v, g, c, k);
    }
  }

  /** r has the inodes of v, and all but b are untouched. */
  ghost predicate SameInodes(v: Vol, r: Vol, b: nat)
    requires Sized(v) && Sized(r)
  {
    && (forall c :: Live(r, c) ==> Live(v, c))
    && (forall c :: Live(v, c) && c != b ==> Untouched(v, r, c))
  }

  /** Overwriting a block the file already holds. */
  lemma OverwriteInv(v: Vol, g: Ledger, b: nat, L: nat, bytes: seq<bv8>)
    requires FsInv(v, g) && Live(v, b) && !Node(v, b).isDir && L < |Node(v, b).extents| && |bytes| == BLOCK
    ensures ExtentOk(v, g, b, L)
    ensures var r := Attach(v, b, L, Node(v, b).extents[L], bytes);
      FsInv(r, g) && SameInodes(v, r, b)
  {
    assert NodeOk(v, g, b) && ExtentOk(v, g, b, L);
    var e := Node(v, b).extents[L];
    var r := Attach(v, b, L, e, bytes);
    assert r.disk[b] == v.disk[b];
    forall c | Live(v, c) && c != b ensures Untouched(v, r, c) {
      NotHeld(v, g, b, c);
      OtherUntouched(v, g, r, b, e, c);
    }
    forall c | Live(r, c) ensures NodeOk(r, g, c) {
      assert Live(v, c) && NodeOk(v, g, c);
      if c == b {
        forall k | 0 <= k < |Node(r, b).extents| ensures ExtentOk(r, g, b, k) {
          assert ExtentOk(v, g, b, k);
        }
      } else {
        assert forall k :: 0 <= k < |Node(v, c).extents| ==> Vouched(g, g, Node(v, c).extents[k]);
        NodeKept(v, g, r, g, c);
      }
    }
  }

  /** An inode block is nobody's data block. */
  lemma NotHeld(v: Vol, g: Ledger, b: nat, c: nat)
    requires FsInv(v, g) && Live(v, b) && Live(v, c)
    ensures !exists k :: 0 <= k < |Node(v, c).extents| && Node(v, c).extents[k] == b
  {
    assert NodeOk(v, g, c);
    forall k | 0 <= k < |Node(v, c).extents| ensures Node(v, c).extents[k] != b {
      assert ExtentOk(v, g, c, k);
    }
  }

  /** Adding a freshly allocated block at the end of the file. */
  lemma AppendInv(v: Vol, g: Ledger, b: nat, L: nat, bytes: seq<bv8>)
    requires FsInv(v, g) && Live(v, b) && !Node(v, b).isDir && |bytes| == BLOCK
    requires |Node(v, b).extents| <= L && |Node(v, b).extents| < MAX_EXTENTS && FreeCount(v.bm, v.total) > 0
    ensures var (v1, e) := Alloc(v);
      && e < v.total && Sized(v1)
      && var r := Attach(v1, b, L, e, bytes);
      && FsInv(r, g.(owner := g.owner[e := (b, |Node(v, b).extents|)]))
      && SameInodes(v, r, b)
  {
    hide Axfs.Alloc, Bitmap.FreeCount, Bitmap.Test, AxfsInv.DirOk, AxfsInv.ExtentOk;
    AllocFacts(v);
    var (v1, e) := Alloc(v);
    var n := |Node(v, b).extents|;
    var r := Attach(v1, b, L, e, bytes);
    var g' := g.(owner := g.owner[e := (b, n)]);
    forall c | Live(v, c) && c != b ensures Untouched(v, r, c) && NodeOk(r, g', c) {
      NotHeld(v, g, b, c);
      OtherUntouched(v, g, r, b, e, c);
      AppendOther(v, g, r, g', e, c);
    }
    forall c | Live(r, c) ensures NodeOk(r, g', c) {
      assert Live(v, c);
      if c == b {
        assert NodeOk(v, g, b);
        AppendSelf(v, g, v1, e, b, L, bytes);
      }
    }
  }

  lemma AppendOther(v: Vol, g: Ledger, r: Vol, g': Ledger, e: nat, c: nat)
    requires FsInv(v, g) && Sized(r) && Live(v, c) && Untouched(v, r, c) && !UsedBit(v, e)
    requires g'.entry == g.entry && forall k :: k in g.owner && k != e ==> k in g'.owner && g'.owner[k] == g.owner[k]
    requires r.root == v.root && forall d :: Live(v, d) ==> Live(r, d)
    ensures NodeOk(r, g', c)
  {
    assert NodeOk(v, g, c);
    forall k | 0 <= k < |Node(v, c).extents| ensures Vouched(g, g', Node(v, c).extents[k]) {
      assert ExtentOk(v, g, c, k);
    }
    NodeKept(v, g, r, g', c);
  }

  lemma AppendSelf(v: Vol, g: Ledger, v1: Vol, e: nat, b: nat, L: nat, bytes: seq<bv8>)
    requires Sized(v) && Live(v, b) && NodeOk(v, g, b) && !Node(v, b).isDir && |bytes| == BLOCK
    requires |Node(v, b).extents| <= L && |Node(v, b).extents| < MAX_EXTENTS
    requires Sized(v1) && v1.disk == v.disk && v1.total == v.total && 3 <= e && UsedBit(v1, e) && !UsedBit(v, e)
    requires forall j :: 0 <= j < v.total && Test(v.bm, j) ==> Test(v1.bm, j)
    ensures var r := Attach(v1, b, L, e, bytes);
      Live(r, b) && NodeOk(r, g.(owner := g.owner[e := (b, |Node(v, b).extents|)]), b)
  {
    var r := Attach(v1, b, L, e, bytes);
    var g' := g.(owner := g.owner[e := (b, |Node(v, b).extents|)]);
    forall k | 0 <= k < |Node(r, b).extents| ensures ExtentOk(r, g', b, k) {
      if k < |Node(v, b).extents| { assert ExtentOk(v, g, b, k); }
    }
  }

  // ---- bytes ----

  /** Byte p of the blocks a file holds; past them, what a new block would hold. */
  ghost function ByteAt(v: Vol, b: nat, p: nat): bv8
    requires Sized(v) && FileAt(v, b)
  {
    var extents := v.disk[b].node.extents;
    if p / BLOCK < |extents| then BlockOf(v, b, p / BLOCK)[p % BLOCK] else 0
  }

  lemma PieceBytes(L: nat, off: nat, buf: seq<bv8>, blk: seq<bv8>, i: nat)
    requires Transfer(L, off, |buf|) && |blk| == BLOCK && i < BLOCK
    ensures Patch(blk, Low(L, off), Piece(L, off, buf))[i] ==
              var p := L * BLOCK + i; if off <= p < off + |buf| then buf[p - off] else blk[i]
  {
    Cut(L, off, |buf|);
  }

  /** What attaching a block does to the bytes of its own file. */
  lemma AttachBytes(v: Vol, v1: Vol, b: nat, L: nat, e: nat, bytes: seq<bv8>, p: nat)
    requires Sized(v) && FileAt(v, b) && v1.disk == v.disk && v1.total == v.total && Sized(v1) && UsedBit(v1, b)
    requires e < v.total && e != b && e != 0 && |bytes| == BLOCK && L <= |v.disk[b].node.extents|
    requires L < |v.disk[b].node.extents| ==> e == v.disk[b].node.extents[L]
    requires forall k :: 0 <= k < |v.disk[b].node.extents| && k != L ==> v.disk[b].node.extents[k] != e
    ensures FileAt(Attach(v1, b, L, e, bytes), b)
    ensures ByteAt(Attach(v1, b, L, e, bytes), b, p) == if p / BLOCK == L then bytes[p % BLOCK] else ByteAt(v, b, p)
  {
    AttachFile(v, v1, b, L, e, bytes);
    var r := Attach(v1, b, L, e, bytes);
    var k := p / BLOCK;
    if k < |v.disk[b].node.extents| { assert DataAt(v, v.disk[b].node.extents[k]); }
  }

  /** The blocks one round may need. */
  ghost predicate CanStore(v: Vol, b: nat, L: nat)
    requires Sized(v) && Live(v, b)
  {
    L < |Node(v, b).extents| || (L == |Node(v, b).extents| && L < MAX_EXTENTS && FreeCount(v.bm, v.total) > 0)
  }

  /** r is v after round L: sound, with that block's bytes replaced, and no other inode touched. */
  ghost predicate Stored(v: Vol, r: Vol, b: nat, L: nat, off: nat, buf: seq<bv8>)
    requires Sized(v) && FileAt(v, b) && Sized(r) && FileAt(r, b)
  {
    && r.total == v.total && r.root == v.root && Node(r, b).size == Node(v, b).size
    && |Node(r, b).extents| == (if L < |Node(v, b).extents| then |Node(v, b).extents| else L + 1)
    && FreeCount(r.bm, r.total) == FreeCount(v.bm, v.total) - (if L < |Node(v, b).extents| then 0 else 1)
    && (forall p :: 0 <= p ==> ByteAt(r, b, p) == if p / BLOCK == L && off <= p < off + |buf| then buf[p - off] else ByteAt(v, b, p))
    && SameInodes(v, r, b)
  }

  lemma RoundBytes(v: Vol, v1: Vol, b: nat, L: nat, e: nat, off: nat, buf: seq<bv8>)
    requires Sized(v) && FileAt(v, b) && v1.disk == v.disk && v1.total == v.total && Sized(v1) && UsedBit(v1, b)
    requires e < v.total && e != b && e != 0 && L <= |v.disk[b].node.extents| && Transfer(L, off, |buf|)
    requires L < |v.disk[b].node.extents| ==> e == v.disk[b].node.extents[L]
    requires forall k :: 0 <= k < |v.disk[b].node.extents| && k != L ==> v.disk[b].node.extents[k] != e
    ensures var r := Attach(v1, b, L, e, Patch(Before(v, b, L), Low(L, off), Piece(L, off, buf)));
      && FileAt(r, b)
      && forall p :: 0 <= p ==> ByteAt(r, b, p) == if p / BLOCK == L && off <= p < off + |buf| then buf[p - off] else ByteAt(v, b, p)
  {
    hide ByteAt, Axfs.Before, Axfs.BlockOf, Axfs.Attach, Axfs.Patch, Axfs.Piece;
    var bytes := Patch(Before(v, b, L), Low(L, off), Piece(L, off, buf));
    AttachFile(v, v1, b, L, e, bytes);
    var r := Attach(v1, b, L, e, bytes);
    forall p | 0 <= p
      ensures ByteAt(r, b, p) == if p / BLOCK == L && off <= p < off + |buf| then buf[p - off] else ByteAt(v, b, p)
    {
      AttachBytes(v, v1, b, L, e, bytes, p);
      if p / BLOCK == L {
        PieceBytes(L, off, buf, Before(v, b, L), p % BLOCK);
        ByteIsBefore(v, b, L, p);
        assert p == L * BLOCK + p % BLOCK;
      }
    }
  }

  lemma ByteIsBefore(v: Vol, b: nat, L: nat, p: nat)
    requires Sized(v) && FileAt(v, b) && L <= |v.disk[b].node.extents| && p / BLOCK == L
    requires L < |v.disk[b].node.extents| ==> v.disk[b].node.extents[L] != 0
    ensures ByteAt(v, b, p) == Before(v, b, L)[p % BLOCK]
  {
  }

  /** One round of axfs_write keeps the volume sound and stores exactly its piece. */
  lemma RoundSpec(v: Vol, g: Ledger, b: nat, L: nat, off: nat, buf: seq<bv8>) returns (g': Ledger)
    requires FsInv(v, g) && Live(v, b) && !Node(v, b).isDir && FileAt(v, b)
    requires CanStore(v, b, L) && Transfer(L, off, |buf|)
    ensures var r := WriteBlock(v, b, L, off, buf); FsInv(r, g') && FileAt(r, b) && Stored(v, r, b, L, off, buf)
  {
    var bytes := Patch(Before(v, b, L), Low(L, off), Piece(L, off, buf));
    var (v1, e) := Backing(v, b, L);
    assert NodeOk(v, g, b);
    AllocFacts(v);
    forall k | 0 <= k < |v.disk[b].node.extents|
      ensures v.disk[b].node.extents[k] != 0 && (k != L ==> v.disk[b].node.extents[k] != e)
    {
      assert ExtentOk(v, g, b, k);
      if L < |v.disk[b].node.extents| { assert ExtentOk(v, g, b, L); }
    }
    if L < |Node(v, b).extents| {
      g' := g;
      OverwriteInv(v, g, b, L, bytes);
    } else {
      g' := g.(owner := g.owner[e := (b, L)]);
      AppendInv(v, g, b, L, bytes);
    }
    RoundBytes(v, v1, b, L, e, off, buf);
  }

  // ---- the whole write ----

  function LastBlock(off: nat, len: nat): nat
    requires len > 0
  {
    (off + len - 1) / BLOCK
  }

  /** The blocks a write ending in logical block `last` has to allocate. */
  function Need(v: Vol, b: nat, last: nat): nat
    requires Sized(v) && Live(v, b)
  {
    if last < |Node(v, b).extents| then 0 else last + 1 - |Node(v, b).extents|
  }

  /** r is v after the rounds from L on. */
  ghost predicate Written(v: Vol, r: Vol, b: nat, L: nat, off: nat, buf: seq<bv8>)
    requires Sized(v) && FileAt(v, b) && Sized(r) && FileAt(r, b) && |buf| > 0
  {
    && r.total == v.total && r.root == v.root && Node(r, b).size == Node(v, b).size
    && |Node(r, b).extents| == |Node(v, b).extents| + Need(v, b, LastBlock(off, |buf|))
    && FreeCount(r.bm, r.total) == FreeCount(v.bm, v.total) - Need(v, b, LastBlock(off, |buf|))
    && (forall p :: 0 <= p ==>
          ByteAt(r, b, p) == if L * BLOCK <= p && off <= p < off + |buf| then buf[p - off] else ByteAt(v, b, p))
    && SameInodes(v, r, b)
  }

  lemma {:induction false} RangeSpec(v: Vol, g: Ledger, b: nat, L: nat, off: nat, buf: seq<bv8>) returns (g': Ledger)
    requires FsInv(v, g) && Live(v, b) && !Node(v, b).isDir && FileAt(v, b)
    requires Transfer(L, off, |buf|) && L <= |Node(v, b).extents| && LastBlock(off, |buf|) < MAX_EXTENTS
    requires FreeCount(v.bm, v.total) >= Need(v, b, LastBlock(off, |buf|))
    ensures var r := WriteRange(v, b, L, off, buf); FsInv(r, g') && FileAt(r, b) && Written(v, r, b, L, off, buf)
    decreases LastBlock(off, |buf|) - L
  {
    hide Axfs.WriteBlock;
    var r := WriteBlock(v, b, L, off, buf);
    g' := RoundSpec(v, g, b, L, off, buf);
    RangeUnfold(v, b, L, off, buf);
    if L < LastBlock(off, |buf|) {
      g' := RangeSpec(r, g', b, L + 1, off, buf);
      var w := WriteRange(r, b, L + 1, off, buf);
      RoundThenRest(v, r, w, b, L, off, buf);
    } else {
      LastRound(v, r, b, L, off, buf);
    }
  }

  lemma LastRound(v: Vol, r: Vol, b: nat, L: nat, off: nat, buf: seq<bv8>)
    requires Sized(v) && FileAt(v, b) && Sized(r) && FileAt(r, b)
    requires Transfer(L, off, |buf|) && L <= |Node(v, b).extents| && L == LastBlock(off, |buf|)
    requires Stored(v, r, b, L, off, buf)
    ensures Written(v, r, b, L, off, buf)
  {
  }

  lemma RoundThenRest(v: Vol, r: Vol, w: Vol, b: nat, L: nat, off: nat, buf: seq<bv8>)
    requires Sized(v) && FileAt(v, b) && Sized(r) && FileAt(r, b) && Sized(w) && FileAt(w, b)
    requires Transfer(L, off, |buf|) && L <= |Node(v, b).extents| && L < LastBlock(off, |buf|)
    requires Stored(v, r, b, L, off, buf) && Written(r, w, b, L + 1, off, buf)
    ensures Written(v, w, b, L, off, buf)
  {
    forall p | 0 <= p
      ensures ByteAt(w, b, p) == if L * BLOCK <= p && off <= p < off + |buf| then buf[p - off] else ByteAt(v, b, p)
    {
      assert ByteAt(r, b, p) == if p / BLOCK == L && off <= p < off + |buf| then buf[p - off] else ByteAt(v, b, p);
    }
    forall c | Live(v, c) && c != b ensures Untouched(v, w, c) {
      assert Untouched(v, r, c) && Untouched(r, w, c);
      forall k | 0 <= k < |Node(v, c).extents| ensures SameBlock(v, w, Node(v, c).extents[k]) {
        assert SameBlock(v, r, Node(v, c).extents[k]) && SameBlock(r, w, Node(r, c).extents[k]);
      }
    }
  }

  // ---- files as byte sequences ----

  /** The size fits in the blocks held, and everything past it is zero. */
  ghost predicate Tidy(v: Vol, b: nat)
    requires Sized(v) && FileAt(v, b)
  {
    v.disk[b].node.size <= BLOCK * |v.disk[b].node.extents| && forall p :: v.disk[b].node.size <= p ==> ByteAt(v, b, p) == 0
  }

  ghost function Content(v: Vol, b: nat): (c: seq<bv8>)
    requires Sized(v) && FileAt(v, b)
  {
    Bytes(v, b, 0, v.disk[b].node.size)
  }

  /** f on [lo, hi) as a sequence. */
  ghost function Tab(f: nat -> bv8, lo: nat, hi: nat): (r: seq<bv8>)
    requires lo <= hi
    ensures |r| == hi - lo && forall i :: 0 <= i < |r| ==> r[i] == f(lo + i)
  {
    seq(hi - lo, i requires 0 <= i => f(lo + i))
  }

  lemma TabConcat(f: nat -> bv8, lo: nat, mid: nat, hi: nat)
    requires lo <= mid <= hi
    ensures Tab(f, lo, mid) + Tab(f, mid, hi) == Tab(f, lo, hi)
  {
  }

  lemma TabSlice(f: nat -> bv8, lo: nat, hi: nat, i: nat, j: nat)
    requires lo <= hi && i <= j <= hi - lo
    ensures Tab(f, lo, hi)[i..j] == Tab(f, lo + i, lo + j)
  {
  }

  ghost function Reader(v: Vol, b: nat): nat -> bv8
    requires Sized(v) && FileAt(v, b)
  {
    (p: nat) => ByteAt(v, b, p)
  }

  /** The bytes of a file's blocks in [lo, hi). */
  ghost function Bytes(v: Vol, b: nat, lo: nat, hi: nat): (r: seq<bv8>)
    requires Sized(v) && FileAt(v, b) && lo <= hi
  {
    Tab(Reader(v, b), lo, hi)
  }

  /** A flat byte sequence overwritten at off, zero-filled up to off, grown as needed. */
  function Splice(c: seq<bv8>, off: nat, buf: seq<bv8>): seq<bv8> {
    seq(if off + |buf| > |c| then off + |buf| else |c|,
        p requires 0 <= p => if off <= p < off + |buf| then buf[p - off] else if p < |c| then c[p] else 0)
  }

  /** What the caller of axfs_write has to leave room for. */
  ghost predicate Writable(v: Vol, b: nat, off: nat, len: nat)
    requires Sized(v) && Live(v, b)
  {
    && len > 0 && off / BLOCK <= |Node(v, b).extents| && LastBlock(off, len) < MAX_EXTENTS
    && FreeCount(v.bm, v.total) >= Need(v, b, LastBlock(off, len))
  }

  /** Changing the recorded size moves no byte and touches no other inode. */
  lemma SetSize(v: Vol, g: Ledger, b: nat, size: nat)
    requires FsInv(v, g) && Live(v, b) && !Node(v, b).isDir && FileAt(v, b)
    ensures var r := Put(v, b, InodeB(Node(v, b).(size := size)));
      && FsInv(r, g) && FileAt(r, b) && (forall p :: 0 <= p ==> ByteAt(r, b, p) == ByteAt(v, b, p))
      && SameInodes(v, r, b)
  {
    var r := Put(v, b, InodeB(Node(v, b).(size := size)));
    assert NodeOk(v, g, b);
    forall k | 0 <= k < |Node(v, b).extents| ensures DataAt(r, Node(v, b).extents[k]) && ExtentOk(r, g, b, k)
      ensures BlockOf(v, b, k) == r.disk[Node(v, b).extents[k]].bytes
    {
      assert ExtentOk(v, g, b, k);
    }
    forall c | Live(v, c) && c != b ensures Untouched(v, r, c) && NodeOk(r, g, c) {
      NotHeld(v, g, b, c);
      assert NodeOk(v, g, c);
      forall k | 0 <= k < |Node(v, c).extents|
        ensures SameBlock(v, r, Node(v, c).extents[k]) && Vouched(g, g, Node(v, c).extents[k])
      {
        assert ExtentOk(v, g, c, k);
      }
      NodeKept(v, g, r, g, c);
    }
  }

  lemma OtherFile(v: Vol, r: Vol, c: nat)
    requires Sized(v) && Sized(r) && FileAt(v, c) && Untouched(v, r, c)
    ensures FileAt(r, c) && Content(r, c) == Content(v, c) && (Tidy(v, c) ==> Tidy(r, c))
  {
    forall k | 0 <= k < |v.disk[c].node.extents| ensures DataAt(r, v.disk[c].node.extents[k]) {
      assert DataAt(v, v.disk[c].node.extents[k]) && SameBlock(v, r, Node(v, c).extents[k]);
    }
    forall p | 0 <= p ensures ByteAt(r, c, p) == ByteAt(v, c, p) {
      var k := p / BLOCK;
      if k < |Node(v, c).extents| { assert SameBlock(v, r, Node(v, c).extents[k]); }
    }
  }

  /** What a successful write leaves behind: the volume is sound, the file is the old
      one spliced, and no other inode or block of another inode has moved. */
  ghost predicate Spliced(v: Vol, r: Vol, b: nat, off: nat, buf: seq<bv8>)
    requires Sized(v) && FileAt(v, b) && Sized(r) && FileAt(r, b)
  {
    && Content(r, b) == Splice(Content(v, b), off, buf) && Tidy(r, b)
    && SameInodes(v, r, b)
  }

  /** axfs_write behaves as overwriting a flat byte sequence. */
  lemma WriteSplices(v: Vol, g: Ledger, b: nat, off: nat, buf: seq<bv8>) returns (g': Ledger)
    requires FsInv(v, g) && Live(v, b) && !Node(v, b).isDir && FileAt(v, b)
    requires Writable(v, b, off, |buf|) && Tidy(v, b)
    ensures var r := Write(v, b, off, buf); FsInv(r, g') && FileAt(r, b) && Spliced(v, r, b, off, buf)
  {
    var w := WriteRange(v, b, off / BLOCK, off, buf);
    g' := RangeSpec(v, g, b, off / BLOCK, off, buf);
    var size := if off + |buf| > Node(w, b).size then off + |buf| else Node(w, b).size;
    SetSize(w, g', b, size);
    var r := Put(w, b, InodeB(Node(w, b).(size := size)));
    assert Write(v, b, off, buf) == r;
    SplicedAfter(v, w, r, b, off, buf);
  }

  lemma SplicedAfter(v: Vol, w: Vol, r: Vol, b: nat, off: nat, buf: seq<bv8>)
    requires Sized(v) && FileAt(v, b) && Tidy(v, b) && |buf| > 0 && Sized(w) && FileAt(w, b) && Sized(r) && FileAt(r, b)
    requires Written(v, w, b, off / BLOCK, off, buf)
    requires forall p :: 0 <= p ==> ByteAt(r, b, p) == ByteAt(w, b, p)
    requires SameInodes(w, r, b)
    requires Node(r, b) == Node(w, b).(size := if off + |buf| > Node(w, b).size then off + |buf| else Node(w, b).size)
    ensures Spliced(v, r, b, off, buf)
  {
    forall p | 0 <= p
      ensures ByteAt(r, b, p) == if off <= p < off + |buf| then buf[p - off] else ByteAt(v, b, p)
    {
      assert ByteAt(w, b, p) == if off / BLOCK * BLOCK <= p && off <= p < off + |buf| then buf[p - off] else ByteAt(v, b, p);
    }
    forall c | Live(v, c) && c != b ensures Untouched(v, r, c) {
      assert Untouched(v, w, c) && Untouched(w, r, c);
      forall k | 0 <= k < |Node(v, c).extents| ensures SameBlock(v, r, Node(v, c).extents[k]) {
        assert SameBlock(v, w, Node(v, c).extents[k]) && SameBlock(w, r, Node(w, c).extents[k]);
      }
    }
  }

  // ---- reading ----

  function Min(a: nat, b: nat): nat { if a < b then a else b }

  lemma BytesConcat(v: Vol, b: nat, lo: nat, mid: nat, hi: nat)
    requires Sized(v) && FileAt(v, b) && lo <= mid <= hi
    ensures Bytes(v, b, lo, mid) + Bytes(v, b, mid, hi) == Bytes(v, b, lo, hi)
  {
    TabConcat(Reader(v, b), lo, mid, hi);
  }

  lemma BytesEmpty(v: Vol, b: nat, lo: nat)
    requires Sized(v) && FileAt(v, b)
    ensures Bytes(v, b, lo, lo) == []
  {
  }

  lemma BlockBytes(v: Vol, b: nat, L: nat, from: nat, to: nat)
    requires Sized(v) && FileAt(v, b) && L < |v.disk[b].node.extents| && from <= to <= BLOCK
    ensures BlockOf(v, b, L)[from..to] == Bytes(v, b, L * BLOCK + from, L * BLOCK + to)
  {
    var r := BlockOf(v, b, L)[from..to];
    forall i | 0 <= i < |r| ensures r[i] == ByteAt(v, b, L * BLOCK + from + i) {
      assert (L * BLOCK + from + i) / BLOCK == L;
    }
  }

  /** What axfs_read is to return: what is asked for, cut at the size and at the extents. */
  ghost function Read(v: Vol, b: nat, off: nat, len: nat): (r: seq<bv8>)
    requires Sized(v) && FileAt(v, b)
  {
    var hi := Min(Min(off + len, v.disk[b].node.size), BLOCK * |v.disk[b].node.extents|);
    if off < hi then Bytes(v, b, off, hi) else []
  }

  /** axfs_read returns the requested slice of the file. */
  lemma ReadSlices(v: Vol, b: nat, off: nat, len: nat)
    requires Sized(v) && FileAt(v, b) && Tidy(v, b)
    ensures Read(v, b, off, len) ==
      if off < |Content(v, b)| then Content(v, b)[off..Min(off + len, |Content(v, b)|)] else []
  {
    var size := v.disk[b].node.size;
    if off < size {
      TabSlice(Reader(v, b), 0, size, off, Min(off + len, size));
    }
  }

  lemma SpliceSlice(c: seq<bv8>, off: nat, buf: seq<bv8>)
    ensures Splice(c, off, buf)[off..off + |buf|] == buf
  {
  }

  /** A successful write reads back. */
  lemma ReadBack(v: Vol, g: Ledger, b: nat, off: nat, buf: seq<bv8>)
    requires FsInv(v, g) && Live(v, b) && !Node(v, b).isDir && FileAt(v, b)
    requires Writable(v, b, off, |buf|) && Tidy(v, b)
    ensures var r := Write(v, b, off, buf); FileAt(r, b) && Read(r, b, off, |buf|) == buf
  {
    hide Axfs.Write;
    var g' := WriteSplices(v, g, b, off, buf);
    SplicedReadsBack(v, Write(v, b, off, buf), b, off, buf);
  }

  lemma SplicedReadsBack(v: Vol, r: Vol, b: nat, off: nat, buf: seq<bv8>)
    requires Sized(v) && FileAt(v, b) && Sized(r) && FileAt(r, b) && Spliced(v, r, b, off, buf) && |buf| > 0
    ensures Read(r, b, off, |buf|) == buf
  {
    hide Read;
    ReadSlices(r, b, off, |buf|);
    SpliceSlice(Content(v, b), off, buf);
  }

  // ---- when a write does not behave ----

  lemma RangeUnfold(v: Vol, b: nat, L: nat, off: nat, buf: seq<bv8>)
    requires Sized(v) && FileAt(v, b) && Transfer(L, off, |buf|)
    ensures var r := WriteBlock(v, b, L, off, buf);
      && FileAt(r, b)
      && WriteRange(v, b, L, off, buf) == if L < LastBlock(off, |buf|) then WriteRange(r, b, L + 1, off, buf) else r
  {
    WriteBlockFile(v, b, L, off, buf);
  }

  /** A write that starts past the first unallocated block appends its blocks where
      the extents end, so the last of them is not where a read looks for it. */
  lemma {:induction false} GapGrowth(v: Vol, b: nat, L: nat, off: nat, buf: seq<bv8>)
    requires Sized(v) && FileAt(v, b) && Transfer(L, off, |buf|) && L > |v.disk[b].node.extents|
    ensures var r := WriteRange(v, b, L, off, buf);
      && r.disk[b].InodeB? && r.disk[b].node.size == v.disk[b].node.size
      && |r.disk[b].node.extents| == |v.disk[b].node.extents| + LastBlock(off, |buf|) - L + 1
    decreases LastBlock(off, |buf|) - L
  {
    hide Axfs.WriteBlock;
    RangeUnfold(v, b, L, off, buf);
    RoundGrowth(v, b, L, off, buf);
    if L < LastBlock(off, |buf|) {
      GapGrowth(WriteBlock(v, b, L, off, buf), b, L + 1, off, buf);
    }
  }

  lemma RoundGrowth(v: Vol, b: nat, L: nat, off: nat, buf: seq<bv8>)
    requires Sized(v) && FileAt(v, b) && Transfer(L, off, |buf|) && L >= |v.disk[b].node.extents|
    ensures var r := WriteBlock(v, b, L, off, buf);
      && r.disk[b].InodeB? && |r.disk[b].node.extents| == |v.disk[b].node.extents| + 1
      && r.disk[b].node.size == v.disk[b].node.size
  {
    AllocFacts(v);
  }

  lemma GapLosesData(v: Vol, b: nat, off: nat, buf: seq<bv8>)
    requires Sized(v) && FileAt(v, b) && |buf| > 0 && off / BLOCK > |v.disk[b].node.extents|
    ensures var r := Write(v, b, off, buf); FileAt(r, b) && |Read(r, b, off, |buf|)| < |buf|
  {
    GapGrowth(v, b, off / BLOCK, off, buf);
    WriteRangeFile(v, b, off / BLOCK, off, buf);
    var w := WriteRange(v, b, off / BLOCK, off, buf);
    var r := Write(v, b, off, buf);
    forall k | 0 <= k < |r.disk[b].node.extents| ensures DataAt(r, r.disk[b].node.extents[k]) {
      assert DataAt(w, w.disk[b].node.extents[k]);
    }
  }

  /** What is written reads back exactly when the write starts no later than the
      block after the last one the file holds. */
  lemma ReadsBackIff(v: Vol, g: Ledger, b: nat, off: nat, buf: seq<bv8>)
    requires FsInv(v, g) && Live(v, b) && !Node(v, b).isDir && FileAt(v, b) && Tidy(v, b)
    requires |buf| > 0 && LastBlock(off, |buf|) < MAX_EXTENTS
    requires FreeCount(v.bm, v.total) >= Need(v, b, LastBlock(off, |buf|))
    ensures FileAt(Write(v, b, off, buf), b)
    ensures Read(Write(v, b, off, buf), b, off, |buf|) == buf <==> off / BLOCK <= |Node(v, b).extents|
  {
    if off / BLOCK <= |Node(v, b).extents| {
      ReadBack(v, g, b, off, buf);
    } else {
      GapLosesData(v, b, off, buf);
    }
  }

  lemma RoundOnData(v: Vol, b: nat, L: nat, off: nat, buf: seq<bv8>)
    requires Sized(v) && FileAt(v, b) && Transfer(L, off, |buf|) && v.disk[0].DataB?
    ensures WriteBlock(v, b, L, off, buf).disk[0].DataB?
  {
    AllocFacts(v);
  }

  /** Once block 0 holds data, later rounds leave data there. */
  lemma {:induction false} SuperblockGone(v: Vol, b: nat, L: nat, off: nat, buf: seq<bv8>)
    requires Sized(v) && FileAt(v, b) && Transfer(L, off, |buf|) && v.disk[0].DataB?
    ensures WriteRange(v, b, L, off, buf).disk[0].DataB?
    decreases LastBlock(off, |buf|) - L
  {
    hide Axfs.WriteBlock;
    RangeUnfold(v, b, L, off, buf);
    RoundOnData(v, b, L, off, buf);
    if L < LastBlock(off, |buf|) {
      SuperblockGone(WriteBlock(v, b, L, off, buf), b, L + 1, off, buf);
    }
  }

  lemma RoundOnFullVolume(v: Vol, b: nat, L: nat, off: nat, buf: seq<bv8>)
    requires Sized(v) && FileAt(v, b) && Transfer(L, off, |buf|)
    requires L >= |Node(v, b).extents| && FreeCount(v.bm, v.total) == 0
    ensures WriteBlock(v, b, L, off, buf).disk[0].DataB?
  {
    AllocFacts(v);
  }

  /** A write that needs more blocks than are free overwrites the superblock. */
  lemma {:induction false} FullVolume(v: Vol, g: Ledger, b: nat, L: nat, off: nat, buf: seq<bv8>)
    requires FsInv(v, g) && Live(v, b) && !Node(v, b).isDir && FileAt(v, b)
    requires Transfer(L, off, |buf|) && L <= |Node(v, b).extents| && LastBlock(off, |buf|) < MAX_EXTENTS
    requires FreeCount(v.bm, v.total) < Need(v, b, LastBlock(off, |buf|))
    ensures WriteRange(v, b, L, off, buf).disk[0].DataB?
    decreases LastBlock(off, |buf|) - L
  {
    hide Axfs.WriteBlock;
    var r := WriteBlock(v, b, L, off, buf);
    RangeUnfold(v, b, L, off, buf);
    if CanStore(v, b, L) {
      var g' := RoundSpec(v, g, b, L, off, buf);
      assert L < LastBlock(off, |buf|);
      FullVolume(r, g', b, L + 1, off, buf);
    } else {
      RoundOnFullVolume(v, b, L, off, buf);
      if L < LastBlock(off, |buf|) { SuperblockGone(r, b, L + 1, off, buf); }
    }
  }

  /** A write keeps the volume sound exactly when enough blocks are free for it. */
  lemma WriteSoundIff(v: Vol, g: Ledger, b: nat, off: nat, buf: seq<bv8>)
    requires FsInv(v, g) && Live(v, b) && !Node(v, b).isDir && FileAt(v, b)
    requires |buf| > 0 && off / BLOCK <= |Node(v, b).extents| && LastBlock(off, |buf|) < MAX_EXTENTS
    ensures (exists g' :: FsInv(Write(v, b, off, buf), g')) <==>
              FreeCount(v.bm, v.total) >= Need(v, b, LastBlock(off, |buf|))
  {
    if FreeCount(v.bm, v.total) >= Need(v, b, LastBlock(off, |buf|)) {
      var g' := RangeSpec(v, g, b, off / BLOCK, off, buf);
      var w := WriteRange(v, b, off / BLOCK, off, buf);
      SetSize(w, g', b, if off + |buf| > Node(w, b).size then off + |buf| else Node(w, b).size);
      assert FsInv(Write(v, b, off, buf), g');
    } else {
      FullVolume(v, g, b, off / BLOCK, off, buf);
      WriteRangeFile(v, b, off / BLOCK, off, buf);
      assert Write(v, b, off, buf).disk[0].DataB?;
    }
  }
}
