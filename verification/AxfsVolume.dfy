/** kernel/axiomefs.c as it is written: scans, loops and blocks written back one at a time. */
module AxfsVolume {
  import opened Sequences
  import opened Bitmap
  import opened Axfs
  import opened AxfsDir
  import opened AxfsWrite

  /** Writing a data block and keeping the inode for later is the same as Attach. */
  lemma AttachCommutes(v: Vol, b: nat, node: Inode, L: nat, e: nat, bytes: seq<bv8>)
    requires Sized(v) && b < v.total && e < v.total && e != b
    ensures var extents := if L < |node.extents| then node.extents[L := e] else node.extents + [e];
      Attach(Put(v, b, InodeB(node)), b, L, e, bytes) == Put(Put(v, e, DataB(bytes)), b, InodeB(node.(extents := extents)))
  {
  }

  lemma WriteBlockIsAttach(v: Vol, b: nat, L: nat, off: nat, buf: seq<bv8>)
    requires Sized(v) && FileAt(v, b) && Transfer(L, off, |buf|)
    ensures var (v1, e) := Backing(v, b, L);
      && Sized(v1) && b < v1.total && v1.disk[b].InodeB? && e < v1.total
      && WriteBlock(v, b, L, off, buf) == Attach(v1, b, L, e, Patch(Before(v, b, L), Low(L, off), Piece(L, off, buf)))
  {
    AllocFacts(v);
    assert forall k :: 0 <= k < |v.disk[b].node.extents| ==> DataAt(v, v.disk[b].node.extents[k]);
  }

  /** The file position a read of [off, off + len) has reached before logical block L. */
  function Reached(L: nat, off: nat, len: nat): nat {
    if L * BLOCK <= off then off else if off + len < L * BLOCK then off + len else L * BLOCK
  }

  /** One round of the read loop extends what has been read so far. */
  lemma ReadStep(v: Vol, b: nat, L: nat, off: nat, len: nat)
    requires Sized(v) && FileAt(v, b) && Transfer(L, off, len) && L < |v.disk[b].node.extents|
    ensures off <= Reached(L, off, len) <= Reached(L + 1, off, len) && Low(L, off) <= High(L, off, len) < BLOCK
    ensures Bytes(v, b, off, Reached(L, off, len)) + BlockOf(v, b, L)[Low(L, off)..High(L, off, len) + 1]
         == Bytes(v, b, off, Reached(L + 1, off, len))
  {
    hide AxfsWrite.Bytes, Axfs.BlockOf;
    Cut(L, off, len);
    BlockBytes(v, b, L, Low(L, off), High(L, off, len) + 1);
    BytesConcat(v, b, off, Reached(L, off, len), Reached(L + 1, off, len));
  }

  const WORDS := 0x1_0000_0000_0000_0000

  class Volume {
    const total: nat
    const root: nat
    var bm: seq<bv8>
    var disk: seq<Block>

    ghost function Abs(): Vol
      reads this
    {
      Vol(total, root, bm, disk)
    }

    constructor (v: Vol)
      ensures Abs() == v
    {
      total, root, bm, disk := v.total, v.root, v.bm, v.disk;
    }

    /** afs_alloc_block. */
    method AllocBlock() returns (n: nat)
      requires Sized(Abs())
      modifies this`bm
      ensures (Abs(), n) == Alloc(old(Abs()))
    {
      hide Bitmap.Test, Bitmap.Set, Bitmap.Mask;
      var i := 0;
      while i < total
        invariant i <= total && bm == old(bm)
        invariant FirstClear(bm, 0, total) == FirstClear(bm, i, total)
      {
        AsWritten(bm, i);
        if bm[i / 8] & Mask(i % 8) == 0 {
          bm := bm[i / 8 := bm[i / 8] | Mask(i % 8)];
          return i;
        }
        i := i + 1;
      }
      return 0;
    }

    /** afs_free_block. */
    method FreeBlock(b: nat)
      requires Sized(Abs()) && b < total
      modifies this`bm
      ensures Abs() == Free(old(Abs()), b)
    {
      bm := bm[b / 8 := bm[b / 8] & !Mask(b % 8)];
    }

    /** The two nested loops every directory operation runs: the first slot that hits. */
    method FindSlot(extents: seq<nat>, w: Want) returns (found: bool, k: nat, i: nat)
      requires Sized(Abs()) && ListBlocks(Abs(), extents)
      ensures Scan(Abs(), extents, 0, w) == if found then Some((k, i)) else None
    {
      k, i := 0, 0;
      while k < |extents|
        invariant k <= |extents| && Scan(Abs(), extents, 0, w) == Scan(Abs(), extents, k, w)
      {
        assert ListBlock(Abs(), extents[k]);
        var slots := disk[extents[k]].slots;
        i := 0;
        while i < SLOTS
          invariant i <= SLOTS && ScanSlots(slots, 0, w) == ScanSlots(slots, i, w)
        {
          if Hit(slots[i], w) { return true, k, i; }
          i := i + 1;
        }
        k := k + 1;
      }
      return false, 0, 0;
    }

    /** afs_dir_add_entry. */
    method DirAddEntry(d: nat, name: string, child: nat, isDir: bool)
      requires Sized(Abs()) && DirAt(Abs(), d)
      modifies this
      ensures Abs() == AddEntry(old(Abs()), d, Dent(child, isDir, name))
    {
      var node := disk[d].node;
      var found, k, i := FindSlot(node.extents, FreeSlot);
      if found {
        var e := node.extents[k];
        assert DirBlock(Abs(), e);
        disk := disk[e := DirB(disk[e].slots[i := Dent(child, isDir, name)])];
        return;
      }
      if |node.extents| >= MAX_EXTENTS { return; }
      AllocFacts(Abs());
      var e := AllocBlock();
      disk := disk[e := DirB(EmptySlots()[0 := Dent(child, isDir, name)])];
      node := node.(extents := node.extents + [e]);
      disk := disk[d := InodeB(node)];
    }

    /** afs_dir_remove_entry. */
    method DirRemoveEntry(d: nat, name: string)
      requires Sized(Abs()) && DirAt(Abs(), d)
      modifies this`disk
      ensures Abs() == RemoveEntry(old(Abs()), d, name)
    {
      var node := disk[d].node;
      var found, k, i := FindSlot(node.extents, Named(name));
      if found {
        var e := node.extents[k];
        assert DirBlock(Abs(), e);
        disk := disk[e := DirB(disk[e].slots[i := Dent(0, disk[e].slots[i].isDir, "")])];
      }
    }

    /** axfs_create, given the parent directory its path resolved to. */
    method Create(d: nat, name: string, isDir: bool) returns (ok: bool)
      requires Sized(Abs()) && DirAt(Abs(), d)
      modifies this
      ensures Abs() == AxfsDir.Create(old(Abs()), d, name, isDir) && ok == (name != "")
    {
      if |name| == 0 { return false; }
      WithInodeDir(Abs(), d, isDir);
      AllocFacts(Abs());
      var child := AllocBlock();
      disk := disk[child := InodeB(Inode(isDir, 0, []))];
      DirAddEntry(d, name, child, isDir);
      return true;
    }

    /** axfs_remove, given the parent directory its path resolved to. */
    method Remove(d: nat, name: string) returns (ok: bool)
      requires Sized(Abs()) && DirAt(Abs(), d)
      requires FindChild(Abs(), d, name) != 0 ==> Freeable(Abs(), FindChild(Abs(), d, name))
      modifies this
      ensures Abs() == AxfsDir.Remove(old(Abs()), d, name) && ok == (FindChild(old(Abs()), d, name) != 0)
    {
      ghost var v := Abs();
      var parent := disk[d].node;
      var found, k, i := FindSlot(parent.extents, Named(name));
      if !found { return false; }
      var child := disk[parent.extents[k]].slots[i].inode;
      DirRemoveEntry(d, name);
      assert disk[child] == v.disk[child];
      var node := disk[child].node;
      FreeExtents(node.extents);
      FreeBlock(child);
      return true;
    }

    /** The loop of axfs_remove over the child's extents. */
    method FreeExtents(extents: seq<nat>)
      requires Sized(Abs()) && forall k :: 0 <= k < |extents| ==> extents[k] < total
      modifies this`bm
      ensures bm == FreeAll(old(bm), extents, |extents|)
    {
      for e := 0 to |extents|
        invariant |bm| == |old(bm)| && bm == FreeAll(old(bm), extents, e)
      {
        FreeBlock(extents[e]);
      }
    }

    /** axfs_write of a non-empty buffer: the inode is kept in memory and written last. */
    method Write(b: nat, off: nat, buf: seq<bv8>)
      requires Sized(Abs()) && FileAt(Abs(), b) && |buf| > 0
      modifies this
      ensures Abs() == Axfs.Write(old(Abs()), b, off, buf)
    {
      hide Axfs.WriteBlock, Axfs.WriteRange;
      ghost var v, spec := Abs(), Abs();
      var node := disk[b].node;
      var L, last := off / BLOCK, (off + |buf| - 1) / BLOCK;
      WriteRangeFile(v, b, L, off, buf);
      while L <= last
        invariant off / BLOCK <= L <= last + 1
        invariant Sized(Abs()) && Sized(spec) && FileAt(spec, b) && spec == Put(Abs(), b, InodeB(node))
        invariant WriteRange(v, b, off / BLOCK, off, buf) == if L <= last then WriteRange(spec, b, L, off, buf) else spec
      {
        RangeUnfold(spec, b, L, off, buf);
        node := WriteRound(b, node, L, off, buf, spec);
        spec := WriteBlock(spec, b, L, off, buf);
        L := L + 1;
      }
      if off + |buf| > node.size { node := node.(size := off + |buf|); }
      disk := disk[b := InodeB(node)];
    }

    /** One round: fetch or allocate the block, patch it, write it back. */
    method WriteRound(b: nat, node: Inode, L: nat, off: nat, buf: seq<bv8>, ghost spec: Vol) returns (node': Inode)
      requires Sized(Abs()) && Sized(spec) && FileAt(spec, b) && b < total && spec == Put(Abs(), b, InodeB(node))
      requires Transfer(L, off, |buf|)
      modifies this
      ensures Sized(Abs()) && WriteBlock(spec, b, L, off, buf) == Put(Abs(), b, InodeB(node'))
    {
      hide Axfs.WriteBlock, Axfs.Patch, Axfs.Piece, Axfs.Attach, Axfs.Before, Axfs.Backing;
      var lo, piece := CutPiece(L, off, buf);
      var newphys, blk := Fetch(b, node, L, spec);
      ghost var v := Abs();
      WriteBlockIsAttach(spec, b, L, off, buf);
      AttachCommutes(v, b, node, L, newphys, Patch(blk, lo, piece));
      disk := disk[newphys := DataB(Patch(blk, lo, piece))];
      node' := node.(extents := if L < |node.extents| then node.extents[L := newphys] else node.extents + [newphys]);
    }

    method CutPiece(L: nat, off: nat, buf: seq<bv8>) returns (lo: nat, piece: seq<bv8>)
      requires Transfer(L, off, |buf|)
      ensures lo == Low(L, off) && piece == Piece(L, off, buf)
    {
      Cut(L, off, |buf|);
      lo := if L == off / BLOCK then off % BLOCK else 0;
      var hi := if L == (off + |buf| - 1) / BLOCK then (off + |buf| - 1) % BLOCK else BLOCK - 1;
      var src := L * BLOCK + lo - off;
      piece := buf[src..src + hi - lo + 1];
    }

    /** The block to write and what it holds now. */
    method Fetch(b: nat, node: Inode, L: nat, ghost spec: Vol) returns (newphys: nat, blk: seq<bv8>)
      requires Sized(Abs()) && Sized(spec) && FileAt(spec, b) && b < total && spec == Put(Abs(), b, InodeB(node))
      modifies this`bm
      ensures Sized(Abs()) && newphys < total && newphys != b
      ensures Backing(spec, b, L) == (Put(Abs(), b, InodeB(node)), newphys) && blk == Before(spec, b, L)
    {
      var phys := if L < |node.extents| then node.extents[L] else 0;
      assert L < |node.extents| ==> DataAt(spec, node.extents[L]);
      AllocFacts(spec);
      newphys, blk := phys, Zeros();
      if phys == 0 { newphys := AllocBlock(); } else { blk := disk[phys].bytes; }
    }

    /** axfs_read. Of no bytes at offset 0, the position of the last byte wraps to
        2^64 - 1, and every block of the file is returned. */
    method Read(b: nat, off: nat, len: nat) returns (buf: seq<bv8>)
      requires Sized(Abs()) && FileAt(Abs(), b) && |disk[b].node.extents| <= MAX_EXTENTS
      ensures !(off == len == 0 < disk[b].node.size) ==> buf == AxfsWrite.Read(Abs(), b, off, len)
      ensures off == len == 0 < disk[b].node.size ==> buf == Bytes(Abs(), b, 0, BLOCK * |disk[b].node.extents|)
    {
      var node := disk[b].node;
      if off >= node.size { return []; }
      hide AxfsWrite.Bytes;
      BytesEmpty(Abs(), b, off);
      var r := if len < node.size - off then len else node.size - off;
      if r == 0 && off > 0 {
        // The only block, if any, is cut to no bytes.
        return [];
      }
      ghost var L;
      buf, L := ReadLoop(b, node, off, if r == 0 then WORDS else r);
    }

    /** The loop of axfs_read over the logical blocks that have an extent. */
    method ReadLoop(b: nat, node: Inode, off: nat, r: nat) returns (buf: seq<bv8>, ghost end: nat)
      requires Sized(Abs()) && FileAt(Abs(), b) && node == disk[b].node && r > 0
      ensures off / BLOCK <= end <= (off + r - 1) / BLOCK + 1
      ensures end > (off + r - 1) / BLOCK || end >= |node.extents|
      ensures off / BLOCK < end ==> end <= |node.extents|
      ensures off <= Reached(end, off, r) && buf == Bytes(Abs(), b, off, Reached(end, off, r))
    {
      hide AxfsWrite.Bytes, Axfs.BlockOf;
      BytesEmpty(Abs(), b, off);
      buf := [];
      var L, last := off / BLOCK, (off + r - 1) / BLOCK;
      while L <= last && L < |node.extents|
        invariant off / BLOCK <= L <= last + 1 && (off / BLOCK < L ==> L <= |node.extents|)
        invariant off <= Reached(L, off, r) && buf == Bytes(Abs(), b, off, Reached(L, off, r))
      {
        ReadStep(Abs(), b, L, off, r);
        var lo := if L == off / BLOCK then off % BLOCK else 0;
        var hi := if L == last then (off + r - 1) % BLOCK else BLOCK - 1;
        var blk := ReadBlock(b, node, L);
        buf := buf + blk[lo..hi + 1];
        L := L + 1;
      }
      end := L;
    }

    method ReadBlock(b: nat, node: Inode, L: nat) returns (blk: seq<bv8>)
      requires Sized(Abs()) && FileAt(Abs(), b) && node == disk[b].node && L < |node.extents|
      ensures blk == BlockOf(Abs(), b, L)
    {
      assert DataAt(Abs(), node.extents[L]);
      blk := disk[node.extents[L]].bytes;
    }
  }
}
