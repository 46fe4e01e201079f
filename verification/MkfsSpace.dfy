/** Space from the formatter on: a volume made by mkfs_axiomefs has nothing to lose,
    and nothing is lost in any use of it. */
module MkfsSpace {
  import opened Sequences
  import opened Bitmap
  import opened Axfs
  import opened AxfsInv
  import opened AxfsRuns
  import opened AxfsLeaks
  import opened Mkfs
  import opened MkfsImage

  /** Every block past the inodes and below the top is some node's data block. */
  lemma DataHeld(t: seq<Entry>, total: nat, e: nat)
    requires Proper(t, total) && FIRST_INODE + |t| <= e < Start(t, |t|)
    ensures Sized(Image(t, total)) && Held(Image(t, total), e)
  {
    hide Bitmap.Test, Mkfs.Image, Mkfs.Start, Mkfs.DataCount;
    var i := Holder(t, e, |t| - 1);
    NextStart(t, i);
    var k := e - Start(t, i);
    NodeSound(t, total, i);
    assert HoldsAs(Image(t, total), InodeBlock(i), k, e);
  }

  lemma NextStart(t: seq<Entry>, i: nat)
    requires i < |t|
    ensures Start(t, i + 1) == Start(t, i) + DataCount(t, i)
  {
  }

  lemma NotHeldLow(t: seq<Entry>, total: nat, e: nat)
    requires Proper(t, total) && e < FIRST_INODE
    ensures Sized(Image(t, total)) && !Held(Image(t, total), e)
  {
    hide Bitmap.Test, Mkfs.Image, Mkfs.Start, Mkfs.DataCount;
    ImageSized(t, total);
    var v := Image(t, total);
    if b: nat, k: nat :| HoldsAs(v, b, k, e) {
      ImageInode(t, total, b);
    }
  }

  /** The formatter marks used exactly its five reserved blocks, the inodes and their
      blocks. */
  lemma ImageNoLeaks(t: seq<Entry>, total: nat)
    requires Proper(t, total)
    ensures Sized(Image(t, total)) && NoLeaks(Image(t, total), 5)
  {
    hide Bitmap.Test, Mkfs.Image, Mkfs.Start, Held;
    ImageSized(t, total);
    var v := Image(t, total);
    StartMonotone(t, 0, |t|);
    forall e: nat | e < 5 ensures UsedBit(v, e) && !Live(v, e) && !Held(v, e) {
      ImageAt(t, total, e);
      ImageInode(t, total, e);
      NotHeldLow(t, total, e);
    }
    forall e: nat | UsedBit(v, e) ensures Needed(v, 5, e) {
      ImageAt(t, total, e);
      ImageInode(t, total, e);
      if e >= FIRST_INODE + |t| {
        DataHeld(t, total, e);
      }
    }
  }

  /** On a formatted volume, after any run of creates, writes and removes, a block is
      marked used exactly while it is one of the first five, an inode, or held. */
  lemma FormattedNeverLeaks(t: seq<Entry>, total: nat, ops: seq<Op>, e: nat)
    requires Proper(t, total) && Sized(Image(t, total)) && CanRun(Image(t, total), ops)
    ensures var r := After(Image(t, total), ops); UsedBit(r, e) <==> e < 5 || Live(r, e) || Held(r, e)
  {
    hide Mkfs.Image, NoLeaks, Sound, Held;
    ImageNoLeaks(t, total);
    ImageSound(t, total);
    UsedExactly(Image(t, total), 5, ops, e);
  }
}
