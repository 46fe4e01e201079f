/** Ownership: every block of an axiomefs volume belongs to one inode at most. */
module AxfsInv {
  import opened Bitmap
  import opened Axfs

  /** Who holds a block (inode, position among its extents) and where an inode is
      listed (directory, extent, slot). */
  datatype Ledger = Ledger(owner: map<nat, (nat, nat)>, entry: map<nat, (nat, nat, nat)>)

  predicate Dot(name: string) {
    name == "." || name == ".."
  }

  /** A used slot names a live inode and is the only one that does. */
  ghost predicate SlotOk(v: Vol, g: Ledger, b: nat, k: nat, i: nat, d: Dent)
    requires Sized(v)
  {
    d.inode != 0 && !Dot(d.name) ==>
      Live(v, d.inode) && d.inode != v.root && d.inode in g.entry && g.entry[d.inode] == (b, k, i)
  }

  ghost predicate DirOk(v: Vol, g: Ledger, b: nat, k: nat, blk: Block)
    requires Sized(v)
  {
    blk.DirB? && |blk.slots| == SLOTS && forall i :: 0 <= i < SLOTS ==> SlotOk(v, g, b, k, i, blk.slots[i])
  }

  ghost predicate ExtentOk(v: Vol, g: Ledger, b: nat, k: nat)
    requires Sized(v) && Live(v, b) && k < |Node(v, b).extents|
  {
    var e := Node(v, b).extents[k];
    && 3 <= e && UsedBit(v, e) && e in g.owner && g.owner[e] == (b, k)
    && if Node(v, b).isDir then DirOk(v, g, b, k, v.disk[e]) else v.disk[e].DataB? && |v.disk[e].bytes| == BLOCK
  }

  ghost predicate NodeOk(v: Vol, g: Ledger, b: nat)
    requires Sized(v) && Live(v, b)
  {
    && 3 <= b && |Node(v, b).extents| <= MAX_EXTENTS
    && forall k :: 0 <= k < |Node(v, b).extents| ==> ExtentOk(v, g, b, k)
  }

  ghost predicate FsInv(v: Vol, g: Ledger) {
    && Sized(v) && UsedBit(v, 0) && UsedBit(v, 1) && UsedBit(v, 2) && v.disk[0] == SuperB
    && Live(v, v.root) && Node(v, v.root).isDir
    && forall b :: Live(v, b) ==> NodeOk(v, g, b)
  }

  // ---- what the ledger means, without the ledger ----

  /** No block is held twice, by one inode or by two. */
  ghost predicate NoSharing(v: Vol)
    requires Sized(v)
  {
    forall b: nat, k: nat, b': nat, k': nat :: Holds(v, b, k) && Holds(v, b', k') && (b, k) != (b', k') ==>
      Node(v, b).extents[k] != Node(v, b').extents[k']
  }

  ghost predicate Holds(v: Vol, b: nat, k: nat)
    requires Sized(v)
  {
    Live(v, b) && k < |Node(v, b).extents|
  }

  /** Every inode and every held block is marked used and is not one of blocks 0-2,
      and no held block is an inode. */
  ghost predicate Accounted(v: Vol)
    requires Sized(v)
  {
    && (forall b: nat :: Live(v, b) ==> 3 <= b && UsedBit(v, b))
    && forall b: nat, k: nat :: Holds(v, b, k) ==>
         var e := Node(v, b).extents[k]; 3 <= e && UsedBit(v, e) && !Live(v, e)
  }

  lemma Ownership(v: Vol, g: Ledger)
    requires FsInv(v, g)
    ensures NoSharing(v) && Accounted(v)
  {
    forall b: nat | Live(v, b) ensures 3 <= b {
      assert NodeOk(v, g, b);
    }
    forall b: nat, k: nat | Holds(v, b, k)
      ensures ExtentOk(v, g, b, k)
      ensures var e := Node(v, b).extents[k]; 3 <= e && UsedBit(v, e) && !Live(v, e)
    {
      assert NodeOk(v, g, b);
    }
    forall b: nat, k: nat, b': nat, k': nat | Holds(v, b, k) && Holds(v, b', k') && (b, k) != (b', k')
      ensures Node(v, b).extents[k] != Node(v, b').extents[k']
    {
      assert ExtentOk(v, g, b, k) && ExtentOk(v, g, b', k');
    }
  }

  // ---- frames ----

  /** r agrees with v on inode b and everything it holds. */
  ghost predicate Untouched(v: Vol, r: Vol, b: nat)
    requires Sized(v) && Sized(r) && Live(v, b)
  {
    && Live(r, b) && r.disk[b] == v.disk[b]
    && forall k :: 0 <= k < |Node(v, b).extents| ==> SameBlock(v, r, Node(v, b).extents[k])
  }

  ghost predicate SameBlock(v: Vol, r: Vol, e: nat)
    requires Sized(v) && Sized(r)
  {
    e < v.total && e < r.total && (UsedBit(v, e) ==> UsedBit(r, e)) && r.disk[e] == v.disk[e]
  }

  ghost predicate Vouched(g: Ledger, g': Ledger, e: nat) {
    e in g.owner ==> e in g'.owner && g'.owner[e] == g.owner[e]
  }

  /** An untouched inode stays sound if the ledger still vouches for what it holds
      and the inodes it lists stay alive. */
  lemma NodeKept(v: Vol, g: Ledger, r: Vol, g': Ledger, b: nat)
    requires Sized(v) && Live(v, b) && NodeOk(v, g, b) && Sized(r) && r.root == v.root && Untouched(v, r, b)
    requires forall k :: 0 <= k < |Node(v, b).extents| ==> Vouched(g, g', Node(v, b).extents[k])
    requires forall c :: c in g.entry && g.entry[c].0 == b && Live(v, c) ==>
               Live(r, c) && c in g'.entry && g'.entry[c] == g.entry[c]
    ensures NodeOk(r, g', b)
  {
    forall k | 0 <= k < |Node(r, b).extents| ensures ExtentOk(r, g', b, k) {
      assert ExtentOk(v, g, b, k);
      var e := Node(v, b).extents[k];
      assert SameBlock(v, r, e) && Vouched(g, g', e);
      if Node(v, b).isDir {
        forall i | 0 <= i < SLOTS ensures SlotOk(r, g', b, k, i, r.disk[e].slots[i]) {
          assert SlotOk(v, g, b, k, i, v.disk[e].slots[i]);
        }
      }
    }
  }
}
