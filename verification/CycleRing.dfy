/**
 * The cycle-bit protocol of the xHCI rings. Entries are written at absolute
 * positions 0, 1, 2, ...; position p uses slot p % 256, and carries the cycle
 * bit of its lap p / 256, which starts at one and flips on every lap.
 */
module CycleRing {

  const TRBS := 256

  /** A transfer request block; control is split into its type, the toggle bit of
      a link, the cycle bit and the remaining flags. */
  datatype Trb = Trb(parameter: nat, status: nat, kind: nat, flags: nat, toggle: bool, cycle: bool)

  /** The cycle bit of a lap. */
  predicate LapBit(lap: int) {
    lap % 2 == 0
  }

  /** Every slot carries the bit of the last lap that wrote it. Before the first
      lap that is lap -1: a zeroed ring. */
  ghost predicate Written(ring: seq<Trb>, p: int)
    requires |ring| == TRBS
  {
    forall pos :: p - 256 <= pos < p ==> WrittenAt(ring, pos)
  }

  predicate WrittenAt(ring: seq<Trb>, pos: int)
    requires |ring| == TRBS
  {
    ring[pos % 256].cycle == LapBit(pos / 256)
  }

  /** The entries the consumer has yet to read are in their slots. */
  ghost predicate Holds(ring: seq<Trb>, c: nat, hist: seq<Trb>)
    requires |ring| == TRBS
  {
    forall pos: nat :: c <= pos < |hist| ==> HoldsAt(ring, hist, pos)
  }

  predicate HoldsAt(ring: seq<Trb>, hist: seq<Trb>, pos: nat)
    requires |ring| == TRBS && pos < |hist|
  {
    ring[pos % 256] == hist[pos]
  }

  ghost predicate Inv(ring: seq<Trb>, c: nat, hist: seq<Trb>) {
    && |ring| == TRBS
    && c <= |hist| <= c + TRBS
    && Written(ring, |hist|)
    && Holds(ring, c, hist)
  }

  lemma Start(ring: seq<Trb>)
    requires |ring| == TRBS && forall i :: 0 <= i < TRBS ==> !ring[i].cycle
    ensures Inv(ring, 0, [])
  {
    forall pos | -256 <= pos < 0 ensures WrittenAt(ring, pos) {
    }
  }

  lemma OtherSlot(p: int, pos: int)
    requires p - 256 < pos < p
    ensures pos % 256 != p % 256
  {
  }

  /** Writing the next entry with its lap's bit keeps every unread entry, as long
      as one slot is not outstanding. */
  lemma PutInv(ring: seq<Trb>, c: nat, hist: seq<Trb>, t: Trb)
    requires Inv(ring, c, hist) && |hist| < c + TRBS
    requires t.cycle == LapBit(|hist| / 256)
    ensures Inv(ring[|hist| % 256 := t], c, hist + [t])
  {
    hide LapBit;
    var p := |hist|;
    var ring', hist' := ring[p % 256 := t], hist + [t];
    forall pos | p + 1 - 256 <= pos < p + 1 ensures WrittenAt(ring', pos) {
      if pos < p {
        OtherSlot(p, pos);
        assert WrittenAt(ring, pos);
      }
    }
    forall pos: nat | c <= pos < |hist'| ensures HoldsAt(ring', hist', pos) {
      if pos < p {
        OtherSlot(p, pos);
        assert HoldsAt(ring, hist, pos);
      }
    }
  }

  /** Comparing the slot's bit with the lap's tells exactly whether there is an
      unread entry: never a stale one, never one missed. */
  lemma PollExact(ring: seq<Trb>, c: nat, hist: seq<Trb>)
    requires Inv(ring, c, hist)
    ensures ring[c % 256].cycle == LapBit(c / 256) <==> c < |hist|
    ensures c < |hist| ==> ring[c % 256] == hist[c]
  {
    if c < |hist| {
      assert HoldsAt(ring, hist, c) && WrittenAt(ring, c);
    } else {
      assert WrittenAt(ring, c - 256);
    }
  }

  /** Reading an entry lets the consumer move on. */
  lemma TakeInv(ring: seq<Trb>, c: nat, hist: seq<Trb>)
    requires Inv(ring, c, hist) && c < |hist|
    ensures |hist| <= c + 1 + TRBS && Inv(ring, c + 1, hist)
  {
  }

  /** One entry too many: with every slot outstanding, the next write makes the
      consumer see an empty ring while entries are unread. */
  lemma Overrun(ring: seq<Trb>, c: nat, hist: seq<Trb>, t: Trb)
    requires Inv(ring, c, hist) && |hist| == c + TRBS
    requires t.cycle == LapBit(|hist| / 256)
    ensures ring[|hist| % 256 := t][c % 256].cycle != LapBit(c / 256)
  {
  }
}
