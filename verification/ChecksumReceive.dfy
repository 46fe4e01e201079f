/** What a receiver checks: data followed by its own checksum sums to zero, and by
    hardly anything else. */
module ChecksumReceive {
  import opened Memory
  import opened Checksum
  import opened ChecksumStream

  /** One word more, added to an even number of bytes. */
  lemma OneWordMore(d: seq<Byte>, lo: Byte, hi: Byte)
    requires |d| % 2 == 0
    ensures WordSum(d + [lo, hi]) == WordSum(d) + Word(lo, hi)
  {
    WordSumConcat(d, [lo, hi]);
    assert [lo, hi][2..] == [];
  }

  /** The complement of a sum is the word that makes it 65535 once more folded; 0
      and 65535 stand for each other only where the sum is not 0. */
  lemma ComplementExact(s: nat, w: nat)
    requires w <= 65535
    ensures Finish(s + w) == 0 <==> w == Finish(s) || (Finish(s) == 0 && w == 65535)
  {
    if s > 0 {
      var q := (s - 1) / 65535;
      assert s == 65535 * q + Rep(s);
      if s + w > 65535 * q {
        RepShift(s + w, q);
      }
      SmallComplement(Rep(s), w);
    }
  }

  lemma SmallComplement(a: nat, w: nat)
    requires 0 < a <= 65535 && w <= 65535
    ensures Rep(a + w) == 65535 <==> a + w == 65535 || a + w == 131070
  {
  }

  /** What the checksum of a buffer followed by one more word says. */
  lemma CheckExact(d: seq<Byte>, lo: Byte, hi: Byte)
    requires |d| % 2 == 0 && WordSum(d) < U32 - 65535
    ensures var r := Finish(WordSum(d) % U32);
      Finish(WordSum(d + [lo, hi]) % U32) == 0 <==> Word(lo, hi) == r || (r == 0 && Word(lo, hi) == 65535)
  {
    hide WordSum, Finish, Word;
    OneWordMore(d, lo, hi);
    WrapBelow(WordSum(d));
    WrapBelow(WordSum(d) + Word(lo, hi));
    ComplementExact(WordSum(d), Word(lo, hi));
  }

  /** A receiver of even-length data d and the word lo, hi computes 0 exactly when
      that word is the checksum r of d, or is 65535 where r is 0. */
  method Receive(d: seq<Byte>, lo: Byte, hi: Byte) returns (r: nat, check: nat)
    ensures r <= 65535
    ensures |d| % 2 == 0 && WordSum(d) < 0x1_0000_0000 - 65535 ==>
      (check == 0 <==> lo + 256 * hi == r || (r == 0 && lo == hi == 255))
  {
    hide WordSum, Finish;
    r := InetCsum(d);
    check := InetCsum(d + [lo, hi]);
    if |d| % 2 == 0 && WordSum(d) < U32 - 65535 {
      CheckExact(d, lo, hi);
    }
  }

  lemma BytesOf(r: nat)
    requires r <= 65535
    ensures r % 256 < 256 && r / 256 < 256 && Word(r % 256, r / 256) == r
  {
  }

  /** Data followed by its own checksum, low byte first, checks to 0. */
  method SendAndReceive(d: seq<Byte>) returns (r: nat, check: nat)
    ensures r <= 65535
    ensures |d| % 2 == 0 && WordSum(d) < 0x1_0000_0000 - 65535 ==> check == 0
  {
    hide WordSum, Finish, Word;
    r := InetCsum(d);
    BytesOf(r);
    check := InetCsum(d + [r % 256, r / 256]);
    if |d| % 2 == 0 && WordSum(d) < U32 - 65535 {
      CheckExact(d, r % 256, r / 256);
    }
  }

  // ---- Streamed ----

  /** The segments that hold anything. */
  function NonEmpty(chain: seq<seq<Byte>>): seq<seq<Byte>> {
    if chain == [] then [] else (if chain[0] == [] then [] else [chain[0]]) + NonEmpty(chain[1..])
  }

  lemma {:induction false} WholeChain(chain: seq<seq<Byte>>)
    ensures Pieces(chain, 0, |Flat(chain)|) == NonEmpty(chain) && PieceSum(NonEmpty(chain)) == PieceSum(chain)
  {
    hide WordSum;
    if chain != [] {
      WholeChain(chain[1..]);
      var tail := NonEmpty(chain[1..]);
      if chain[0] == [] {
        EmptySum();
        EmptyTail(chain);
      } else {
        assert chain[0][0..|chain[0]|] == chain[0];
        PieceSumStep(chain[0], tail);
      }
    }
  }

  lemma EmptySum()
    ensures WordSum([]) == 0
  {
  }

  lemma EmptyTail(chain: seq<seq<Byte>>)
    requires chain != [] && chain[0] == []
    ensures Flat(chain) == Flat(chain[1..]) && Pieces(chain, 0, |Flat(chain)|) == Pieces(chain[1..], 0, |Flat(chain)|)
    ensures NonEmpty(chain) == NonEmpty(chain[1..])
  {
    if |Flat(chain)| == 0 {
      assert Pieces(chain[1..], 0, 0) == [];
    }
  }

  ghost predicate AllEven(chain: seq<seq<Byte>>) {
    forall i :: 0 <= i < |chain| ==> |chain[i]| % 2 == 0
  }

  lemma {:induction false} NonEmptyEven(chain: seq<seq<Byte>>)
    requires AllEven(chain)
    ensures AllEven(NonEmpty(chain))
  {
    if chain != [] {
      NonEmptyEven(chain[1..]);
    }
  }

  /** A streamed sum of a whole chain of even segments, or of up to a million of any
      lengths, is the sum of its segments. */
  method StreamSum(chain: seq<seq<Byte>>) returns (sum: nat)
    ensures sum < U32
    ensures AllEven(chain) || |chain| <= 0x10_0000 ==> Rep(sum) == Rep(PieceSum(chain))
  {
    hide Rep, PieceSum, Pieces, NonEmpty, Flat;
    sum := MbufCsumAcc(0, chain, 0, |Flat(chain)|);
    WholeChain(chain);
    if AllEven(chain) {
      NonEmptyEven(chain);
    }
  }

  /** The streamed checksum of a chain, sent behind it in a segment of its own, makes
      the streamed checksum of the whole 0. */
  method StreamAndReceive(chain: seq<seq<Byte>>) returns (r: nat, check: nat)
    ensures r <= 65535
    ensures AllEven(chain) || |chain| < 0x10_0000 ==> check == 0
  {
    hide Rep, PieceSum, WordSum, Word, AllEven, Flat;
    var sum := StreamSum(chain);
    r := CsumFinish(sum);
    BytesOf(r);
    var tail := [r % 256, r / 256];
    var sum2 := StreamSum(chain + [tail]);
    check := CsumFinish(sum2);
    if AllEven(chain) || |chain| < 0x10_0000 {
      EvenTail(chain, tail);
      TailSum(chain, r % 256, r / 256);
      SentSum(sum, PieceSum(chain), r);
    }
  }

  lemma EvenTail(chain: seq<seq<Byte>>, tail: seq<Byte>)
    requires |tail| % 2 == 0
    ensures AllEven(chain) ==> AllEven(chain + [tail])
  {
  }

  lemma TailSum(chain: seq<seq<Byte>>, lo: Byte, hi: Byte)
    ensures PieceSum(chain + [[lo, hi]]) == PieceSum(chain) + Word(lo, hi)
  {
    PiecesConcat(chain, [[lo, hi]]);
    OneWordMore([], lo, hi);
    assert [] + [lo, hi] == [lo, hi];
    assert PieceSum([[lo, hi]]) == WordSum([lo, hi]);
  }

  lemma SentSum(sum: nat, total: nat, r: nat)
    requires Rep(sum) == Rep(total) && r == Finish(sum)
    ensures Finish(total + r) == 0
  {
    ComplementExact(total, r);
  }
}
