/** The streaming checksum of a chain against the checksum of the same bytes in
    one buffer. */
module ChecksumStream {
  import opened Memory
  import opened Checksum

  // ---- The wrap of the one-buffer sum ----

  /** The 32-bit wrap of inet_csum goes unnoticed: it does not happen, or the
      multiples of 2^32 lost are a multiple of 65535. */
  predicate WrapHarmless(s: nat) {
    s < U32 || (s % U32 != 0 && s / U32 % 65535 == 0)
  }

  lemma WrapExact(s: nat)
    ensures Rep(s % U32) == Rep(s) <==> WrapHarmless(s)
  {
    var q, r := s / U32, s % U32;
    assert s == r + q + 65535 * (65537 * q);
    if r > 0 {
      RepShift(s, 65537 * q);
      SameRep(r, q);
    }
  }

  lemma SameRep(r: nat, q: nat)
    requires r > 0
    ensures Rep(r + q) == Rep(r) <==> q % 65535 == 0
  {
    var k := q / 65535;
    RepShift(r + q, k);
    assert q - 65535 * k == q % 65535;
    Near(r, q % 65535);
  }

  lemma Near(r: nat, d: nat)
    requires r > 0 && d < 65535
    ensures Rep(r + d) == Rep(r) <==> d == 0
  {
  }

  /** Buffers up to 131074 bytes never wrap: more than any IP datagram. */
  lemma ShortNeverWraps(d: seq<Byte>)
    requires |d| <= 131074
    ensures WordSum(d) < U32
  {
    WordSumBound(d);
  }

  function Ones(n: nat): seq<Byte> {
    seq(n, _ => 255)
  }

  lemma {:induction false} OnesSum(n: nat)
    ensures WordSum(Ones(2 * n)) == 65535 * n
  {
    if n > 0 {
      assert Ones(2 * n)[2..] == Ones(2 * (n - 1));
      OnesSum(n - 1);
    }
  }

  /** Two bytes more, all 0xFF, do wrap, and it shows. */
  lemma LongOnesWrap(n: nat)
    requires n == 131076
    ensures |Ones(n)| == n && !WrapHarmless(WordSum(Ones(n)))
    ensures Finish(WordSum(Ones(n)) % U32) != Finish(WordSum(Ones(n)))
  {
    hide WordSum;
    var k := n / 2;
    OnesSum(k);
    assert 2 * k == n;
    WrapExact(WordSum(Ones(n)));
    assert WordSum(Ones(n)) == 4295032830;
    hide Rep;
  }

  // ---- The two computations ----

  /** The bytes of a chain from off on, at most len of them. */
  function Slice(chain: seq<seq<Byte>>, off: nat, len: nat): seq<Byte> {
    var f := Flat(chain);
    f[Clip(off, |f|)..Clip(off + len, |f|)]
  }

  /** csum_finish. */
  method CsumFinish(sum: nat) returns (r: nat)
    requires sum < U32
    ensures r == Finish(sum)
  {
    var f := Fold(sum);
    r := 65535 - f;
  }

  /** mbuf_copyout: the slice as one buffer. */
  method Copyout(chain: seq<seq<Byte>>, off: nat, len: nat) returns (d: seq<Byte>)
    ensures d == Slice(chain, off, len)
  {
    hide Flat, Pieces, Slice;
    d := [];
    var i: nat, o: nat := 0, off;
    assert chain[0..] == chain;
    while i < |chain| && |d| < len
      invariant 0 <= i <= |chain| && |d| <= len
      invariant d + Flat(Pieces(chain[i..], o, len - |d|)) == Flat(Pieces(chain, off, len))
    {
      assert chain[i..][1..] == chain[i + 1..];
      FlatStep(chain[i..], o, len - |d|);
      if o < |chain[i]| {
        var n := |chain[i]| - o;
        if n > len - |d| {
          n := len - |d|;
        }
        var piece := chain[i][o..o + n];
        ghost var rest := Flat(Pieces(chain[i + 1..], 0, len - |d| - n));
        assert (d + piece) + rest == d + (piece + rest);
        d := d + piece;
        o := 0;
      } else {
        o := o - |chain[i]|;
      }
      i := i + 1;
    }
    NoPieces(chain[i..], o, len - |d|);
    PiecesFlat(chain, off, len);
    SliceIs(chain, off, len);
  }

  lemma SliceIs(chain: seq<seq<Byte>>, off: nat, len: nat)
    ensures var f := Flat(chain); Slice(chain, off, len) == f[Clip(off, |f|)..Clip(off + len, |f|)]
  {
  }

  /**
   * A slice checksummed both ways. When every piece but the last is even, the
   * streamed and the contiguous checksum agree exactly when the one-buffer sum
   * does not wrap harmfully, and so for every slice of at most 131074 bytes. For
   * such slices of other chains they agree exactly when the pieces add up to the
   * whole.
   */
  method BothWays(chain: seq<seq<Byte>>, off: nat, len: nat) returns (streamed: nat, contiguous: nat)
    ensures EvenButLast(Pieces(chain, off, len)) ==>
      (streamed == contiguous <==> WrapHarmless(WordSum(Slice(chain, off, len))))
    ensures EvenButLast(Pieces(chain, off, len)) && |Slice(chain, off, len)| <= 131074 ==> streamed == contiguous
    ensures |chain| <= 0x10_0000 && |Slice(chain, off, len)| <= 131074 ==>
      (streamed == contiguous <==> Rep(PieceSum(Pieces(chain, off, len))) == Rep(WordSum(Slice(chain, off, len))))
  {
    hide WordSum, Pieces, PieceSum, Flat;
    ghost var ps, d := Pieces(chain, off, len), Slice(chain, off, len);
    var sum := MbufCsumAcc(0, chain, off, len);
    streamed := CsumFinish(sum);
    var flat := Copyout(chain, off, len);
    contiguous := InetCsum(flat);
    WrapExact(WordSum(d));
    PiecesFlat(chain, off, len);
    if EvenButLast(ps) {
      EvenPiecesAddUp(ps);
    }
    if |d| <= 131074 {
      ShortNeverWraps(d);
    }
  }

  // ---- The lengths decide ----

  function Zeros(n: nat): seq<Byte> {
    seq(n, _ => 0)
  }

  lemma {:induction false} ZerosSum(n: nat)
    ensures WordSum(Zeros(n)) == 0
  {
    if n >= 2 {
      assert Zeros(n)[2..] == Zeros(n - 2);
      ZerosSum(n - 2);
    }
  }

  /** A byte 1 among zeros counts 1 at an even place and 256 at an odd one. */
  lemma {:induction false} OneAmongZeros(n: nat, m: nat)
    ensures WordSum(Zeros(n) + [1] + Zeros(m)) == if n % 2 == 0 then 1 else 256
  {
    var d := Zeros(n) + [1] + Zeros(m);
    if n >= 2 {
      assert d[2..] == Zeros(n - 2) + [1] + Zeros(m);
      OneAmongZeros(n - 2, m);
    } else if n == 1 {
      assert d[2..] == Zeros(m);
      ZerosSum(m);
    } else if m > 0 {
      assert d[2..] == Zeros(m - 1);
      ZerosSum(m - 1);
    }
  }

  function ZeroPieces(ls: seq<nat>): seq<seq<Byte>> {
    seq(|ls|, i requires 0 <= i < |ls| => Zeros(ls[i]))
  }

  function Total(ls: seq<nat>): nat {
    if ls == [] then 0 else ls[0] + Total(ls[1..])
  }

  lemma {:induction false} ZeroPiecesAre(ls: seq<nat>)
    ensures PieceSum(ZeroPieces(ls)) == 0 && Flat(ZeroPieces(ls)) == Zeros(Total(ls))
  {
    if ls != [] {
      assert ZeroPieces(ls)[1..] == ZeroPieces(ls[1..]);
      ZeroPiecesAre(ls[1..]);
      ZerosSum(ls[0]);
      assert Zeros(ls[0]) + Zeros(Total(ls[1..])) == Zeros(Total(ls));
      hide WordSum;
    }
  }

  lemma {:induction false} PiecesConcat(a: seq<seq<Byte>>, b: seq<seq<Byte>>)
    ensures PieceSum(a + b) == PieceSum(a) + PieceSum(b) && Flat(a + b) == Flat(a) + Flat(b)
  {
    hide WordSum;
    if a == [] {
      assert a + b == b;
    } else {
      assert (a + b)[1..] == a[1..] + b;
      PiecesConcat(a[1..], b);
    }
  }

  ghost predicate Lengths(ps: seq<seq<Byte>>, ls: seq<nat>) {
    |ps| == |ls| && forall i :: 0 <= i < |ls| ==> |ps[i]| == ls[i]
  }

  ghost predicate EvenLengths(ls: seq<nat>) {
    forall i :: 0 <= i < |ls| - 1 ==> ls[i] % 2 == 0
  }

  lemma {:induction false} TotalOdd(ls: seq<nat>)
    requires ls != [] && ls[|ls| - 1] % 2 == 1 && EvenLengths(ls)
    ensures Total(ls) % 2 == 1
  {
    if |ls| > 1 {
      assert ls[1..][|ls| - 2] == ls[|ls| - 1] && EvenLengths(ls[1..]);
      TotalOdd(ls[1..]);
      EvenPlusOdd(ls[0], Total(ls[1..]));
    } else {
      assert Total(ls[1..]) == 0;
    }
  }

  lemma EvenPlusOdd(a: nat, b: nat)
    requires a % 2 == 0 && b % 2 == 1
    ensures (a + b) % 2 == 1
  {
  }

  /** Bytes for which the sums differ, for any lengths with an odd piece before the
      last: zeros, but for a 1 right after the first odd piece. */
  lemma OddPieceBreaks(ls: seq<nat>, i: nat) returns (ps: seq<seq<Byte>>)
    requires i < |ls| - 1 && ls[i] % 2 == 1 && ls[i + 1] > 0
    requires forall j :: 0 <= j < i ==> ls[j] % 2 == 0
    ensures Lengths(ps, ls) && Rep(PieceSum(ps)) != Rep(WordSum(Flat(ps)))
  {
    hide WordSum, PieceSum, Flat, Rep;
    var a, b := ZeroPieces(ls[..i + 1]), ZeroPieces(ls[i + 2..]);
    var k: nat := ls[i + 1] - 1;
    ps := a + ([[1] + Zeros(k)] + b);
    ZeroPiecesAre(ls[..i + 1]);
    ZeroPiecesAre(ls[i + 2..]);
    TotalOdd(ls[..i + 1]);
    var n, m := Total(ls[..i + 1]), Total(ls[i + 2..]);
    PiecesConcat(a, [[1] + Zeros(k)] + b);
    FirstPiece([1] + Zeros(k), b);
    assert Zeros(0) + [1] + Zeros(k) == [1] + Zeros(k);
    OneAmongZeros(0, k);
    assert Zeros(n) + (([1] + Zeros(k)) + Zeros(m)) == Zeros(n) + [1] + Zeros(k + m);
    OneAmongZeros(n, k + m);
    assert PieceSum(ps) == 1 && WordSum(Flat(ps)) == 256;
    SmallReps();
  }

  lemma SmallReps()
    ensures Rep(1) != Rep(256)
  {
  }

  lemma FirstPiece(p: seq<Byte>, ps: seq<seq<Byte>>)
    ensures PieceSum([p] + ps) == WordSum(p) + PieceSum(ps) && Flat([p] + ps) == p + Flat(ps)
  {
    assert ([p] + ps)[1..] == ps;
    hide WordSum;
  }

  /** Exactly which lengths are safe whatever the bytes: non-empty pieces add up to
      the whole for all contents if and only if all but the last are even. */
  lemma LengthsExact(ls: seq<nat>)
    requires forall i :: 0 <= i < |ls| ==> ls[i] > 0
    ensures (forall ps :: Lengths(ps, ls) ==> Rep(PieceSum(ps)) == Rep(WordSum(Flat(ps)))) <==> EvenLengths(ls)
  {
    hide WordSum, PieceSum, Flat, Rep;
    if EvenLengths(ls) {
      forall ps | Lengths(ps, ls) ensures Rep(PieceSum(ps)) == Rep(WordSum(Flat(ps))) {
        EvenPiecesAddUp(ps);
      }
    } else {
      var i := FirstOdd(ls);
      var ps := OddPieceBreaks(ls, i);
    }
  }

  lemma FirstOdd(ls: seq<nat>) returns (i: nat)
    requires !EvenLengths(ls)
    ensures i < |ls| - 1 && ls[i] % 2 == 1 && forall j :: 0 <= j < i ==> ls[j] % 2 == 0
  {
    i := 0;
    while ls[i] % 2 == 0
      invariant i < |ls| - 1
      invariant forall j :: 0 <= j < i ==> ls[j] % 2 == 0
      decreases |ls| - i
    {
      i := i + 1;
    }
  }
}
