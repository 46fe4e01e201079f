/**
 * The Internet checksum, over one buffer and streamed over the segments of a
 * packet-buffer chain.
 */
module Checksum {
  import opened Memory

  const U32 := 0x1_0000_0000

  function Word(lo: Byte, hi: Byte): (w: nat)
    ensures w <= 65535
  {
    var l: int, h: int := lo, hi;
    l + 256 * h
  }

  /** The sum of the little-endian 16-bit words; an odd last byte counts as a low byte. */
  function WordSum(d: seq<Byte>): nat {
    if |d| == 0 then 0
    else if |d| == 1 then d[0]
    else Word(d[0], d[1]) + WordSum(d[2..])
  }

  /** The folded value of a sum: its representative modulo 65535 in 1..65535, or 0 for 0. */
  function Rep(s: nat): (r: nat)
    ensures r <= 65535 && (r == 0 <==> s == 0)
  {
    if s == 0 then 0 else (s - 1) % 65535 + 1
  }

  function Finish(s: nat): (r: nat)
    ensures r <= 65535
  {
    65535 - Rep(s)
  }

  // ---- Arithmetic modulo 65535 ----

  lemma RepShift(s: nat, q: nat)
    requires s > 65535 * q
    ensures Rep(s - 65535 * q) == Rep(s)
  {
    ModShift(s - 1, q);
  }

  lemma {:induction false} ModShift(a: nat, q: nat)
    requires a >= 65535 * q
    ensures (a - 65535 * q) % 65535 == a % 65535
  {
    if q > 0 {
      ModShift(a - 65535, q - 1);
      assert (a - 65535) % 65535 == a % 65535;
    }
  }

  /** One folding step keeps the representative. */
  lemma RepFold(s: nat)
    requires s > 65535
    ensures Rep(s % 65536 + s / 65536) == Rep(s) && s % 65536 + s / 65536 < s
  {
    assert s % 65536 + s / 65536 == s - 65535 * (s / 65536);
    RepShift(s, s / 65536);
  }

  /** Sums with the same representative keep it when the same amount is added. */
  lemma RepAdd(a: nat, b: nat, c: nat)
    requires Rep(a) == Rep(b)
    ensures Rep(a + c) == Rep(b + c)
  {
    if a < b {
      RepAbove(a, b, c);
    } else if b < a {
      RepAbove(b, a, c);
    }
  }

  lemma RepAbove(x: nat, y: nat, c: nat)
    requires x < y && Rep(x) == Rep(y)
    ensures Rep(x + c) == Rep(y + c)
  {
    var q := SameMod(x - 1, y - 1);
    hide Rep;
    RepShift(y + c, q);
  }

  lemma SameMod(x: nat, y: nat) returns (q: nat)
    requires x < y && x % 65535 == y % 65535
    ensures y == x + 65535 * q
  {
    q := y / 65535 - x / 65535;
  }

  lemma {:induction false} WordSumConcat(a: seq<Byte>, b: seq<Byte>)
    requires |a| % 2 == 0
    ensures WordSum(a + b) == WordSum(a) + WordSum(b)
  {
    if a == [] {
      assert a + b == b;
    } else {
      assert (a + b)[2..] == a[2..] + b;
      WordSumConcat(a[2..], b);
    }
  }

  lemma {:induction false} WordSumBound(d: seq<Byte>)
    ensures WordSum(d) <= 65535 * ((|d| + 1) / 2)
  {
    if |d| > 1 {
      WordSumBound(d[2..]);
    }
  }

  // ---- The code ----

  method Fold(s: nat) returns (r: nat)
    requires s < U32
    ensures r == Rep(s)
  {
    r := s;
    while r / 65536 != 0
      invariant Rep(r) == Rep(s)
      decreases r
    {
      RepFold(r);
      r := r % 65536 + r / 65536;
    }
  }

  /** inet_csum: the 32-bit sum wraps when the words add up to 2^32 or more. */
  method InetCsum(d: seq<Byte>) returns (r: nat)
    ensures r == Finish(WordSum(d) % U32)
  {
    hide WordSum, Word, Rep, Wrap;
    var sum: nat, i := 0, 0;
    assert d[0..] == d;
    WrapBelow(sum);
    while |d| - i > 1
      invariant 0 <= i <= |d|
      invariant Wrap(sum + WordSum(d[i..])) == Wrap(WordSum(d)) && Wrap(sum) == sum
    {
      WordSumFrom(d, i);
      WrapAdd(sum, Word(d[i], d[i + 1]), WordSum(d[i + 2..]));
      sum := Wrap(sum + Word(d[i], d[i + 1]));
      i := i + 2;
    }
    WordSumFrom(d, i);
    if |d| - i == 1 {
      WrapAdd(sum, d[i], 0);
      sum := Wrap(sum + d[i]);
    }
    WrapIs(sum);
    WrapIs(WordSum(d));
    var f := Fold(sum);
    return 65535 - f;
  }

  /** Unsigned 32-bit arithmetic. */
  function Wrap(a: nat): nat {
    a % U32
  }

  lemma WrapIs(a: nat)
    ensures Wrap(a) == a % U32 && Wrap(a) < U32
  {
  }

  lemma WrapBelow(a: nat)
    requires a < U32
    ensures Wrap(a) == a
  {
  }

  lemma WordSumFrom(d: seq<Byte>, i: nat)
    requires i <= |d|
    ensures |d| - i > 1 ==> WordSum(d[i..]) == Word(d[i], d[i + 1]) + WordSum(d[i + 2..])
    ensures |d| - i == 1 ==> WordSum(d[i..]) == d[i]
    ensures |d| == i ==> WordSum(d[i..]) == 0
  {
    hide Word;
    if |d| - i > 1 {
      assert d[i..][2..] == d[i + 2..];
    }
  }

  lemma WrapAdd(a: nat, b: nat, c: nat)
    ensures Wrap(Wrap(a + b) + c) == Wrap(a + (b + c)) && Wrap(Wrap(a + b)) == Wrap(a + b)
  {
  }

  /** One round of csum_acc: add a word, and fold if the sum left 16 bits. */
  function AddWord(sum: nat, w: nat): nat {
    var s := (sum + w) % U32;
    if s > 0xFFFF then s % 65536 + s / 65536 else s
  }

  lemma AddWordBound(sum: nat, w: nat)
    requires w <= 65535
    ensures AddWord(sum, w) <= 0x1_FFFE
    ensures sum <= 0x1_0001 ==> AddWord(sum, w) <= 0x1_0001
  {
  }

  lemma AddWordRep(sum: nat, w: nat, rest: nat)
    requires w <= 65535 && sum <= U32 - 65536
    ensures Rep(AddWord(sum, w) + rest) == Rep(sum + (w + rest))
  {
    hide Rep;
    var s := sum + w;
    WrapBelow(s);
    if s > 0xFFFF {
      RepFold(s);
      RepAdd(s % 65536 + s / 65536, s, rest);
    }
  }

  /** csum_acc: folded after every word, so that it never overflows when it
      starts below 2^32 - 65535; after an even number of bytes it is back below
      65538, where one call after another can go on. */
  method CsumAcc(start: nat, d: seq<Byte>) returns (sum: nat)
    requires start < U32
    ensures sum < U32
    ensures start <= U32 - 65536 ==> Rep(sum) == Rep(start + WordSum(d))
    ensures start <= 0x1_0001 && |d| % 2 == 0 ==> sum <= 0x1_0001
    ensures start <= U32 - 65536 ==> sum <= (if start > 0x1_FFFE then start else 0x1_FFFE) + 255
  {
    hide Rep, Word, AddWord, WordSum;
    var i := 0;
    sum := start;
    assert d[0..] == d;
    while |d| - i > 1
      invariant 0 <= i <= |d| && i % 2 == 0 && sum < U32
      invariant start <= 0x1_0001 ==> sum <= 0x1_0001
      invariant sum <= (if start > 0x1_FFFE then start else 0x1_FFFE)
      invariant start <= U32 - 65536 ==> sum <= U32 - 65536 && Rep(sum + WordSum(d[i..])) == Rep(start + WordSum(d))
    {
      WordSumFrom(d, i);
      AddWordBound(sum, Word(d[i], d[i + 1]));
      if start <= U32 - 65536 {
        AddWordRep(sum, Word(d[i], d[i + 1]), WordSum(d[i + 2..]));
      }
      sum := AddAndFold(sum, Word(d[i], d[i + 1]));
      i := i + 2;
    }
    WordSumFrom(d, i);
    if |d| - i == 1 {
      sum := (sum + d[i]) % U32;
    }
  }

  method AddAndFold(sum: nat, w: nat) returns (r: nat)
    ensures r == AddWord(sum, w)
  {
    r := (sum + w) % U32;
    if r > 0xFFFF {
      r := r % 65536 + r / 65536;
    }
  }

  // ---- Chains ----

  function Flat(ps: seq<seq<Byte>>): seq<Byte> {
    if ps == [] then [] else ps[0] + Flat(ps[1..])
  }

  /** The parts of a chain's segments that a slice of len bytes from off covers. */
  function Pieces(chain: seq<seq<Byte>>, off: nat, len: nat): seq<seq<Byte>> {
    if chain == [] || len == 0 then []
    else if off < |chain[0]| then
      var avail := |chain[0]| - off;
      var n := if len < avail then len else avail;
      [chain[0][off..off + n]] + Pieces(chain[1..], 0, len - n)
    else Pieces(chain[1..], off - |chain[0]|, len)
  }

  function Clip(i: nat, n: nat): nat {
    if i < n then i else n
  }

  /** A slice of a concatenation, by where it starts and ends. */
  lemma SliceAcross(a: seq<Byte>, b: seq<Byte>, x: nat, n: nat)
    requires x <= |a| && |a| - x <= n
    ensures (a + b)[x..Clip(x + n, |a + b|)] == a[x..] + b[..Clip(n - (|a| - x), |b|)]
  {
  }

  lemma SliceBeyond(a: seq<Byte>, b: seq<Byte>, x: nat, n: nat)
    requires |a| <= x
    ensures (a + b)[Clip(x, |a + b|)..Clip(x + n, |a + b|)] == b[Clip(x - |a|, |b|)..Clip(x - |a| + n, |b|)]
  {
  }

  /** What the head of a chain contributes. */
  lemma FlatStep(chain: seq<seq<Byte>>, off: nat, len: nat)
    requires chain != [] && len > 0
    ensures off >= |chain[0]| ==> Pieces(chain, off, len) == Pieces(chain[1..], off - |chain[0]|, len)
    ensures off < |chain[0]| ==>
      var n := Clip(len, |chain[0]| - off);
      Flat(Pieces(chain, off, len)) == chain[0][off..off + n] + Flat(Pieces(chain[1..], 0, len - n))
  {
    if off < |chain[0]| {
      var n := Clip(len, |chain[0]| - off);
      var ps := Pieces(chain, off, len);
      assert ps == [chain[0][off..off + n]] + Pieces(chain[1..], 0, len - n);
      assert ps[1..] == Pieces(chain[1..], 0, len - n);
    }
  }

  lemma NoPieces(chain: seq<seq<Byte>>, off: nat, len: nat)
    requires chain == [] || len == 0
    ensures Flat(Pieces(chain, off, len)) == []
  {
  }

  /** The pieces put together are the slice of the flattened chain. */
  lemma {:induction false} PiecesFlat(chain: seq<seq<Byte>>, off: nat, len: nat)
    ensures var f := Flat(chain); Flat(Pieces(chain, off, len)) == f[Clip(off, |f|)..Clip(off + len, |f|)]
  {
    hide Pieces, Flat;
    FlatHead(chain);
    if chain == [] || len == 0 {
      NoPieces(chain, off, len);
    } else {
      var a, g := chain[0], Flat(chain[1..]);
      FlatStep(chain, off, len);
      if off >= |a| {
        PiecesFlat(chain[1..], off - |a|, len);
        SliceBeyond(a, g, off, len);
      } else if len < |a| - off {
        NoPieces(chain[1..], 0, 0);
        assert (a + g)[off..off + len] == a[off..off + len];
      } else {
        PiecesFlat(chain[1..], 0, len - (|a| - off));
        SliceAcross(a, g, off, len);
      }
    }
  }

  lemma FlatHead(ps: seq<seq<Byte>>)
    ensures Flat(ps) == if ps == [] then [] else ps[0] + Flat(ps[1..])
  {
  }

  ghost predicate EvenButLast(ps: seq<seq<Byte>>) {
    forall i :: 0 <= i < |ps| - 1 ==> |ps[i]| % 2 == 0
  }

  function PieceSum(ps: seq<seq<Byte>>): nat {
    if ps == [] then 0 else WordSum(ps[0]) + PieceSum(ps[1..])
  }

  lemma {:induction false} EvenPiecesAddUp(ps: seq<seq<Byte>>)
    requires EvenButLast(ps)
    ensures PieceSum(ps) == WordSum(Flat(ps))
  {
    if |ps| == 1 {
      assert Flat(ps[1..]) == [] && Flat(ps) == ps[0];
    } else if |ps| > 1 {
      WordSumConcat(ps[0], Flat(ps[1..]));
      EvenPiecesAddUp(ps[1..]);
    }
  }

  /** mbuf_csum_acc: the sum of the pieces. It never overflows over pieces of which
      all but the last are even, nor over a chain of up to a million segments. */
  method MbufCsumAcc(start: nat, chain: seq<seq<Byte>>, off: nat, len: nat) returns (sum: nat)
    requires start < U32
    ensures sum < U32
    ensures start <= 0x1_0001 && (EvenButLast(Pieces(chain, off, len)) || |chain| <= 0x10_0000) ==>
      Rep(sum) == Rep(start + PieceSum(Pieces(chain, off, len)))
  {
    hide Rep, WordSum, Pieces, PieceSum, EvenButLast;
    var i: nat, o: nat, n: nat := 0, off, len;
    sum := start;
    ghost var ps := Pieces(chain, off, len);
    assert chain[0..] == chain;
    while i < |chain| && n > 0
      invariant 0 <= i <= |chain| && sum < U32
      invariant start <= 0x1_0001 && EvenButLast(ps) ==>
        && EvenButLast(Pieces(chain[i..], o, n))
        && (Pieces(chain[i..], o, n) != [] ==> sum <= 0x1_0001)
      invariant start <= 0x1_0001 && |chain| <= 0x10_0000 ==> sum <= 0x1_FFFE + 255 * i
      invariant start <= 0x1_0001 && (EvenButLast(ps) || |chain| <= 0x10_0000) ==>
        Rep(sum + PieceSum(Pieces(chain[i..], o, n))) == Rep(start + PieceSum(ps))
    {
      assert chain[i..][1..] == chain[i + 1..];
      PiecesStep(chain[i..], o, n);
      if o < |chain[i]| {
        var avail := |chain[i]| - o;
        var m := if n < avail then n else avail;
        var piece := chain[i][o..o + m];
        ghost var rest := Pieces(chain[i + 1..], 0, n - m);
        PieceSumStep(piece, rest);
        ghost var before := sum;
        sum := CsumAcc(sum, piece);
        if start <= 0x1_0001 && EvenButLast(ps) {
          LaterPieces([piece] + rest);
          assert ([piece] + rest)[1..] == rest;
        }
        if start <= 0x1_0001 && (EvenButLast(ps) || |chain| <= 0x10_0000) {
          RepAdd(sum, before + WordSum(piece), PieceSum(rest));
        }
        n := n - m;
        o := 0;
      } else {
        o := o - |chain[i]|;
      }
      i := i + 1;
    }
    NothingLeft(chain[i..], o, n);
  }

  lemma PiecesStep(chain: seq<seq<Byte>>, off: nat, len: nat)
    requires chain != [] && len > 0
    ensures off >= |chain[0]| ==> Pieces(chain, off, len) == Pieces(chain[1..], off - |chain[0]|, len)
    ensures off < |chain[0]| ==>
      var n := if len < |chain[0]| - off then len else |chain[0]| - off;
      Pieces(chain, off, len) == [chain[0][off..off + n]] + Pieces(chain[1..], 0, len - n)
  {
  }

  lemma PieceSumStep(p: seq<Byte>, ps: seq<seq<Byte>>)
    ensures PieceSum([p] + ps) == WordSum(p) + PieceSum(ps)
  {
    hide WordSum;
    assert ([p] + ps)[1..] == ps;
  }

  lemma NothingLeft(chain: seq<seq<Byte>>, off: nat, len: nat)
    requires chain == [] || len == 0
    ensures Pieces(chain, off, len) == [] && PieceSum(Pieces(chain, off, len)) == 0
  {
  }

  lemma LaterPieces(ps: seq<seq<Byte>>)
    requires EvenButLast(ps) && ps != []
    ensures EvenButLast(ps[1..]) && (ps[1..] != [] ==> |ps[0]| % 2 == 0)
  {
  }
}
