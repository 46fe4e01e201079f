/** Bitmaps packed eight to a byte, as kernel/pmm.c and kernel/axiomefs.c keep them. */
module Bitmap {

  function Mask(k: nat): bv8
    requires k < 8
  {
    1 << k
  }

  /** The bits of a mask: any of them in b, and b with all of them set or cleared. */
  predicate Meets(b: bv8, m: bv8) {
    b & m != 0
  }

  function Plus(b: bv8, m: bv8): bv8 {
    b | m
  }

  function Minus(b: bv8, m: bv8): bv8 {
    b & !m
  }

  /** Bit i of the packed bytes. */
  predicate Test(bm: seq<bv8>, i: nat)
    requires i < 8 * |bm|
  {
    Meets(bm[i / 8], Mask(i % 8))
  }

  function Set(bm: seq<bv8>, i: nat): (r: seq<bv8>)
    requires i < 8 * |bm|
    ensures |r| == |bm|
  {
    bm[i / 8 := Plus(bm[i / 8], Mask(i % 8))]
  }

  function Clear(bm: seq<bv8>, i: nat): (r: seq<bv8>)
    requires i < 8 * |bm|
    ensures |r| == |bm|
  {
    bm[i / 8 := Minus(bm[i / 8], Mask(i % 8))]
  }

  /** The eight masks. */
  lemma MaskIs(k: nat)
    requires k < 8
    ensures Mask(k) == if k == 0 then 1 else if k == 1 then 2 else if k == 2 then 4 else if k == 3 then 8
                       else if k == 4 then 16 else if k == 5 then 32 else if k == 6 then 64 else 128
  {
  }

  predicate OneBit(m: bv8) {
    m == 1 || m == 2 || m == 4 || m == 8 || m == 16 || m == 32 || m == 64 || m == 128
  }

  lemma MaskOneBit(k: nat, j: nat)
    requires k < 8 && j < 8
    ensures OneBit(Mask(k)) && (Mask(k) == Mask(j) <==> k == j)
  {
    MaskIs(k);
    MaskIs(j);
    hide Mask;
  }

  lemma PlusOne(b: bv8, m: bv8, n: bv8)
    requires OneBit(m) && OneBit(n)
    ensures Meets(Plus(b, m), n) <==> m == n || Meets(b, n)
  {
  }

  lemma MinusOne(b: bv8, m: bv8, n: bv8)
    requires OneBit(m) && OneBit(n)
    ensures Meets(Minus(b, m), n) <==> m != n && Meets(b, n)
  {
  }

  lemma ByteBits(b: bv8, k: nat, j: nat)
    requires k < 8 && j < 8
    ensures Meets(Plus(b, Mask(k)), Mask(j)) <==> (j == k || Meets(b, Mask(j)))
    ensures Meets(Minus(b, Mask(k)), Mask(j)) <==> (j != k && Meets(b, Mask(j)))
  {
    hide Mask, OneBit, Meets, Plus, Minus;
    MaskOneBit(k, j);
    MaskOneBit(j, k);
    PlusOne(b, Mask(k), Mask(j));
    MinusOne(b, Mask(k), Mask(j));
  }

  /** The operators on whole bitmaps, as the code writes them. */
  lemma AsWritten(bm: seq<bv8>, i: nat)
    requires i < 8 * |bm|
    ensures Test(bm, i) <==> bm[i / 8] & Mask(i % 8) != 0
    ensures Set(bm, i) == bm[i / 8 := bm[i / 8] | Mask(i % 8)]
    ensures Clear(bm, i) == bm[i / 8 := bm[i / 8] & !Mask(i % 8)]
  {
  }

  lemma SameBitPlace(i: nat, j: nat)
    ensures i == j <==> i / 8 == j / 8 && i % 8 == j % 8
  {
  }

  lemma SetOne(bm: seq<bv8>, i: nat, j: nat)
    requires i < 8 * |bm| && j < 8 * |bm|
    ensures Test(Set(bm, i), j) <==> (j == i || Test(bm, j))
    ensures Test(Clear(bm, i), j) <==> (j != i && Test(bm, j))
  {
    hide Mask, Meets, Plus, Minus;
    SameBitPlace(i, j);
    ByteBits(bm[i / 8], i % 8, j % 8);
  }

  lemma {:induction false} SetBits(bm: seq<bv8>, i: nat)
    requires i < 8 * |bm|
    ensures forall j :: 0 <= j < 8 * |bm| ==> (Test(Set(bm, i), j) <==> (j == i || Test(bm, j)))
    ensures forall j :: 0 <= j < 8 * |bm| ==> (Test(Clear(bm, i), j) <==> (j != i && Test(bm, j)))
  {
    forall j | 0 <= j < 8 * |bm|
      ensures Test(Set(bm, i), j) <==> (j == i || Test(bm, j))
      ensures Test(Clear(bm, i), j) <==> (j != i && Test(bm, j))
    {
      SetOne(bm, i, j);
    }
  }

  /** Bitmaps that agree on every bit are the same bytes. */
  lemma {:induction false} SameBits(a: seq<bv8>, b: seq<bv8>)
    requires |a| == |b| && forall j :: 0 <= j < 8 * |a| ==> (Test(a, j) <==> Test(b, j))
    ensures a == b
  {
    forall k | 0 <= k < |a| ensures a[k] == b[k] {
      forall j | 0 <= j < 8 ensures Meets(a[k], Mask(j)) <==> Meets(b[k], Mask(j)) {
        assert Test(a, 8 * k + j) <==> Test(b, 8 * k + j);
      }
      SameByte(a[k], b[k]);
    }
  }

  lemma SameByte(x: bv8, y: bv8)
    requires forall j :: 0 <= j < 8 ==> (Meets(x, Mask(j)) <==> Meets(y, Mask(j)))
    ensures x == y
  {
    assert forall j :: j in [0, 1, 2, 3, 4, 5, 6, 7] ==> (Meets(x, Mask(j)) <==> Meets(y, Mask(j)));
    assert Meets(x, Mask(0)) <==> Meets(y, Mask(0));
    assert Meets(x, Mask(1)) <==> Meets(y, Mask(1));
    assert Meets(x, Mask(2)) <==> Meets(y, Mask(2));
    assert Meets(x, Mask(3)) <==> Meets(y, Mask(3));
    assert Meets(x, Mask(4)) <==> Meets(y, Mask(4));
    assert Meets(x, Mask(5)) <==> Meets(y, Mask(5));
    assert Meets(x, Mask(6)) <==> Meets(y, Mask(6));
    assert Meets(x, Mask(7)) <==> Meets(y, Mask(7));
  }

  /** How many of the first n bits are clear. */
  ghost function FreeCount(bm: seq<bv8>, n: nat): (c: nat)
    requires n <= 8 * |bm|
    ensures c <= n
  {
    if n == 0 then 0 else FreeCount(bm, n - 1) + if Test(bm, n - 1) then 0 else 1
  }

  /** Flipping one bit below n moves the count by one, and nothing else does. */
  lemma {:induction false} CountFlip(bm: seq<bv8>, bm': seq<bv8>, n: nat, i: nat)
    requires |bm'| == |bm| && n <= 8 * |bm| && i < 8 * |bm|
    requires !Test(bm, i) && Test(bm', i)
    requires forall j :: 0 <= j < n && j != i ==> (Test(bm, j) <==> Test(bm', j))
    ensures FreeCount(bm, n) == FreeCount(bm', n) + if i < n then 1 else 0
  {
    hide Test;
    if n > 0 { CountFlip(bm, bm', n - 1, i); }
  }

  lemma {:induction false} CountZero(bm: seq<bv8>, n: nat)
    requires n <= 8 * |bm|
    ensures FreeCount(bm, n) == 0 <==> forall j :: 0 <= j < n ==> Test(bm, j)
  {
    hide Test;
    if n > 0 { CountZero(bm, n - 1); }
  }
}
