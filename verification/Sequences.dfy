/** Sequence vocabulary shared by the list-shaped kernel structures. */
module Sequences {

  datatype Option<+T> = None | Some(value: T)

  predicate NoDup<T(==)>(q: seq<T>) {
    forall i, j :: 0 <= i < j < |q| ==> q[i] != q[j]
  }

  /** The position of the first occurrence. */
  function IndexOf<T(==)>(q: seq<T>, x: T): (i: nat)
    requires x in q
    ensures i < |q| && q[i] == x && x !in q[..i]
  {
    if q[0] == x then 0 else
      assert q == [q[0]] + q[1..];
      var i := IndexOf(q[1..], x);
      assert q[..i + 1] == [q[0]] + q[1..][..i];
      i + 1
  }

  /** The sequence without the element at position i: a list after unlinking. */
  function Without<T>(q: seq<T>, i: nat): (r: seq<T>)
    requires i < |q|
    ensures |r| == |q| - 1
    ensures forall j :: 0 <= j < i ==> r[j] == q[j]
    ensures forall j :: i <= j < |r| ==> r[j] == q[j + 1]
  {
    q[..i] + q[i + 1..]
  }

  lemma IndexOfUnique<T>(q: seq<T>, i: nat)
    requires NoDup(q) && i < |q|
    ensures IndexOf(q, q[i]) == i
  {
  }

  lemma WithoutMembers<T>(q: seq<T>, i: nat)
    requires NoDup(q) && i < |q|
    ensures NoDup(Without(q, i))
    ensures forall x :: x in Without(q, i) <==> x in q && x != q[i]
  {
    var r := Without(q, i);
    forall x | x in q && x != q[i] ensures x in r {
      var j :| 0 <= j < |q| && q[j] == x;
      assert r[if j < i then j else j - 1] == x;
    }
  }

  /** The elements that belong to `keep`, in order. */
  function Filter<T(==)>(q: seq<T>, keep: set<T>): seq<T> {
    if q == [] then [] else (if q[0] in keep then [q[0]] else []) + Filter(q[1..], keep)
  }

  lemma FilterMembers<T>(q: seq<T>, keep: set<T>)
    ensures forall x :: x in Filter(q, keep) ==> x in q && x in keep
    ensures forall x :: x in q && x in keep ==> x in Filter(q, keep)
    ensures NoDup(q) ==> NoDup(Filter(q, keep))
  {
  }

  lemma {:induction false} FilterAppend<T>(q: seq<T>, x: T, keep: set<T>)
    ensures Filter(q + [x], keep) == Filter(q, keep) + if x in keep then [x] else []
  {
    if q != [] {
      FilterAppend(q[1..], x, keep);
      assert (q + [x])[1..] == q[1..] + [x];
    }
  }

  lemma {:induction false} NoDupConcat<T>(a: seq<T>, b: seq<T>)
    requires NoDup(a) && NoDup(b) && forall x :: x in a ==> x !in b
    ensures NoDup(a + b)
  {
    forall i, j | 0 <= i < j < |a + b| ensures (a + b)[i] != (a + b)[j] {
      if i < |a| <= j { assert a[i] in a && b[j - |a|] in b; }
    }
  }

  /** Distinct numbers below n: at most n of them. */
  lemma {:induction false} Pigeonhole(q: seq<nat>, n: nat)
    requires forall i :: 0 <= i < |q| ==> q[i] < n
    requires NoDup(q)
    ensures |q| <= n
    decreases n
  {
    if q != [] {
      assert q[0] < n;
      if n - 1 in q {
        var i := IndexOf(q, n - 1);
        WithoutMembers(q, i);
        Pigeonhole(Without(q, i), n - 1);
      } else {
        forall i | 0 <= i < |q| ensures q[i] < n - 1 {
          assert q[i] in q;
        }
        Pigeonhole(q, n - 1);
      }
    }
  }
}
