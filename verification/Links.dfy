/** Null-terminated lists linked through their elements' first word. */
module Links {

  predicate ChainAt(link: map<int, int>, q: seq<int>, i: nat)
    requires i < |q|
  {
    q[i] in link && link[q[i]] == if i + 1 < |q| then q[i + 1] else 0
  }

  /** Following the links from head visits q and ends in null. */
  ghost predicate Chain(link: map<int, int>, head: int, q: seq<int>) {
    && head == (if q == [] then 0 else q[0])
    && forall i: nat :: i < |q| ==> ChainAt(link, q, i)
  }

  lemma ChainElsewhere(link: map<int, int>, head: int, q: seq<int>, x: int, v: int)
    requires Chain(link, head, q) && x !in q
    ensures Chain(link[x := v], head, q)
  {
    var link' := link[x := v];
    forall i: nat | i < |q| ensures ChainAt(link', q, i) {
      assert ChainAt(link, q, i);
    }
  }

  lemma ChainPush(link: map<int, int>, head: int, q: seq<int>, x: int)
    requires Chain(link, head, q) && x !in q
    ensures Chain(link[x := head], x, [x] + q)
  {
    var q' := [x] + q;
    var link' := link[x := head];
    forall i: nat | i < |q'| ensures ChainAt(link', q', i) {
      if i > 0 {
        assert ChainAt(link, q, i - 1);
      }
    }
  }

  lemma ChainPop(link: map<int, int>, head: int, q: seq<int>)
    requires Chain(link, head, q) && q != []
    ensures head in link && Chain(link, link[head], q[1..])
  {
    assert ChainAt(link, q, 0);
    forall i: nat | i < |q[1..]| ensures ChainAt(link, q[1..], i) {
      assert ChainAt(link, q, i + 1);
    }
  }

  /** Linking x behind the last element. */
  lemma ChainAppend(link: map<int, int>, head: int, q: seq<int>, x: int)
    requires Chain(link, head, q) && q != [] && x !in q
    requires forall i, j :: 0 <= i < j < |q| ==> q[i] != q[j]
    ensures Chain(link[x := 0][q[|q| - 1] := x], head, q + [x])
  {
    var link', q' := link[x := 0][q[|q| - 1] := x], q + [x];
    forall i: nat | i < |q'| ensures ChainAt(link', q', i) {
      if i < |q| {
        assert ChainAt(link, q, i);
      }
    }
  }
}
