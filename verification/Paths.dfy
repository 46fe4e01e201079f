/** Slash-separated paths, as axfs_lookup walks them and mkfs_axiomefs splits them. */
module Paths {

  /** The position of the last slash, or -1. */
  function LastSlash(p: string): (s: int)
    ensures -1 <= s < |p|
    ensures s >= 0 ==> p[s] == '/'
    ensures forall i :: s < i < |p| ==> p[i] != '/'
  {
    if p == "" then -1
    else if p[|p| - 1] == '/' then |p| - 1
    else LastSlash(p[..|p| - 1])
  }

  /** What follows the last slash. */
  function BaseName(p: string): (b: string)
    ensures '/' !in b
  {
    p[LastSlash(p) + 1..]
  }

  function Segment(s: string): seq<string> {
    if s == "" then [] else [s]
  }

  /** The non-empty components of a path, in order. */
  function Components(p: string): (r: seq<string>) {
    var s := LastSlash(p);
    if s < 0 then Segment(p) else Components(p[..s]) + Segment(p[s + 1..])
  }

  lemma LastSlashIs(p: string, s: int)
    requires -1 <= s < |p| && (s >= 0 ==> p[s] == '/') && forall i :: s < i < |p| ==> p[i] != '/'
    ensures LastSlash(p) == s
  {
  }

  /** Slashes at the end of a path add no component. */
  lemma {:induction false} TrailingSlashes(p: string, q: string)
    requires |p| <= |q| && q[..|p|] == p && forall i :: |p| <= i < |q| ==> q[i] == '/'
    ensures Components(q) == Components(p)
    decreases |q|
  {
    if |p| == |q| {
      assert p == q;
    } else {
      var n := |q| - 1;
      LastSlashIs(q, n);
      assert q[n + 1..] == "";
      TrailingSlashes(p, q[..n]);
    }
  }

  /** One more segment after a slash, or at the start, is one more component. */
  lemma NextSegment(p: string, j: nat, k: nat)
    requires j < k <= |p| && (forall i :: j <= i < k ==> p[i] != '/') && (j > 0 ==> p[j - 1] == '/')
    ensures Components(p[..k]) == Components(p[..j]) + [p[j..k]]
  {
    LastSlashIs(p[..k], j - 1);
    if j == 0 {
      assert p[..k] == p[j..k] && Components(p[..0]) == [];
    } else {
      assert p[..k][..j - 1] == p[..j - 1] && p[..k][j..] == p[j..k];
      assert p[..j][..j - 1] == p[..j - 1];
      TrailingSlashes(p[..j - 1], p[..j]);
    }
  }

  /** Cutting a path where a component ends keeps a prefix of its components. */
  lemma {:induction false} ComponentsPrefix(p: string, k: nat)
    requires k <= |p| && (k < |p| ==> p[k] == '/')
    ensures Components(p[..k]) <= Components(p)
    decreases |p|
  {
    if k == |p| {
      assert p[..k] == p;
    } else {
      var s := LastSlash(p);
      assert p[..s][..k] == p[..k];
      ComponentsPrefix(p[..s], k);
    }
  }
}
