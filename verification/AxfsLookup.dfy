/** axfs_lookup: following a path from a directory, one component at a time. */
module AxfsLookup {
  import opened Sequences
  import opened Bitmap
  import opened Axfs
  import opened AxfsDir
  import opened AxfsVolume
  import opened Paths

  const MAX_NAME := 255

  /** A component is cut to MAX_NAME characters before it is compared. */
  function Clip(s: string): string {
    if |s| > MAX_NAME then s[..MAX_NAME] else s
  }

  /** The inode a list of components leads to. */
  function Walk(v: Vol, cur: nat, comps: seq<string>): Option<nat>
    requires Sized(v)
    decreases |comps|
  {
    if comps == [] then Some(cur)
    else if !ListDir(v, cur) then None
    else
      var c := FindChild(v, cur, Clip(comps[0]));
      if c == 0 then None else Walk(v, c, comps[1..])
  }

  lemma {:induction false} WalkConcat(v: Vol, cur: nat, a: seq<string>, b: seq<string>)
    requires Sized(v)
    ensures Walk(v, cur, a + b) == match Walk(v, cur, a) { case None => None case Some(c) => Walk(v, c, b) }
    decreases |a|
  {
    if a == [] {
      assert a + b == b;
    } else if ListDir(v, cur) && FindChild(v, cur, Clip(a[0])) != 0 {
      assert (a + b)[1..] == a[1..] + b;
      WalkConcat(v, FindChild(v, cur, Clip(a[0])), a[1..], b);
    }
  }

  /** A walk that fails part of the way fails. */
  lemma WalkFails(v: Vol, dir: nat, path: string, k: nat)
    requires Sized(v) && k <= |path| && (k < |path| ==> path[k] == '/') && Walk(v, dir, Components(path[..k])).None?
    ensures Walk(v, dir, Components(path)).None?
  {
    ComponentsPrefix(path, k);
    var a := Components(path[..k]);
    WalkConcat(v, dir, a, Components(path)[|a|..]);
    assert a + Components(path)[|a|..] == Components(path);
  }

  /** The next component at or after i: path[j..k], or j == |path| if there is none. */
  method NextComponent(path: string, i: nat) returns (j: nat, k: nat)
    requires i <= |path|
    ensures i <= j <= k <= |path| && (j == k <==> j == |path|)
    ensures forall m :: i <= m < j ==> path[m] == '/'
    ensures (forall m :: j <= m < k ==> path[m] != '/') && (k < |path| ==> path[k] == '/')
  {
    j := i;
    while j < |path| && path[j] == '/'
      invariant i <= j <= |path| && forall m :: i <= m < j ==> path[m] == '/'
    { j := j + 1; }
    k := j;
    while k < |path| && path[k] != '/'
      invariant j <= k <= |path| && forall m :: j <= m < k ==> path[m] != '/'
    { k := k + 1; }
  }

  /** What following one more component does to a walk. */
  lemma WalkStep(v: Vol, dir: nat, path: string, i: nat, j: nat, k: nat, cur: nat)
    requires Sized(v) && i <= j < k <= |path| && Walk(v, dir, Components(path[..i])) == Some(cur)
    requires (0 < i < |path| ==> path[i - 1] == '/' || path[i] == '/') && forall m :: i <= m < j ==> path[m] == '/'
    requires forall m :: j <= m < k ==> path[m] != '/'
    ensures Walk(v, dir, Components(path[..k])) ==
      if ListDir(v, cur) && FindChild(v, cur, Clip(path[j..k])) != 0 then Some(FindChild(v, cur, Clip(path[j..k]))) else None
  {
    hide Paths.Components;
    TrailingSlashes(path[..i], path[..j]);
    NextSegment(path, j, k);
    WalkConcat(v, dir, Components(path[..j]), [path[j..k]]);
    WalkOne(v, cur, path[j..k]);
  }

  lemma WalkOne(v: Vol, cur: nat, name: string)
    requires Sized(v)
    ensures Walk(v, cur, [name]) ==
      if ListDir(v, cur) && FindChild(v, cur, Clip(name)) != 0 then Some(FindChild(v, cur, Clip(name))) else None
  {
    assert [name][1..] == [];
  }

  lemma WalkStart(v: Vol, dir: nat, slash: string)
    requires Sized(v) && (slash == "" || slash == "/")
    ensures Walk(v, dir, Components(slash)) == Some(dir)
  {
    hide Bitmap.Test;
    TrailingSlashes("", slash);
  }

  /** axfs_lookup of `path` under directory inode `dir`. */
  method Lookup(vol: Volume, dir: nat, path: string) returns (r: Option<nat>)
    requires Sized(vol.Abs())
    ensures r == Walk(vol.Abs(), dir, Components(path))
  {
    hide *;
    ghost var v := vol.Abs();
    var cur, i := dir, if |path| > 0 && path[0] == '/' then 1 else 0;
    WalkStart(v, dir, path[..i]);
    while i < |path|
      invariant i <= |path| && (0 < i < |path| ==> path[i - 1] == '/' || path[i] == '/')
      invariant Walk(v, dir, Components(path[..i])) == Some(cur)
    {
      var j, k := NextComponent(path, i);
      if j == |path| {
        TrailingSlashes(path[..i], path[..j]);
        i := j;
        break;
      }
      WalkStep(v, dir, path, i, j, k, cur);
      var next := Child(vol, cur, Clip(path[j..k]));
      if next == 0 {
        WalkFails(v, dir, path, k);
        return None;
      }
      cur, i := next, k;
    }
    assert path[..i] == path;
    return Some(cur);
  }

  /** One directory level: 0 if `cur` is no directory or has no such entry. */
  method Child(vol: Volume, cur: nat, name: string) returns (c: nat)
    requires Sized(vol.Abs())
    ensures c == if ListDir(vol.Abs(), cur) then FindChild(vol.Abs(), cur, name) else 0
  {
    if !(cur < vol.total && vol.disk[cur].InodeB?) { return 0; }
    var node := vol.disk[cur].node;
    if !node.isDir { return 0; }
    if !ListBlocks(Vol(vol.total, vol.root, vol.bm, vol.disk), node.extents) { return 0; }
    var found, k, i := vol.FindSlot(node.extents, Named(name));
    if !found { return 0; }
    assert ListBlock(vol.Abs(), node.extents[k]);
    return vol.disk[node.extents[k]].slots[i].inode;
  }
}
