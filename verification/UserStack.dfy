/**
 * The initial user stack: argument and environment strings, below them the
 * pointer vectors, and the arithmetic by which a program's entry point finds
 * them again.
 */
module UserStack {
  import opened Memory
  import opened Sequences

  const MAX_ARGS := 32

  // ---- C views of memory ----

  function WordAt(m: Mem, a: int): U64 {
    WordOf(Load(m, a, 8))
  }

  /** A NUL-terminated string at p. */
  predicate IsString(m: Mem, p: int, s: seq<Byte>) {
    0 !in s && Load(m, p, |s| + 1) == s + [0]
  }

  lemma StringUnique(m: Mem, p: int, s: seq<Byte>, t: seq<Byte>)
    requires IsString(m, p, s) && IsString(m, p, t)
    ensures s == t
  {
    StringPrefix(m, p, s, t);
    StringPrefix(m, p, t, s);
    forall i | 0 <= i < |s| ensures s[i] == t[i] {
      assert Load(m, p, |s| + 1)[i] == m(p + i) && Load(m, p, |t| + 1)[i] == m(p + i);
    }
  }

  lemma StringPrefix(m: Mem, p: int, s: seq<Byte>, t: seq<Byte>)
    requires IsString(m, p, s) && IsString(m, p, t)
    ensures |s| <= |t|
  {
    hide IsString;
    if |t| < |s| {
      NotTerminator(m, p, s, |t|);
      Terminator(m, p, t);
    }
  }

  lemma NotTerminator(m: Mem, p: int, s: seq<Byte>, i: nat)
    requires IsString(m, p, s) && i < |s|
    ensures m(p + i) != 0
  {
    assert Load(m, p, |s| + 1)[i] == s[i] && s[i] in s;
  }

  lemma Terminator(m: Mem, p: int, s: seq<Byte>)
    requires IsString(m, p, s)
    ensures m(p + |s|) == 0
  {
    assert Load(m, p, |s| + 1)[|s|] == 0;
  }

  /** A null-terminated vector of non-null pointers at a. */
  ghost predicate IsVector(m: Mem, a: int, ptrs: seq<int>) {
    && (forall i: nat :: i < |ptrs| ==> VectorAt(m, a, ptrs, i))
    && WordAt(m, a + 8 * |ptrs|) == 0
  }

  predicate VectorAt(m: Mem, a: int, ptrs: seq<int>, i: nat)
    requires i < |ptrs|
  {
    WordAt(m, a + 8 * i) == ptrs[i] != 0
  }

  /** What the entry code finds: argc at the stack pointer, argv behind it, envp
      behind argv's terminator. */
  ghost predicate Finds(m: Mem, rsp: int, args: seq<seq<Byte>>, envs: seq<seq<Byte>>, av: seq<int>, ev: seq<int>) {
    var argc := WordAt(m, rsp);
    var argv := rsp + 8;
    var envp := argv + 8 + 8 * argc;
    && argc == |args| == |av| && |envs| == |ev|
    && IsVector(m, argv, av) && IsVector(m, envp, ev)
    && (forall i: nat :: i < |args| ==> IsString(m, av[i], args[i]))
    && (forall i: nat :: i < |envs| ==> IsString(m, ev[i], envs[i]))
  }

  lemma VectorUnique(m: Mem, a: int, p: seq<int>, q: seq<int>)
    requires IsVector(m, a, p) && IsVector(m, a, q)
    ensures p == q
  {
    VectorPrefix(m, a, p, q);
    VectorPrefix(m, a, q, p);
    forall i: nat | i < |p| ensures p[i] == q[i] {
      assert VectorAt(m, a, p, i) && VectorAt(m, a, q, i);
    }
  }

  lemma VectorPrefix(m: Mem, a: int, p: seq<int>, q: seq<int>)
    requires IsVector(m, a, p) && IsVector(m, a, q)
    ensures |p| <= |q|
  {
    assert |q| < |p| ==> VectorAt(m, a, p, |q|);
  }

  /** Memory says which arguments and environment are found: there is only one answer. */
  lemma FindsUnique(m: Mem, rsp: int, args: seq<seq<Byte>>, envs: seq<seq<Byte>>, av: seq<int>, ev: seq<int>,
                    args': seq<seq<Byte>>, envs': seq<seq<Byte>>, av': seq<int>, ev': seq<int>)
    requires Finds(m, rsp, args, envs, av, ev) && Finds(m, rsp, args', envs', av', ev')
    ensures args == args' && envs == envs'
  {
    VectorUnique(m, rsp + 8, av, av');
    VectorUnique(m, rsp + 16 + 8 * |args|, ev, ev');
    forall i: nat | i < |args| ensures args[i] == args'[i] {
      StringUnique(m, av[i], args[i], args'[i]);
    }
    forall i: nat | i < |envs| ensures envs[i] == envs'[i] {
      StringUnique(m, ev[i], envs[i], envs'[i]);
    }
  }

  // ---- Sizes ----

  /** The bytes a list of strings takes with terminators. */
  function Size(ss: seq<seq<Byte>>): nat {
    if ss == [] then 0 else Size(ss[..|ss| - 1]) + |ss[|ss| - 1]| + 1
  }

  function Down16(a: int): int {
    a - a % 16
  }

  /** The entry stack pointer for these strings below top. */
  function EntryPointer(top: int, args: seq<seq<Byte>>, envs: seq<seq<Byte>>): (b: int)
    ensures b % 16 == 0
  {
    Down16(Down16(Down16(top) - Size(args) - Size(envs)) - 8 * (|args| + |envs| + 3))
  }

  // ---- Writing strings ----

  /** The strings of ss in memory, the first one highest, between lo and hi. */
  ghost predicate Laid(m: Mem, ss: seq<seq<Byte>>, ptrs: seq<int>, lo: int, hi: int) {
    && |ptrs| == |ss|
    && forall i: nat :: i < |ss| ==> LaidAt(m, ss, ptrs, lo, hi, i)
  }

  predicate LaidAt(m: Mem, ss: seq<seq<Byte>>, ptrs: seq<int>, lo: int, hi: int, i: nat)
    requires |ptrs| == |ss| && i < |ss|
  {
    && IsString(m, ptrs[i], ss[i])
    && lo <= ptrs[i] && ptrs[i] + |ss[i]| + 1 <= (if i == 0 then hi else ptrs[i - 1])
  }

  /** Memory outside a range is unchanged. */
  ghost predicate SameOutside(m: Mem, m': Mem, lo: int, hi: int) {
    forall k :: !(lo <= k < hi) ==> m'(k) == m(k)
  }

  lemma StringElsewhere(m: Mem, m': Mem, lo: int, hi: int, p: int, s: seq<Byte>)
    requires SameOutside(m, m', lo, hi) && IsString(m, p, s) && (hi <= p || p + |s| + 1 <= lo)
    ensures IsString(m', p, s)
  {
    assert Load(m', p, |s| + 1) == Load(m, p, |s| + 1);
  }

  lemma {:induction false} LaidBelow(m: Mem, ss: seq<seq<Byte>>, ptrs: seq<int>, lo: int, hi: int, i: nat)
    requires Laid(m, ss, ptrs, lo, hi) && i < |ss|
    ensures ptrs[i] + |ss[i]| + 1 <= hi
  {
    assert LaidAt(m, ss, ptrs, lo, hi, i);
    if i > 0 {
      LaidBelow(m, ss, ptrs, lo, hi, i - 1);
    }
  }

  /** One more string, stored just below lo. */
  lemma LaidMore(m: Mem, ss: seq<seq<Byte>>, ptrs: seq<int>, lo: int, hi: int, s: seq<Byte>)
    requires Laid(m, ss, ptrs, lo, hi) && lo <= hi && 0 !in s
    ensures var p := lo - (|s| + 1); Laid(Store(m, p, s + [0]), ss + [s], ptrs + [p], p, hi)
  {
    var p := lo - (|s| + 1);
    var m' := Store(m, p, s + [0]);
    LoadStored(m, p, s + [0]);
    forall i: nat | i < |ss| + 1 ensures LaidAt(m', ss + [s], ptrs + [p], p, hi, i) {
      if i < |ss| {
        assert LaidAt(m, ss, ptrs, lo, hi, i);
        StringElsewhere(m, m', p, lo, ptrs[i], ss[i]);
      } else if i > 0 {
        assert LaidAt(m, ss, ptrs, lo, hi, i - 1);
      }
    }
  }

  /** Strings survive writes below them. */
  lemma LaidElsewhere(m: Mem, m': Mem, a: int, b: int, ss: seq<seq<Byte>>, ptrs: seq<int>, lo: int, hi: int)
    requires SameOutside(m, m', a, b) && b <= lo && Laid(m, ss, ptrs, lo, hi)
    ensures Laid(m', ss, ptrs, lo, hi)
  {
    forall i: nat | i < |ss| ensures LaidAt(m', ss, ptrs, lo, hi, i) {
      assert LaidAt(m, ss, ptrs, lo, hi, i);
      StringElsewhere(m, m', a, b, ptrs[i], ss[i]);
    }
  }

  // ---- Writing vectors ----

  /** The words of the vectors, argc first. */
  function Words(args: seq<seq<Byte>>, av: seq<int>, ev: seq<int>): seq<int> {
    [|args|] + av + [0] + ev + [0]
  }

  /** Words i to the end are in place from base on. */
  ghost predicate Placed(m: Mem, base: int, ws: seq<int>, i: nat) {
    forall j: nat :: i <= j < |ws| ==> PlacedAt(m, base, ws, j)
  }

  predicate PlacedAt(m: Mem, base: int, ws: seq<int>, j: nat)
    requires j < |ws|
  {
    WordAt(m, base + 8 * j) == ws[j]
  }

  lemma PlaceWord(m: Mem, base: int, ws: seq<int>, i: nat)
    requires i < |ws| && Placed(m, base, ws, i + 1) && 0 <= ws[i] < WORDS
    ensures Placed(Store(m, base + 8 * i, WordBytes(ws[i])), base, ws, i)
  {
    var m' := Store(m, base + 8 * i, WordBytes(ws[i]));
    LoadStored(m, base + 8 * i, WordBytes(ws[i]));
    WordRoundTrip(ws[i]);
    forall j: nat | i <= j < |ws| ensures PlacedAt(m', base, ws, j) {
      if j > i {
        assert PlacedAt(m, base, ws, j);
        LoadElsewhere(m, base + 8 * i, WordBytes(ws[i]), base + 8 * j, 8);
      }
    }
  }

  lemma PlacedFinds(m: Mem, base: int, args: seq<seq<Byte>>, envs: seq<seq<Byte>>, av: seq<int>, ev: seq<int>)
    requires |av| == |args| && |ev| == |envs|
    requires Placed(m, base, Words(args, av, ev), 0)
    requires forall i: nat :: i < |av| ==> av[i] != 0 && IsString(m, av[i], args[i])
    requires forall i: nat :: i < |ev| ==> ev[i] != 0 && IsString(m, ev[i], envs[i])
    ensures Finds(m, base, args, envs, av, ev)
  {
    hide WordAt, IsString;
    var ws, n := Words(args, av, ev), |args|;
    var argv, envp := base + 8, base + 16 + 8 * n;
    assert PlacedAt(m, base, ws, 0) && base + 8 * 0 == base;
    assert PlacedAt(m, base, ws, 1 + n) && base + 8 * (1 + n) == argv + 8 * n;
    assert PlacedAt(m, base, ws, 2 + n + |ev|) && base + 8 * (2 + n + |ev|) == envp + 8 * |ev|;
    forall i: nat | i < n ensures VectorAt(m, argv, av, i) {
      assert ws[1 + i] == av[i];
      assert PlacedAt(m, base, ws, 1 + i) && base + 8 * (1 + i) == argv + 8 * i;
    }
    forall i: nat | i < |ev| ensures VectorAt(m, envp, ev, i) {
      assert ws[2 + n + i] == ev[i];
      assert PlacedAt(m, base, ws, 2 + n + i) && base + 8 * (2 + n + i) == envp + 8 * i;
    }
    assert WordAt(m, base) == n;
    assert IsVector(m, argv, av);
    assert IsVector(m, envp, ev);
  }
}
