/** setup_user_stack: copying the strings and filling the vectors. */
module UserStackSetup {
  import opened Memory
  import opened Sequences
  import opened UserStack

  function Clamp(n: int): nat {
    if n < 0 then 0 else if n > MAX_ARGS then MAX_ARGS else n
  }

  type CString = Option<seq<Byte>>

  /** The first n strings; a null pointer counts as the empty string. */
  function Texts(v: seq<CString>, n: nat): (ss: seq<seq<Byte>>)
    requires n <= |v|
    ensures |ss| == n
  {
    seq(n, i requires 0 <= i < n => if v[i].Some? then v[i].value else [])
  }

  predicate NulFree(v: seq<CString>) {
    forall i :: 0 <= i < |v| && v[i].Some? ==> 0 !in v[i].value
  }

  lemma SizeStep(ss: seq<seq<Byte>>, i: nat)
    requires i < |ss|
    ensures Size(ss[..i + 1]) == Size(ss[..i]) + |ss[i]| + 1
  {
    assert ss[..i + 1][..i] == ss[..i];
  }

  /** Copy strings downwards from sp. */
  method CopyStrings(m: Mem, sp: int, v: seq<CString>, n: nat) returns (m': Mem, sp': int, ptrs: seq<int>)
    requires n <= |v| && NulFree(v)
    ensures sp' == sp - Size(Texts(v, n))
    ensures Laid(m', Texts(v, n), ptrs, sp', sp)
    ensures SameOutside(m, m', sp', sp)
  {
    ghost var ss := Texts(v, n);
    m', sp', ptrs := m, sp, [];
    var i := 0;
    while i < n
      invariant 0 <= i <= n && |ptrs| == i
      invariant sp' == sp - Size(ss[..i]) && sp' <= sp
      invariant Laid(m', ss[..i], ptrs, sp', sp)
      invariant SameOutside(m, m', sp', sp)
    {
      var s := if v[i].Some? then v[i].value else [];
      SizeStep(ss, i);
      LaidMore(m', ss[..i], ptrs, sp', sp, s);
      assert ss[..i + 1] == ss[..i] + [s];
      sp' := sp' - (|s| + 1);
      m' := Store(m', sp', s + [0]);
      ptrs := ptrs + [sp'];
      i := i + 1;
    }
    assert ss[..n] == ss;
  }

  method PutWord(m: Mem, base: int, ghost ws: seq<int>, i: nat, value: int) returns (m': Mem)
    requires i < |ws| && ws[i] == value && 0 <= value < WORDS && Placed(m, base, ws, i + 1)
    ensures Placed(m', base, ws, i)
    ensures SameOutside(m, m', base, base + 8 * |ws|)
  {
    PlaceWord(m, base, ws, i);
    m' := Store(m, base + 8 * i, WordBytes(value));
  }

  ghost predicate Pointers(v: seq<int>) {
    forall i :: 0 <= i < |v| ==> 0 <= v[i] < WORDS
  }

  /** From the end down: terminator, envp, terminator, argv, argc. */
  method WriteVectors(m: Mem, base: int, ghost args: seq<seq<Byte>>, av: seq<int>, ev: seq<int>) returns (m': Mem)
    requires |av| == |args| <= MAX_ARGS && |ev| <= MAX_ARGS && Pointers(av) && Pointers(ev)
    ensures Placed(m', base, Words(args, av, ev), 0)
    ensures SameOutside(m, m', base, base + 8 * (|av| + |ev| + 3))
  {
    hide Placed;
    ghost var ws := Words(args, av, ev);
    var argc, envc := |av|, |ev|;
    NoneLeft(m, base, ws);
    m' := PutWord(m, base, ws, argc + envc + 2, 0);
    var i := envc;
    while i > 0
      invariant 0 <= i <= envc
      invariant Placed(m', base, ws, argc + 2 + i)
      invariant SameOutside(m, m', base, base + 8 * |ws|)
    {
      i := i - 1;
      assert ws[argc + 2 + i] == ev[i];
      m' := PutWord(m', base, ws, argc + 2 + i, ev[i]);
    }
    m' := PutWord(m', base, ws, argc + 1, 0);
    i := argc;
    while i > 0
      invariant 0 <= i <= argc
      invariant Placed(m', base, ws, 1 + i)
      invariant SameOutside(m, m', base, base + 8 * |ws|)
    {
      i := i - 1;
      assert ws[1 + i] == av[i];
      m' := PutWord(m', base, ws, 1 + i, av[i]);
    }
    m' := PutWord(m', base, ws, 0, argc);
  }

  lemma NoneLeft(m: Mem, base: int, ws: seq<int>)
    ensures Placed(m, base, ws, |ws|)
  {
  }

  /**
   * The whole set-up. It succeeds exactly when strings and vectors fit above the
   * stack's base. The entry pointer is then 16-byte aligned, the entry code finds
   * the same arguments and environment, and nothing outside the used part of the
   * stack is written.
   */
  method SetupUserStack(m: Mem, stackBase: nat, stackPages: nat, argc: int, argv: seq<CString>, envc: int, envp: seq<CString>)
    returns (entry: Option<int>, m': Mem, ghost av: seq<int>, ghost ev: seq<int>)
    requires stackBase + 4096 * stackPages < WORDS
    requires Clamp(argc) <= |argv| && Clamp(envc) <= |envp| && NulFree(argv) && NulFree(envp)
    ensures var rsp := EntryPointer(stackBase + 4096 * stackPages, Texts(argv, Clamp(argc)), Texts(envp, Clamp(envc)));
      entry == if rsp < stackBase then None else Some(rsp)
    ensures entry.Some? ==> entry.value % 16 == 0 && SameOutside(m, m', entry.value, stackBase + 4096 * stackPages)
    ensures entry.Some? ==>
      var args, envs := Texts(argv, Clamp(argc)), Texts(envp, Clamp(envc));
      var lo, top := entry.value + 8 * (|args| + |envs| + 3), stackBase + 4096 * stackPages;
      && Finds(m', entry.value, args, envs, av, ev)
      && Laid(m', args, av, lo, top) && Laid(m', envs, ev, lo, top)
  {
    hide Laid, Finds, Placed, SameOutside, Size, Pointers, Texts, NulFree;
    var top := stackBase + 4096 * stackPages;
    var sp := top - top % 16;
    var ac, ec := Clamp(argc), Clamp(envc);
    ghost var args, envs := Texts(argv, ac), Texts(envp, ec);
    var m1, sp1, avs := CopyStrings(m, sp, argv, ac);
    var m2, sp2, evs := CopyStrings(m1, sp1, envp, ec);
    av, ev := avs, evs;
    var strLo := sp2 - sp2 % 16;
    var base := strLo - 8 * (ac + ec + 3);
    base := base - base % 16;
    m' := m2;
    if base < stackBase {
      return None, m', av, ev;
    }
    ghost var lo := base + 8 * (ac + ec + 3);
    TwoLists(m, m1, m2, args, avs, envs, evs, sp, sp1, sp2, lo, top);
    LaidPointers(m2, args, avs, lo, top);
    LaidPointers(m2, envs, evs, lo, top);
    m' := WriteVectors(m2, base, args, avs, evs);
    LaidElsewhere(m2, m', base, lo, args, avs, lo, top);
    LaidElsewhere(m2, m', base, lo, envs, evs, lo, top);
    LaidStrings(m', args, avs, lo, top);
    LaidStrings(m', envs, evs, lo, top);
    PlacedFinds(m', base, args, envs, avs, evs);
    SameTrans(m, m2, m', lo, top, base, lo);
    return Some(base), m', av, ev;
  }

  /** Both lists of strings lie between the vectors and the top of the stack. */
  lemma TwoLists(m: Mem, m1: Mem, m2: Mem, args: seq<seq<Byte>>, av: seq<int>, envs: seq<seq<Byte>>, ev: seq<int>,
                 sp: int, sp1: int, sp2: int, lo: int, top: int)
    requires Laid(m1, args, av, sp1, sp) && Laid(m2, envs, ev, sp2, sp1)
    requires SameOutside(m, m1, sp1, sp) && SameOutside(m1, m2, sp2, sp1)
    requires lo <= sp2 <= sp1 <= sp <= top
    ensures Laid(m2, args, av, lo, top) && Laid(m2, envs, ev, lo, top) && SameOutside(m, m2, lo, top)
  {
    LaidElsewhere(m1, m2, sp2, sp1, args, av, sp1, sp);
    Between(m2, args, av, sp1, sp, lo, top);
    Between(m2, envs, ev, sp2, sp1, lo, top);
  }

  lemma SameTrans(m: Mem, m1: Mem, m2: Mem, mid: int, hi: int, lo: int, mid': int)
    requires SameOutside(m, m1, mid, hi) && SameOutside(m1, m2, lo, mid') && lo <= mid && mid' <= hi
    ensures SameOutside(m, m2, lo, hi)
  {
  }

  /** Strings laid in a range are laid in any larger one. */
  lemma Between(m: Mem, ss: seq<seq<Byte>>, ptrs: seq<int>, lo: int, hi: int, lo': int, hi': int)
    requires Laid(m, ss, ptrs, lo, hi) && lo' <= lo && hi <= hi'
    ensures Laid(m, ss, ptrs, lo', hi')
  {
    forall i: nat | i < |ss| ensures LaidAt(m, ss, ptrs, lo', hi', i) {
      assert LaidAt(m, ss, ptrs, lo, hi, i);
    }
  }

  lemma LaidPointers(m: Mem, ss: seq<seq<Byte>>, ptrs: seq<int>, lo: int, hi: int)
    requires Laid(m, ss, ptrs, lo, hi) && 0 <= lo && hi < WORDS
    ensures |ptrs| == |ss| && Pointers(ptrs)
  {
    forall i | 0 <= i < |ptrs| ensures 0 <= ptrs[i] < WORDS {
      assert LaidAt(m, ss, ptrs, lo, hi, i);
      LaidBelow(m, ss, ptrs, lo, hi, i);
    }
  }

  lemma LaidStrings(m: Mem, ss: seq<seq<Byte>>, ptrs: seq<int>, lo: int, hi: int)
    requires Laid(m, ss, ptrs, lo, hi) && 0 < lo
    ensures |ptrs| == |ss|
    ensures forall i: nat :: i < |ptrs| ==> ptrs[i] != 0 && IsString(m, ptrs[i], ss[i])
  {
    forall i: nat | i < |ptrs| ensures ptrs[i] != 0 && IsString(m, ptrs[i], ss[i]) {
      assert LaidAt(m, ss, ptrs, lo, hi, i);
    }
  }
}
