/** Filling the loader's page tables, and sizing them. */
module BootBuild {
  import opened BootTables

  method ZeroTables(tab: array<nat>, n: nat)
    requires tab.Length == 512 * (n + 4)
    modifies tab
    ensures forall x :: 0 <= x < tab.Length ==> tab[x] == 0
  {
    var i := 0;
    while i < 512
      invariant 0 <= i <= 512
      invariant forall x: nat :: x < tab.Length && x % 512 < i && (x / 512 < 2 || 2 + n <= x / 512) ==> tab[x] == 0
    {
      tab[i] := 0;
      tab[512 + i] := 0;
      tab[512 * (2 + n) + i] := 0;
      tab[512 * (3 + n) + i] := 0;
      i := i + 1;
    }
    var p := 0;
    while p < n
      invariant 0 <= p <= n
      invariant forall x: nat :: x < tab.Length && (x / 512 < 2 + p || 2 + n <= x / 512) ==> tab[x] == 0
    {
      i := 0;
      while i < 512
        invariant 0 <= i <= 512
        invariant forall x: nat :: x < tab.Length && (x / 512 < 2 + p || 2 + n <= x / 512) ==> tab[x] == 0
        invariant forall x: nat :: x < tab.Length && x / 512 == 2 + p && x % 512 < i ==> tab[x] == 0
      {
        tab[512 * (2 + p) + i] := 0;
        i := i + 1;
      }
      p := p + 1;
    }
  }

  /** Pages 1 to n + 1 as they should be, everything else still empty. */
  ghost predicate IdentityTo(tab: seq<nat>, base: nat, n: nat, p: nat) {
    forall x: nat :: x < |tab| ==>
      tab[x] == if (x / 512 == 1 && x % 512 < p) || 2 <= x / 512 < 2 + p then Entry(base, n, 0, 0, x / 512, x % 512) else 0
  }

  method FillIdentity(tab: array<nat>, base: nat, n: nat)
    requires tab.Length == 512 * (n + 4)
    requires forall x :: 0 <= x < tab.Length ==> tab[x] == 0
    modifies tab
    ensures n <= 512 ==> IdentityTo(tab[..], base, n, n)
    ensures n > 512 ==> tab[1024] != HUGE
    ensures forall x: nat :: x < tab.Length && 2 + n <= x / 512 ==> tab[x] == 0
  {
    var p := 0;
    while p < n
      invariant 0 <= p <= n
      invariant n <= 512 ==> IdentityTo(tab[..], base, n, p)
      invariant forall x: nat :: x < tab.Length && 2 + n <= x / 512 ==> tab[x] == 0
      invariant p > 512 ==> tab[1024] == base + 4096 * 514 + TABLE
    {
      FillDirectory(tab, base, n, p);
      tab[512 + p] := base + 4096 * (2 + p) + TABLE;
      p := p + 1;
    }
  }

  method FillDirectory(tab: array<nat>, base: nat, n: nat, p: nat)
    requires tab.Length == 512 * (n + 4) && p < n
    modifies tab
    ensures forall x: nat :: x < tab.Length && x / 512 != 2 + p ==> tab[x] == old(tab[x])
    ensures forall x: nat :: x < tab.Length && x / 512 == 2 + p ==>
              tab[x] == 0x4000_0000 * p + 0x20_0000 * (x % 512) + HUGE
  {
    var i := 0;
    while i < 512
      invariant 0 <= i <= 512
      invariant forall x: nat :: x < tab.Length && x / 512 != 2 + p ==> tab[x] == old(tab[x])
      invariant forall x: nat :: x < tab.Length && x / 512 == 2 + p && x % 512 < i ==>
                  tab[x] == 0x4000_0000 * p + 0x20_0000 * (x % 512) + HUGE
    {
      tab[512 * (2 + p) + i] := 0x4000_0000 * p + 0x20_0000 * i + HUGE;
      i := i + 1;
    }
  }

  /** The kernel alias, stopping at 1 GiB. */
  method FillAlias(tab: array<nat>, n: nat, kern: nat, size: nat)
    requires tab.Length == 512 * (n + 4)
    requires forall x: nat :: x < tab.Length && x / 512 == 3 + n ==> tab[x] == 0
    modifies tab
    ensures forall x: nat :: x < tab.Length && x / 512 != 3 + n ==> tab[x] == old(tab[x])
    ensures forall x: nat :: x < tab.Length && x / 512 == 3 + n ==>
              tab[x] == if Aliased(kern, size, x % 512) then 0x20_0000 * (x % 512) + HUGE else 0
  {
    var aligned := kern - kern % 0x20_0000;
    var pages := (kern - aligned + size + 0x1F_FFFF) / 0x20_0000;
    ghost var first := FirstPage(kern);
    var i := 0;
    while i < pages
      invariant 0 <= i <= pages == KernPages(kern, size) && aligned == 0x20_0000 * first
      invariant i == 0 || first + i <= 512
      invariant forall x: nat :: x < tab.Length && x / 512 != 3 + n ==> tab[x] == old(tab[x])
      invariant forall x: nat :: x < tab.Length && x / 512 == 3 + n ==>
                  tab[x] == if first <= x % 512 < first + i then 0x20_0000 * (x % 512) + HUGE else 0
    {
      var p := aligned + i * 0x20_0000;
      var idx := p / 0x20_0000 % 512;
      if p >= 0x4000_0000 {
        break;
      }
      assert idx == first + i;
      tab[512 * (3 + n) + idx] := p + HUGE;
      i := i + 1;
    }
  }

  /** boot_tables_build over a run of pages of 512 entries each. With more than 512
      identity GiB the directory pointers run over into the first directory. */
  method BuildTables(tab: array<nat>, base: nat, pages: nat, kern: nat, size: nat) returns (ok: bool)
    requires tab.Length == 512 * pages
    modifies tab
    ensures ok <==> pages >= 5
    ensures ok ==> (Built(tab[..], base, pages - 4, kern, size) <==> pages <= 516)
    ensures !ok ==> tab[..] == old(tab[..])
  {
    if pages < 5 {
      return false;
    }
    var n := pages - 4;
    ZeroTables(tab, n);
    FillIdentity(tab, base, n);
    assert forall x: nat :: x < tab.Length ==> tab[x] == tab[..][x];
    tab[0] := base + 4096 + TABLE;
    FillAlias(tab, n, kern, size);
    tab[512 * (2 + n) + 510] := base + 4096 * (3 + n) + TABLE;
    tab[511] := base + 4096 * (2 + n) + TABLE;
    assert tab[..][1024] == tab[1024] && Entry(base, n, kern, size, 1024 / 512, 1024 % 512) == HUGE;
    return true;
  }

  // ---- How many tables to allocate ----

  /** The identity limit rounded up to whole GiB: at least 4 GiB, and the end of
      the framebuffer when there is one. */
  function TablePages(framebuffer: bool, fbEnd: nat): (pages: nat) {
    var hi := if framebuffer && fbEnd > 0x1_0000_0000 then (fbEnd + 0x3FFF_FFFF) / 0x4000_0000 * 0x4000_0000
              else 0x1_0000_0000;
    var pages := 3 + hi / 0x4000_0000 + 1;
    if pages < 12 then 12 else if pages > 64 then 64 else pages
  }

  /** The identity map reaches the end of the framebuffer exactly when that is
      at most 60 GiB; the tables always fit boot_tables_build. */
  lemma FramebufferCovered(fbEnd: nat)
    ensures var pages := TablePages(true, fbEnd);
      && 5 <= pages <= 516
      && (fbEnd <= 0x4000_0000 * (pages - 4) <==> fbEnd <= 0x4000_0000 * 60)
  {
  }
}
