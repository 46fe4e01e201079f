/**
 * The loader's page tables: an identity map of low memory in 2 MiB pages plus
 * the kernel's higher-half alias, and what a page walk of them finds.
 */
module BootTables {

  const KERNEL_BASE := 0xFFFF_FFFF_8000_0000
  const TOP := 0x1_0000_0000_0000_0000

  // Entry flags. Table and page addresses are aligned, so or-ing flags in adds them.
  const TABLE := 3     // present, writable
  const HUGE := 131    // present, writable, page size

  // ---- What the tables hold ----

  /** The 2 MiB pages of the kernel alias, numbered by physical address. */
  function FirstPage(kern: nat): nat {
    kern / 0x20_0000
  }

  function KernPages(kern: nat, size: nat): nat {
    (kern % 0x20_0000 + size + 0x1F_FFFF) / 0x20_0000
  }

  predicate Aliased(kern: nat, size: nat, j: nat) {
    j < 512 && FirstPage(kern) <= j < FirstPage(kern) + KernPages(kern, size)
  }

  /** The aliased pages are the pages of the image that start below 1 GiB. */
  lemma AliasedIsImage(kern: nat, size: nat, j: nat)
    requires size > 0
    ensures Aliased(kern, size, j) <==>
      j < 512 && exists p: nat {:trigger Within(p, kern, size)} :: Within(p, kern, size) && p / 0x20_0000 == j
  {
    if Aliased(kern, size, j) {
      var p := if j == FirstPage(kern) then kern else 0x20_0000 * j;
      assert Within(p, kern, size);
    }
  }

  predicate Within(p: nat, kern: nat, size: nat) {
    kern <= p < kern + size
  }

  /** Entry j of page k of the run of tables at base, with n identity GiB. */
  function Entry(base: nat, n: nat, kern: nat, size: nat, k: nat, j: nat): nat {
    if k == 0 then
      if j == 0 then base + 4096 + TABLE else if j == 511 then base + 4096 * (2 + n) + TABLE else 0
    else if k == 1 then
      if j < n then base + 4096 * (2 + j) + TABLE else 0
    else if k < 2 + n then 0x4000_0000 * (k - 2) + 0x20_0000 * j + HUGE
    else if k == 2 + n then
      if j == 510 then base + 4096 * (3 + n) + TABLE else 0
    else if k == 3 + n then
      if Aliased(kern, size, j) then 0x20_0000 * j + HUGE else 0
    else 0
  }

  // ---- The page walk ----

  datatype Translation = Unmapped | Mapped(pa: nat) | Stray

  predicate Present(e: nat) {
    e % 2 == 1
  }

  predicate IsHuge(e: nat) {
    e / 128 % 2 == 1
  }

  /** The table an entry points to. */
  function TableOf(e: nat): nat {
    e - e % 4096
  }

  /** The 2 MiB page an entry maps. */
  function HugeOf(e: nat): nat {
    e - e % 0x20_0000
  }

  /** The word at a physical address, if it lies in the run of tables. */
  datatype Word = Outside | Value(e: nat)

  function Read(tab: seq<nat>, base: nat, a: nat): Word {
    if base <= a && (a - base) / 8 < |tab| then Value(tab[(a - base) / 8]) else Outside
  }

  /** The table indices and the offset within 1 GiB of a virtual address. */
  function I4(va: nat): (i: nat)
    ensures i < 512
  {
    va / 0x80_0000_0000 % 512
  }

  function I3(va: nat): (i: nat)
    ensures i < 512
  {
    va / 0x4000_0000 % 512
  }

  function I2(va: nat): (i: nat)
    ensures i < 512
  {
    va / 0x20_0000 % 512
  }

  /** The offset within a 2 MiB page. */
  function Low(va: nat): nat {
    va % 0x20_0000
  }

  function Offset(va: nat): nat {
    va % 0x4000_0000
  }

  /** The walk from the top-level table down to a 2 MiB page. */
  function Walk(tab: seq<nat>, base: nat, va: nat): Translation {
    match Read(tab, base, base + 8 * I4(va))
    case Outside => Stray
    case Value(e4) =>
      if !Present(e4) then Unmapped else WalkPdpt(tab, base, TableOf(e4), va)
  }

  function WalkPdpt(tab: seq<nat>, base: nat, pdpt: nat, va: nat): Translation {
    match Read(tab, base, pdpt + 8 * I3(va))
    case Outside => Stray
    case Value(e3) =>
      if !Present(e3) then Unmapped
      else if IsHuge(e3) then Mapped(e3 - e3 % 0x4000_0000 + Offset(va))
      else WalkPd(tab, base, TableOf(e3), va)
  }

  function WalkPd(tab: seq<nat>, base: nat, pd: nat, va: nat): Translation {
    match Read(tab, base, pd + 8 * I2(va))
    case Outside => Stray
    case Value(e2) =>
      if !Present(e2) then Unmapped
      else if IsHuge(e2) then Mapped(HugeOf(e2) + Low(va))
      else Stray
  }

  // ---- The walk of the built tables ----

  ghost predicate Built(tab: seq<nat>, base: nat, n: nat, kern: nat, size: nat) {
    && |tab| == 512 * (n + 4)
    && forall x: nat :: x < |tab| ==> tab[x] == Entry(base, n, kern, size, x / 512, x % 512)
  }

  lemma ReadBuilt(tab: seq<nat>, base: nat, n: nat, kern: nat, size: nat, k: nat, j: nat)
    requires Built(tab, base, n, kern, size) && k < n + 4 && j < 512
    ensures Read(tab, base, base + 4096 * k + 8 * j) == Value(Entry(base, n, kern, size, k, j))
  {
    var x := 512 * k + j;
    assert x / 512 == k && x % 512 == j;
    assert (base + 4096 * k + 8 * j - base) / 8 == x;
  }

  /** Where a virtual address goes. */
  function Target(n: nat, kern: nat, size: nat, va: nat): Translation {
    if va < 0x4000_0000 * n then Mapped(va)
    else if KERNEL_BASE <= va < KERNEL_BASE + 0x4000_0000 && Aliased(kern, size, (va - KERNEL_BASE) / 0x20_0000)
    then Mapped(va - KERNEL_BASE)
    else Unmapped
  }

  lemma HugeEntry(a: nat)
    requires a % 0x20_0000 == 0
    ensures var e := a + HUGE; Present(e) && IsHuge(e) && HugeOf(e) == a
  {
    var q := a / 0x20_0000;
    assert a == 0x20_0000 * q;
    HugeFlags(q);
    HugeBase(q);
    hide Present, IsHuge;
  }

  lemma Div128(e: nat, k: nat, r: nat)
    requires e == 128 * k + r && r < 128
    ensures e / 128 == k
  {
  }

  lemma Odd(e: nat, k: nat)
    ensures e == 2 * k + 1 ==> e % 2 == 1
    ensures e == 2 * k ==> e % 2 == 0
  {
  }

  lemma HugeFlags(q: nat)
    ensures Present(0x20_0000 * q + HUGE) && IsHuge(0x20_0000 * q + HUGE)
  {
    var e := 0x20_0000 * q + HUGE;
    Odd(e, 0x10_0000 * q + 65);
    Div128(e, 0x4000 * q + 1, 3);
    Odd(e / 128, 0x2000 * q);
  }

  lemma HugeBase(q: nat)
    ensures (0x20_0000 * q + HUGE) % 0x20_0000 == HUGE
  {
  }

  lemma TableEntry(a: nat)
    requires a % 4096 == 0
    ensures var e := a + TABLE; Present(e) && !IsHuge(e) && TableOf(e) == a
  {
    var q := a / 4096;
    Odd(a + TABLE, 2048 * q + 1);
    Div128(a + TABLE, 32 * q, 3);
    Odd((a + TABLE) / 128, 16 * q);
  }

  lemma OffsetSplit(va: nat)
    ensures Offset(va) == 0x20_0000 * I2(va) + Low(va)
  {
  }

  /** A directory entry that maps a 2 MiB page. */
  lemma HugeWalk(tab: seq<nat>, base: nat, pd: nat, va: nat, a: nat)
    requires a % 0x20_0000 == 0 && Read(tab, base, pd + 8 * I2(va)) == Value(a + HUGE)
    ensures WalkPd(tab, base, pd, va) == Mapped(a + Low(va))
  {
    HugeEntry(a);
    hide Read, Present, IsHuge, HugeOf, I2, Low;
  }

  lemma GiB(i3: nat, i2: nat)
    ensures 0x4000_0000 * i3 + 0x20_0000 * i2 == 0x20_0000 * (512 * i3 + i2)
    ensures (0x4000_0000 * i3 + 0x20_0000 * i2) % 0x20_0000 == 0
  {
    Multiple(512 * i3 + i2);
  }

  lemma Multiple(q: nat)
    ensures 0x20_0000 * q % 0x20_0000 == 0
  {
  }

  lemma PdIdentity(tab: seq<nat>, base: nat, n: nat, kern: nat, size: nat, i3: nat, va: nat)
    requires Built(tab, base, n, kern, size) && i3 < n
    ensures WalkPd(tab, base, base + 4096 * (2 + i3), va) == Mapped(0x4000_0000 * i3 + Offset(va))
  {
    OffsetSplit(va);
    GiB(i3, I2(va));
    hide I2, Offset, Low;
    ReadBuilt(tab, base, n, kern, size, 2 + i3, I2(va));
    hide Built, Read, WalkPd;
    HugeWalk(tab, base, base + 4096 * (2 + i3), va, 0x4000_0000 * i3 + 0x20_0000 * I2(va));
  }

  lemma PdAlias(tab: seq<nat>, base: nat, n: nat, kern: nat, size: nat, va: nat)
    requires Built(tab, base, n, kern, size)
    ensures WalkPd(tab, base, base + 4096 * (3 + n), va) ==
      if Aliased(kern, size, I2(va)) then Mapped(Offset(va)) else Unmapped
  {
    OffsetSplit(va);
    Multiple(I2(va));
    hide I2, Offset, Low;
    ReadBuilt(tab, base, n, kern, size, 3 + n, I2(va));
    assert !Present(0);
    hide Built, Read, Present, IsHuge, HugeOf, Aliased;
    if Aliased(kern, size, I2(va)) {
      HugeWalk(tab, base, base + 4096 * (3 + n), va, 0x20_0000 * I2(va));
    }
  }

  lemma PdptLow(tab: seq<nat>, base: nat, n: nat, kern: nat, size: nat, va: nat)
    requires Built(tab, base, n, kern, size) && n <= 512 && base % 4096 == 0
    ensures var i3 := I3(va);
      WalkPdpt(tab, base, base + 4096, va) ==
      if i3 < n then Mapped(0x4000_0000 * i3 + Offset(va)) else Unmapped
  {
    hide I3, Offset;
    var i3 := I3(va);
    ReadBuilt(tab, base, n, kern, size, 1, i3);
    if i3 < n {
      TableEntry(base + 4096 * (2 + i3));
      PdIdentity(tab, base, n, kern, size, i3, va);
    }
    hide Built, Read, IsHuge, WalkPd;
  }

  lemma PdptHigh(tab: seq<nat>, base: nat, n: nat, kern: nat, size: nat, va: nat)
    requires Built(tab, base, n, kern, size) && base % 4096 == 0
    ensures WalkPdpt(tab, base, base + 4096 * (2 + n), va) ==
      if I3(va) == 510 && Aliased(kern, size, I2(va)) then Mapped(Offset(va))
      else Unmapped
  {
    var i3 := I3(va);
    ReadBuilt(tab, base, n, kern, size, 2 + n, i3);
    TableEntry(base + 4096 * (3 + n));
    PdAlias(tab, base, n, kern, size, va);
    hide Built, Read, IsHuge, WalkPd, Aliased;
  }

  /** Addresses whose bits 48 to 63 repeat bit 47. */
  predicate Canonical(va: nat) {
    va < 0x8000_0000_0000 || 0xFFFF_8000_0000_0000 <= va < TOP
  }

  lemma LowIndices(va: nat, n: nat)
    requires Canonical(va) && n <= 512
    ensures va < 0x4000_0000 * n <==> I4(va) == 0 && I3(va) < n
    ensures I4(va) == 0 ==> 0x4000_0000 * I3(va) + Offset(va) == va
  {
    var g := va / 0x4000_0000;
    assert va == 0x4000_0000 * g + Offset(va);
    assert va / 0x80_0000_0000 == g / 512;
    assert I4(va) == 0 <==> g < 512;
  }

  lemma HighIndices(va: nat)
    requires Canonical(va)
    ensures KERNEL_BASE <= va < KERNEL_BASE + 0x4000_0000 <==> I4(va) == 511 && I3(va) == 510
    ensures KERNEL_BASE <= va < KERNEL_BASE + 0x4000_0000 ==>
      Offset(va) == va - KERNEL_BASE && I2(va) == (va - KERNEL_BASE) / 0x20_0000
  {
  }

  lemma WalkTop(tab: seq<nat>, base: nat, n: nat, kern: nat, size: nat, va: nat)
    requires Built(tab, base, n, kern, size) && base % 4096 == 0
    ensures Walk(tab, base, va) ==
      if I4(va) == 0 then WalkPdpt(tab, base, base + 4096, va)
      else if I4(va) == 511 then WalkPdpt(tab, base, base + 4096 * (2 + n), va)
      else Unmapped
  {
    hide I4, WalkPdpt;
    ReadBuilt(tab, base, n, kern, size, 0, I4(va));
    TableEntry(base + 4096);
    TableEntry(base + 4096 * (2 + n));
    assert !Present(0);
    hide Built, Read, Present, IsHuge, TableOf;
  }

  /**
   * Every canonical address: below n GiB the walk is the identity, the image's
   * pages are found at their physical address plus the kernel base, and nothing
   * else is mapped.
   */
  lemma WalkIsTarget(tab: seq<nat>, base: nat, n: nat, kern: nat, size: nat, va: nat)
    requires Built(tab, base, n, kern, size) && n <= 512 && base % 4096 == 0 && Canonical(va)
    ensures Walk(tab, base, va) == Target(n, kern, size, va)
  {
    WalkTop(tab, base, n, kern, size, va);
    LowIndices(va, n);
    HighIndices(va);
    PdptLow(tab, base, n, kern, size, va);
    PdptHigh(tab, base, n, kern, size, va);
    hide Built, Walk, WalkPdpt, Aliased, I4, I3, I2, Offset, Canonical;
  }
}
