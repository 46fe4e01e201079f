/**
 * The kernel heap: slabs of one page with a free list threaded through the free
 * slots, and whole-page allocations behind a header, all at kernel virtual
 * addresses that are handed out once.
 */
module Slab {
  import opened Links
  import opened Sequences

  const PAGE := 4096
  const VBASE := 0xFFFF_FE00_0000_0000
  const SIZES: seq<nat> := [32, 64, 128, 256, 512, 1024]
  const SLAB_HEADER := 32
  const BIG_HEADER := 24
  const SIZE_MAX := 0xFFFF_FFFF_FFFF_FFFF
  // Sizes from here on overflow the page computation.
  const WRAPS := 0xFFFF_FFFF_FFFF_FFE9

  datatype Header =
    | Small(freeList: int, objSize: nat, freeCount: int)
    | Big(npages: nat, phys: int)

  /** Page headers, the first word of every slot, the head slab of each size
      class, and the next virtual address to map. */
  datatype Heap = Heap(hdr: map<int, Header>, link: map<int, int>, caches: seq<int>, cursor: int)

  /** What the heap stands for: each slab's free list, and the live blocks with
      the size asked for. */
  datatype Book = Book(lists: map<int, seq<int>>, live: map<int, nat>)

  function Span(h: Header): nat {
    if h.Small? then 4096 else 4096 * h.npages
  }

  function PageOf(x: int): int {
    x - x % 4096
  }

  predicate SizeClass(o: nat) {
    o == 32 || o == 64 || o == 128 || o == 256 || o == 512 || o == 1024
  }

  /** x is one of the slots of the slab at page p: past the header, inside the page. */
  predicate Slot(p: int, o: nat, x: int)
    requires SizeClass(o)
  {
    o <= x - p && x + o <= p + 4096 && (x - p) % o == 0
  }

  // ---- Slot arithmetic ----

  lemma SlotsApart(p: int, o: nat, x: int, y: int)
    requires SizeClass(o) && Slot(p, o, x) && Slot(p, o, y) && x < y
    ensures x + o <= y
  {
    if o == 32 {} else if o == 64 {} else if o == 128 {} else if o == 256 {} else if o == 512 {} else {}
  }

  /** Masking a slot's address finds its slab. */
  lemma SlotPage(p: int, o: nat, x: int)
    requires SizeClass(o) && Slot(p, o, x) && p % 4096 == 0
    ensures PageOf(x) == p
  {
  }

  // ---- Invariant ----

  ghost predicate PageOk(h: Heap, p: int)
    requires p in h.hdr
  {
    p % 4096 == 0 && VBASE <= p && Span(h.hdr[p]) > 0 && p + Span(h.hdr[p]) <= h.cursor
  }

  ghost predicate PagesOk(h: Heap) {
    && h.cursor % 4096 == 0 && VBASE <= h.cursor
    && (forall p :: p in h.hdr ==> PageOk(h, p))
    && (forall p, q :: p in h.hdr && q in h.hdr && p < q ==> p + Span(h.hdr[p]) <= q)
  }

  /** A slab: its free list has as many slots as its count says, and every slot
      is either free or live. */
  ghost predicate SlabOk(h: Heap, b: Book, p: int)
    requires p in h.hdr
  {
    h.hdr[p].Small? ==>
      && SizeClass(h.hdr[p].objSize)
      && p in b.lists
      && Chain(h.link, h.hdr[p].freeList, b.lists[p])
      && h.hdr[p].freeCount == |b.lists[p]|
      && NoDup(b.lists[p])
      && (forall x :: x in b.lists[p] ==> Slot(p, h.hdr[p].objSize, x) && x !in b.live)
      && (forall x :: Slot(p, h.hdr[p].objSize, x) ==> x in b.lists[p] || x in b.live)
  }

  /** A live block: the header its page mask finds owns it and it is large enough. */
  ghost predicate LiveOk(h: Heap, b: Book, x: int)
    requires x in b.live
  {
    && PageOf(x) in h.hdr
    && match h.hdr[PageOf(x)]
       case Small(_, o, _) => SizeClass(o) && Slot(PageOf(x), o, x) && b.live[x] <= o
       case Big(n, _) => x == PageOf(x) + BIG_HEADER && (b.live[x] < WRAPS ==> BIG_HEADER + b.live[x] <= 4096 * n)
  }

  ghost predicate CacheOk(h: Heap, i: nat)
    requires i < |h.caches|
  {
    h.caches[i] != 0 ==>
      && h.caches[i] in h.hdr && h.hdr[h.caches[i]].Small?
      && i < |SIZES| && h.hdr[h.caches[i]].objSize == SIZES[i]
  }

  ghost predicate Inv(h: Heap, b: Book) {
    && PagesOk(h)
    && (forall p :: p in h.hdr ==> SlabOk(h, b, p))
    && (forall x :: x in b.live ==> LiveOk(h, b, x))
    && |h.caches| == |SIZES|
    && forall i: nat :: i < |h.caches| ==> CacheOk(h, i)
  }

  // ---- Blocks never overlap ----

  /** The bytes a block may use. */
  function Room(h: Heap, x: int): nat
    requires PageOf(x) in h.hdr
  {
    match h.hdr[PageOf(x)]
    case Small(_, o, _) => o
    case Big(n, _) => if BIG_HEADER <= 4096 * n then 4096 * n - BIG_HEADER else 0
  }

  function HeaderSize(h: Header): nat {
    if h.Small? then SLAB_HEADER else BIG_HEADER
  }

  predicate Disjoint(a: int, m: nat, b: int, n: nat) {
    a + m <= b || b + n <= a
  }

  lemma BlockInSpan(h: Heap, b: Book, x: int)
    requires Inv(h, b) && x in b.live
    ensures LiveOk(h, b, x)
    ensures var p := PageOf(x);
      PageOk(h, p) && p + HeaderSize(h.hdr[p]) <= x && x + Room(h, x) <= p + Span(h.hdr[p])
  {
    assert LiveOk(h, b, x);
    assert PageOk(h, PageOf(x));
  }

  /** Live blocks are pairwise disjoint. */
  lemma BlocksDisjoint(h: Heap, b: Book, x: int, y: int)
    requires Inv(h, b) && x in b.live && y in b.live && x != y
    ensures LiveOk(h, b, x) && LiveOk(h, b, y)
    ensures Disjoint(x, Room(h, x), y, Room(h, y))
  {
    BlockInSpan(h, b, x);
    BlockInSpan(h, b, y);
    var p := PageOf(x);
    if p == PageOf(y) && h.hdr[p].Small? {
      if x < y {
        SlotsApart(p, h.hdr[p].objSize, x, y);
      } else {
        SlotsApart(p, h.hdr[p].objSize, y, x);
      }
    }
  }

  /** No live block overlaps a header. */
  lemma HeadersDisjoint(h: Heap, b: Book, x: int, p: int)
    requires Inv(h, b) && x in b.live && p in h.hdr
    ensures LiveOk(h, b, x) && Disjoint(x, Room(h, x), p, HeaderSize(h.hdr[p]))
  {
    BlockInSpan(h, b, x);
    assert PageOk(h, p);
  }

  /** i is the smallest size class that holds n bytes. */
  predicate ClassOf(i: nat, n: nat) {
    i < 6 && n <= SIZES[i] && forall k :: 0 <= k < i ==> SIZES[k] < n
  }

  /** The current slab of class i has a free slot. */
  predicate HasSlot(h: Heap, i: nat) {
    && i < |h.caches| && h.caches[i] != 0 && h.caches[i] in h.hdr
    && h.hdr[h.caches[i]].Small? && h.hdr[h.caches[i]].freeCount != 0
  }

  // ---- Operations on the heap's value ----

  /** Take the first free slot of the slab at p for a request of n bytes. */
  function Pop(h: Heap, p: int): Heap
    requires p in h.hdr && h.hdr[p].Small? && h.hdr[p].freeList in h.link
  {
    var d := h.hdr[p];
    h.(hdr := h.hdr[p := d.(freeList := h.link[d.freeList], freeCount := d.freeCount - 1)])
  }

  function PopBook(h: Heap, b: Book, p: int, n: nat): Book
    requires p in h.hdr && h.hdr[p].Small? && p in b.lists && b.lists[p] != []
  {
    Book(b.lists[p := b.lists[p][1..]], b.live[h.hdr[p].freeList := n])
  }

  lemma SameClasses(h: Heap, h': Heap)
    requires PagesOk(h) && h'.cursor == h.cursor && h'.hdr.Keys == h.hdr.Keys
    requires forall p :: p in h.hdr ==> Span(h'.hdr[p]) == Span(h.hdr[p])
    ensures PagesOk(h')
  {
    forall p | p in h'.hdr ensures PageOk(h', p) {
      assert PageOk(h, p);
    }
  }

  lemma PopInv(h: Heap, b: Book, p: int, n: nat)
    requires Inv(h, b) && p in h.hdr && h.hdr[p].Small? && h.hdr[p].freeCount != 0 && n <= h.hdr[p].objSize
    ensures p in b.lists && b.lists[p] != [] && h.hdr[p].freeList == b.lists[p][0] && h.hdr[p].freeList in h.link
    ensures h.hdr[p].freeList !in b.live && h.hdr[p].freeList != 0
    ensures Inv(Pop(h, p), PopBook(h, b, p, n))
  {
    assert SlabOk(h, b, p) && PageOk(h, p);
    var d, q := h.hdr[p], b.lists[p];
    ChainPop(h.link, d.freeList, q);
    var x := q[0];
    assert x in q;
    SlotPage(p, d.objSize, x);
    var h', b' := Pop(h, p), PopBook(h, b, p, n);
    SameClasses(h, h');
    forall r | r in h'.hdr ensures SlabOk(h', b', r) {
      PopSlab(h, b, p, n, r);
    }
    forall y | y in b'.live ensures LiveOk(h', b', y) {
      assert y != x ==> LiveOk(h, b, y);
    }
    forall i: nat | i < |h'.caches| ensures CacheOk(h', i) {
      assert CacheOk(h, i);
    }
  }

  lemma PopSlab(h: Heap, b: Book, p: int, n: nat, r: int)
    requires Inv(h, b) && p in h.hdr && h.hdr[p].Small? && h.hdr[p].freeCount != 0 && r in h.hdr
    requires p in b.lists && b.lists[p] != [] && h.hdr[p].freeList == b.lists[p][0] && h.hdr[p].freeList in h.link
    ensures SlabOk(Pop(h, p), PopBook(h, b, p, n), r)
  {
    assert SlabOk(h, b, p) && SlabOk(h, b, r) && PageOk(h, p) && PageOk(h, r);
    var d, q := h.hdr[p], b.lists[p];
    ChainPop(h.link, d.freeList, q);
    assert q == [q[0]] + q[1..];
    assert q[0] in q;
    if r != p && h.hdr[r].Small? {
      NotInOther(h, b, p, q[0], r);
    }
  }

  /** A slot of one slab is not in another slab's free list. */
  lemma NotInOther(h: Heap, b: Book, p: int, x: int, r: int)
    requires PagesOk(h) && p in h.hdr && r in h.hdr && p != r && h.hdr[p].Small? && h.hdr[r].Small?
    requires SizeClass(h.hdr[p].objSize) && Slot(p, h.hdr[p].objSize, x) && SlabOk(h, b, r)
    ensures x !in b.lists[r] && !Slot(r, h.hdr[r].objSize, x)
  {
    assert PageOk(h, p) && PageOk(h, r);
    SlotPage(p, h.hdr[p].objSize, x);
    if Slot(r, h.hdr[r].objSize, x) {
      SlotPage(r, h.hdr[r].objSize, x);
    }
  }

  /** Give a live slot back to its slab. */
  function Push(h: Heap, p: int, x: int): Heap
    requires p in h.hdr && h.hdr[p].Small?
  {
    var d := h.hdr[p];
    h.(hdr := h.hdr[p := d.(freeList := x, freeCount := d.freeCount + 1)], link := h.link[x := d.freeList])
  }

  function PushBook(b: Book, p: int, x: int): Book
    requires p in b.lists
  {
    Book(b.lists[p := [x] + b.lists[p]], b.live - {x})
  }

  lemma PushInv(h: Heap, b: Book, x: int)
    requires Inv(h, b) && x in b.live && PageOf(x) in h.hdr && h.hdr[PageOf(x)].Small?
    ensures PageOf(x) in b.lists
    ensures Inv(Push(h, PageOf(x), x), PushBook(b, PageOf(x), x))
  {
    var p := PageOf(x);
    assert LiveOk(h, b, x) && SlabOk(h, b, p);
    var h', b' := Push(h, p, x), PushBook(b, p, x);
    SameClasses(h, h');
    forall r | r in h'.hdr ensures SlabOk(h', b', r) {
      PushSlab(h, b, x, r);
    }
    forall y | y in b'.live ensures LiveOk(h', b', y) {
      assert LiveOk(h, b, y);
    }
    forall i: nat | i < |h'.caches| ensures CacheOk(h', i) {
      assert CacheOk(h, i);
    }
  }

  lemma PushSlab(h: Heap, b: Book, x: int, r: int)
    requires Inv(h, b) && x in b.live && PageOf(x) in h.hdr && h.hdr[PageOf(x)].Small? && r in h.hdr
    requires PageOf(x) in b.lists
    ensures SlabOk(Push(h, PageOf(x), x), PushBook(b, PageOf(x), x), r)
  {
    var p := PageOf(x);
    assert LiveOk(h, b, x) && SlabOk(h, b, p) && SlabOk(h, b, r) && PageOk(h, p);
    var d, q := h.hdr[p], b.lists[p];
    if r == p {
      ChainPush(h.link, d.freeList, q, x);
    } else if h.hdr[r].Small? {
      NotInOther(h, b, p, x, r);
      ChainElsewhere(h.link, h.hdr[r].freeList, b.lists[r], x, d.freeList);
    }
  }

  // ---- New pages ----

  /** A fresh page at the cursor. */
  function AddPage(h: Heap, d: Header): Heap {
    h.(hdr := h.hdr[h.cursor := d], cursor := h.cursor + Span(d))
  }

  lemma AddPageOk(h: Heap, d: Header)
    requires PagesOk(h) && Span(d) > 0
    ensures PagesOk(AddPage(h, d)) && h.cursor !in h.hdr
  {
    var h' := AddPage(h, d);
    forall p | p in h.hdr ensures p < h.cursor && PageOk(h', p) {
      assert PageOk(h, p);
    }
    assert PageOk(h', h.cursor);
  }

  lemma AddBigInv(h: Heap, b: Book, pages: nat, phys: int, n: nat)
    requires Inv(h, b) && pages > 0 && (n < WRAPS ==> BIG_HEADER + n <= 4096 * pages)
    ensures h.cursor + BIG_HEADER !in b.live
    ensures Inv(AddPage(h, Big(pages, phys)), b.(live := b.live[h.cursor + BIG_HEADER := n]))
  {
    var x := h.cursor + BIG_HEADER;
    AddPageOk(h, Big(pages, phys));
    var h', b' := AddPage(h, Big(pages, phys)), b.(live := b.live[x := n]);
    FreshPage(h, b, x);
    forall p | p in h'.hdr ensures SlabOk(h', b', p) {
      if p in h.hdr {
        AddBigSlab(h, b, pages, phys, n, p);
      }
    }
    forall y | y in b'.live ensures LiveOk(h', b', y) {
      AddBigLive(h, b, pages, phys, n, y);
    }
    forall i: nat | i < |h'.caches| ensures CacheOk(h', i) {
      assert CacheOk(h, i);
    }
    hide SlabOk, LiveOk;
  }

  lemma AddBigSlab(h: Heap, b: Book, pages: nat, phys: int, n: nat, p: int)
    requires Inv(h, b) && p in h.hdr && h.cursor !in h.hdr
    ensures SlabOk(AddPage(h, Big(pages, phys)), b.(live := b.live[h.cursor + BIG_HEADER := n]), p)
  {
    assert SlabOk(h, b, p);
    if h.hdr[p].Small? {
      NotSlotBelow(h, p, h.cursor + BIG_HEADER);
    }
    hide Inv, Chain, Slot;
  }

  lemma AddBigLive(h: Heap, b: Book, pages: nat, phys: int, n: nat, y: int)
    requires Inv(h, b) && (n < WRAPS ==> BIG_HEADER + n <= 4096 * pages)
    requires h.cursor !in h.hdr && y in b.live[h.cursor + BIG_HEADER := n]
    ensures LiveOk(AddPage(h, Big(pages, phys)), b.(live := b.live[h.cursor + BIG_HEADER := n]), y)
  {
    if y == h.cursor + BIG_HEADER {
      assert PageOf(y) == h.cursor;
    } else {
      assert LiveOk(h, b, y);
    }
    hide Slot;
  }

  lemma NotSlotBelow(h: Heap, p: int, x: int)
    requires PagesOk(h) && p in h.hdr && h.hdr[p].Small? && SizeClass(h.hdr[p].objSize) && h.cursor <= x
    ensures !Slot(p, h.hdr[p].objSize, x)
  {
    assert PageOk(h, p);
  }

  /** Nothing lives at or beyond the cursor. */
  lemma FreshPage(h: Heap, b: Book, x: int)
    requires Inv(h, b) && h.cursor <= x
    ensures x !in b.live
    ensures PageOf(x) !in h.hdr
  {
    forall p | p in h.hdr ensures p != PageOf(x) {
      assert PageOk(h, p);
    }
    assert x in b.live ==> LiveOk(h, b, x);
  }

  /** A slab built on a fresh page: all its slots are on its free list. */
  ghost predicate Built(link: map<int, int>, p: int, o: nat, head: int, count: int, q: seq<int>) {
    && SizeClass(o) && Chain(link, head, q) && count == |q| && NoDup(q)
    && forall x :: x in q <==> Slot(p, o, x)
  }

  lemma AddSlabInv(h: Heap, b: Book, i: nat, link: map<int, int>, head: int, count: int, q: seq<int>)
    requires Inv(h, b) && i < |SIZES|
    requires Built(link, h.cursor, SIZES[i], head, count, q)
    requires forall x :: x in h.link && x < h.cursor ==> x in link && link[x] == h.link[x]
    ensures var h' := AddPage(h, Small(head, SIZES[i], count)).(link := link, caches := h.caches[i := h.cursor]);
      Inv(h', b.(lists := b.lists[h.cursor := q]))
  {
    var p := h.cursor;
    var d := Small(head, SIZES[i], count);
    AddPageOk(h, d);
    var h' := AddPage(h, d).(link := link, caches := h.caches[i := p]);
    var b' := b.(lists := b.lists[p := q]);
    SameClasses(AddPage(h, d), h');
    forall r | r in h'.hdr ensures SlabOk(h', b', r) {
      if r == p {
        forall x | Slot(p, SIZES[i], x) ensures x !in b.live {
          FreshPage(h, b, x);
        }
      } else if h.hdr[r].Small? {
        assert SlabOk(h, b, r) && PageOk(h, r);
        ChainCarries(h, b, r, link);
      }
    }
    forall y | y in b'.live ensures LiveOk(h', b', y) {
      assert LiveOk(h, b, y);
    }
    forall j: nat | j < |h'.caches| ensures CacheOk(h', j) {
      assert CacheOk(h, j);
    }
  }

  lemma ChainCarries(h: Heap, b: Book, r: int, link: map<int, int>)
    requires Inv(h, b) && r in h.hdr && h.hdr[r].Small? && SlabOk(h, b, r)
    requires forall x :: x in h.link && x < h.cursor ==> x in link && link[x] == h.link[x]
    ensures Chain(link, h.hdr[r].freeList, b.lists[r])
  {
    var q := b.lists[r];
    assert PageOk(h, r);
    forall i: nat | i < |q| ensures ChainAt(link, q, i) {
      assert ChainAt(h.link, q, i) && q[i] in q && Slot(r, h.hdr[r].objSize, q[i]);
    }
  }

  // ---- Freeing whole pages ----

  lemma DropBigInv(h: Heap, b: Book, x: int)
    requires Inv(h, b) && x in b.live && PageOf(x) in h.hdr && h.hdr[PageOf(x)].Big?
    ensures Inv(h.(hdr := h.hdr - {PageOf(x)}), b.(live := b.live - {x}))
  {
    var p := PageOf(x);
    assert LiveOk(h, b, x);
    var h', b' := h.(hdr := h.hdr - {p}), b.(live := b.live - {x});
    forall r | r in h'.hdr ensures PageOk(h', r) && SlabOk(h', b', r) {
      assert PageOk(h, r) && SlabOk(h, b, r);
      if h.hdr[r].Small? {
        assert !Slot(r, h.hdr[r].objSize, x) by {
          if Slot(r, h.hdr[r].objSize, x) {
            SlotPage(r, h.hdr[r].objSize, x);
          }
        }
      }
    }
    forall y | y in b'.live ensures LiveOk(h', b', y) {
      assert LiveOk(h, b, y);
    }
    forall i: nat | i < |h'.caches| ensures CacheOk(h', i) {
      assert CacheOk(h, i);
    }
  }

  /** Whole pages for a request, with the 64-bit sum as the code computes it. */
  function BigPages(n: nat): nat {
    (n + BIG_HEADER + PAGE - 1) % (SIZE_MAX + 1) / PAGE
  }

  /** The pages hold the request and the header exactly when the sum does not
      wrap; in the last 23 sizes it wraps to one page, just below them to none. */
  lemma BigPagesEnough(n: nat)
    requires n <= SIZE_MAX
    ensures BIG_HEADER + n <= PAGE * BigPages(n) <==> n + BIG_HEADER + PAGE - 1 <= SIZE_MAX
    ensures BigPages(n) == 0 <==> SIZE_MAX - BIG_HEADER - PAGE + 1 < n < WRAPS
  {
  }
}
