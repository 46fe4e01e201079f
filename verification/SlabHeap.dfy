/** kmalloc and kfree, updating headers and free lists in place. */
module SlabHeap {
  import opened Links
  import opened Sequences
  import opened Slab

  class Allocator {
    var hdr: map<int, Header>
    var link: map<int, int>
    var caches: seq<int>
    var cursor: int
    ghost var book: Book

    ghost function Value(): Heap
      reads this
    {
      Heap(hdr, link, caches, cursor)
    }

    ghost predicate Valid()
      reads this
    {
      Inv(Value(), book)
    }

    /** slab_init before the first slab: empty caches, the cursor at its base. */
    constructor ()
      ensures Valid() && book == Book(map[], map[])
    {
      hdr, link, cursor := map[], map[], VBASE;
      caches := [0, 0, 0, 0, 0, 0];
      book := Book(map[], map[]);
    }

    /** The smallest size class that holds size, -1 if none does. */
    method SizeToIdx(size: nat) returns (i: int)
      ensures -1 <= i < |SIZES|
      ensures i == -1 ==> forall k :: 0 <= k < |SIZES| ==> SIZES[k] < size
      ensures i >= 0 ==> size <= SIZES[i] && forall k :: 0 <= k < i ==> SIZES[k] < size
    {
      i := 0;
      while i < |SIZES|
        invariant 0 <= i <= |SIZES|
        invariant forall k :: 0 <= k < i ==> SIZES[k] < size
      {
        if size <= SIZES[i] {
          return;
        }
        i := i + 1;
      }
      i := -1;
    }

    /** Thread every slot of a page onto a new free list. */
    method ThreadSlots(page: int, o: nat) returns (head: int, count: int, ghost q: seq<int>)
      requires SizeClass(o)
      modifies this`link
      ensures Built(link, page, o, head, count, q)
      ensures forall x :: x in old(link) && x < page ==> x in link && link[x] == old(link)[x]
    {
      var dataStart := (SLAB_HEADER + o - 1) / o * o;
      var total := (4096 - dataStart) / o;
      FirstSlot(o);
      head, count, q := 0, 0, [];
      var cur := page + dataStart;
      while count < total
        invariant 0 <= count <= total && count == |q|
        invariant o <= cur - page && cur <= page + 4096 && (cur - page) % o == 0
        invariant (page + 4096 - cur) / o == total - count
        invariant Chain(link, head, q) && NoDup(q)
        invariant forall x :: x in q <==> Slot(page, o, x) && x < cur
        invariant forall x :: x in old(link) && x < page ==> x in link && link[x] == old(link)[x]
      {
        NextSlot(page, o, cur, total - count);
        ChainPush(link, head, q, cur);
        PushMembers(page, o, q, cur);
        link := link[cur := head];
        head := cur;
        q := [cur] + q;
        count := count + 1;
        cur := cur + o;
      }
      LastSlot(page, o, cur);
    }

    /** slab_grow: phys is the frame, 0 if there was none; mapped says whether it
        could be mapped at the cursor. */
    method SlabGrow(idx: nat, phys: int, mapped: bool)
      requires Valid() && idx < |SIZES|
      modifies this
      ensures Valid() && book.live == old(book.live)
      ensures Untouched(old(book), old(link), book, link, 0)
      ensures if phys == 0 || !mapped then Value() == old(Value()) else HasSlot(Value(), idx)
    {
      hide Slab.Inv, Built, Slot;
      if phys == 0 || !mapped {
        return;
      }
      ghost var h, b := Value(), book;
      LiveBelow(h, b);
      CacheIs(h, b, idx);
      var head, count;
      ghost var q;
      var page := cursor;
      head, count, q := ThreadSlots(page, SIZES[idx]);
      AddSlabInv(h, b, idx, link, head, count, q);
      hdr := hdr[page := Small(head, SIZES[idx], count)];
      cursor := cursor + 4096;
      caches := caches[idx := page];
      book := book.(lists := book.lists[page := q]);
      BuiltSome(link, page, SIZES[idx], head, count, q);
    }

    /**
     * kmalloc. It fails exactly for size 0 and when neither a slot is free in the
     * current slab of the size's class nor new pages are to be had. A returned block
     * is new and not null, no other block changes, and it is a slot of that class, or
     * has room for a larger request unless the size is one of the last 23, for which
     * the page computation wraps to a single page.
     */
    method Kmalloc(size: nat, phys: int, mapped: bool) returns (p: int)
      requires Valid() && size <= SIZE_MAX
      requires BigPages(size) == 0 && size > 1024 ==> phys == 0  // pmm_alloc_frames(0) fails
      modifies this
      ensures Valid()
      ensures size == 0 ==> p == 0
      ensures p == 0 ==> book.live == old(book.live)
      ensures p != 0 ==> p !in old(book.live) && book.live == old(book.live)[p := size]
      ensures p != 0 ==> PageOf(p) in hdr && (size <= Room(Value(), p) <==> size < WRAPS)
      ensures p != 0 && size <= 1024 ==> exists i: nat :: ClassOf(i, size) && Room(Value(), p) == SIZES[i]
      ensures p != 0 <==>
        size > 0 && ((phys != 0 && mapped) || exists i: nat :: ClassOf(i, size) && HasSlot(old(Value()), i))
      ensures Untouched(old(book), old(link), book, link, 0)
    {
      hide Slab.Inv, BigPages, PageOf, Room;
      if size == 0 {
        return 0;
      }
      var idx := SizeToIdx(size);
      if idx < 0 {
        assert SIZES[5] < size;
        p := KmallocBig(size, phys, mapped);
        return;
      }
      assert ClassOf(idx, size);
      CacheIs(Value(), book, idx);
      if caches[idx] == 0 || hdr[caches[idx]].freeCount == 0 {
        SlabGrow(idx, phys, mapped);
        CacheIs(Value(), book, idx);
        if caches[idx] == 0 || hdr[caches[idx]].freeCount == 0 {
          return 0;
        }
      }
      p := TakeSlot(caches[idx], size);
    }

    /** Pop the first free slot of a slab. */
    method TakeSlot(page: int, size: nat) returns (p: int)
      requires Valid() && page in hdr && hdr[page].Small? && hdr[page].freeCount != 0 && size <= hdr[page].objSize
      modifies this`hdr, this`book
      ensures Valid()
      ensures p != 0 && p !in old(book.live) && book.live == old(book.live)[p := size]
      ensures PageOf(p) in hdr && size <= Room(Value(), p) == old(hdr)[page].objSize
    {
      ghost var h, b := Value(), book;
      PopInv(h, b, page, size);
      var d := hdr[page];
      p := d.freeList;
      hdr := hdr[page := d.(freeList := link[p], freeCount := d.freeCount - 1)];
      book := PopBook(h, b, page, size);
      assert p in book.live;
      assert LiveOk(Value(), book, p);
    }

    method KmallocBig(size: nat, phys: int, mapped: bool) returns (p: int)
      requires Valid() && 1024 < size <= SIZE_MAX
      requires BigPages(size) == 0 ==> phys == 0
      modifies this
      ensures Valid() && link == old(link)
      ensures p == 0 ==> book == old(book)
      ensures p != 0 <==> phys != 0 && mapped
      ensures p != 0 ==> p !in old(book.live) && book.live == old(book.live)[p := size]
      ensures p != 0 ==> PageOf(p) in hdr && (size <= Room(Value(), p) <==> size < WRAPS)
    {
      hide Slab.Inv, BigPages, PageOf, Room;
      var npages := BigPages(size);
      if phys == 0 || !mapped {
        return 0;
      }
      BigPagesEnough(size);
      AddBigInv(Value(), book, npages, phys, size);
      BigRoom(Value(), book, npages, phys, size);
      p := cursor + BIG_HEADER;
      hdr := hdr[cursor := Big(npages, phys)];
      cursor := cursor + 4096 * npages;
      book := book.(live := book.live[p := size]);
    }

    /** kfree of null or of a live block: the page mask finds its header, a slot
        becomes the first its slab hands out again and whole pages lose their header,
        the block is no longer live and no other block changes. */
    method Kfree(p: int)
      requires Valid() && (p != 0 ==> p in book.live)
      modifies this
      ensures Valid()
      ensures book.live == if p == 0 then old(book.live) else old(book.live) - {p}
      ensures p != 0 ==> PageOf(p) in old(hdr) && (PageOf(p) in hdr <==> old(hdr)[PageOf(p)].Small?)
      ensures p != 0 && PageOf(p) in hdr ==> hdr[PageOf(p)].Small? && hdr[PageOf(p)].freeList == p
      ensures Untouched(old(book), old(link), book, link, p)
    {
      if p == 0 {
        assert 0 !in book.live by { NullNotLive(Value(), book); }
        return;
      }
      assert LiveOk(Value(), book, p);
      var page := p - p % 4096;
      var d := hdr[page];
      if d.Big? {
        DropBigInv(Value(), book, p);
        hdr := hdr - {page};
        book := book.(live := book.live - {p});
        return;
      }
      PushInv(Value(), book, p);
      book := PushBook(book, page, p);
      link := link[p := d.freeList];
      hdr := hdr[page := d.(freeList := p, freeCount := d.freeCount + 1)];
    }
  }

  /** A new slab has a slot. */
  lemma BuiltSome(link: map<int, int>, p: int, o: nat, head: int, count: int, q: seq<int>)
    requires Built(link, p, o, head, count, q)
    ensures count != 0
  {
    assert Slot(p, o, p + o);
  }

  lemma BigRoom(h: Heap, b: Book, pages: nat, phys: int, n: nat)
    requires Inv(h, b) && 1024 < n <= SIZE_MAX && pages > 0 && pages == BigPages(n)
    ensures var h', x := AddPage(h, Big(pages, phys)), h.cursor + BIG_HEADER;
      x != 0 && PageOf(x) in h'.hdr && (n <= Room(h', x) <==> n < WRAPS)
  {
    BigPagesEnough(n);
    assert PageOf(h.cursor + BIG_HEADER) == h.cursor;
    hide BigPages, PageOf;
  }

  lemma NullNotLive(h: Heap, b: Book)
    requires Inv(h, b)
    ensures 0 !in b.live
  {
    assert 0 in b.live ==> LiveOk(h, b, 0);
    forall p | p in h.hdr ensures p != 0 {
      assert PageOk(h, p);
    }
  }

  lemma CacheIs(h: Heap, b: Book, i: nat)
    requires Inv(h, b) && i < |SIZES|
    ensures i < |h.caches| && CacheOk(h, i) && h.cursor != 0
  {
  }

  /** Every other live block is left alone: it stays live, at its size, with its
      first word unwritten. */
  ghost predicate Untouched(b: Book, link: map<int, int>, b': Book, link': map<int, int>, except: int) {
    forall y :: y in b.live && y != except ==>
      && y in b'.live && b'.live[y] == b.live[y]
      && (y in link ==> y in link' && link'[y] == link[y])
  }

  lemma FirstSlot(o: nat)
    requires SizeClass(o)
    ensures (SLAB_HEADER + o - 1) / o * o == o && (4096 - o) % o == 0 && o % o == 0
  {
    if o == 32 {} else if o == 64 {} else if o == 128 {} else if o == 256 {} else if o == 512 {} else {}
  }

  lemma NextSlot(p: int, o: nat, cur: int, left: int)
    requires SizeClass(o) && o <= cur - p && cur <= p + 4096 && (cur - p) % o == 0
    requires (p + 4096 - cur) / o == left && 0 < left
    ensures Slot(p, o, cur)
    ensures (cur + o - p) % o == 0 && cur + o <= p + 4096 && (p + 4096 - (cur + o)) / o == left - 1
  {
    OneLess(o, p + 4096 - cur);
    NextMultiple(o, cur - p);
  }

  lemma OneLess(o: nat, a: int)
    requires SizeClass(o) && a / o > 0
    ensures a >= o && (a - o) / o == a / o - 1
  {
    if o == 32 {} else if o == 64 {} else if o == 128 {} else if o == 256 {} else if o == 512 {} else {}
  }

  lemma NextMultiple(o: nat, a: int)
    requires SizeClass(o) && a % o == 0
    ensures (a + o) % o == 0
  {
    if
    case o == 32 => assert (a + 32) % 32 == 0;
    case o == 64 => assert (a + 64) % 64 == 0;
    case o == 128 => assert (a + 128) % 128 == 0;
    case o == 256 => assert (a + 256) % 256 == 0;
    case o == 512 => assert (a + 512) % 512 == 0;
    case o == 1024 => assert (a + 1024) % 1024 == 0;
  }

  /** When no slot is left the cursor is past every slot. */
  lemma LastSlot(p: int, o: nat, cur: int)
    requires SizeClass(o) && (p + 4096 - cur) / o == 0 && cur <= p + 4096
    ensures forall x :: Slot(p, o, x) ==> x < cur
  {
    if o == 32 {} else if o == 64 {} else if o == 128 {} else if o == 256 {} else if o == 512 {} else {}
  }

  lemma PushMembers(p: int, o: nat, q: seq<int>, cur: int)
    requires SizeClass(o) && Slot(p, o, cur) && NoDup(q)
    requires forall x :: x in q <==> Slot(p, o, x) && x < cur
    ensures NoDup([cur] + q)
    ensures forall x :: x in [cur] + q <==> Slot(p, o, x) && x < cur + o
  {
    forall x | Slot(p, o, x) && x < cur + o ensures x <= cur {
      if cur < x {
        SlotsApart(p, o, cur, x);
      }
    }
  }

  lemma LiveBelow(h: Heap, b: Book)
    requires Inv(h, b)
    ensures forall x :: x in b.live ==> x < h.cursor
  {
    forall x | x in b.live ensures x < h.cursor {
      BlockInSpan(h, b, x);
    }
  }
}
