/** The heap tables, the page tables and the frame bitmap together: which of two blocks on a fresh
    heap resolve, and which frames a free call gives back (kernel/memory/memory.c:12-126, 157-183). */
module HeapFrames {
  import opened FrameBitmap
  import opened PageTree
  import opened PageMap
  import opened Paging
  import opened Spans
  import opened Heap
  import opened HeapMap
  import opened HeapPages
  import opened HeapPaging
  import HeapTables

  // ----- two requests on a fresh heap -----

  /** Of the pages of a block of b bytes right behind the first a bytes of the heap, those that do not
      belong to the first a bytes too are mapped. */
  ghost predicate RestMapped(s: Tables, base: nat, a: nat, b: nat)
    requires base + a + b <= 0x1_0000_0000_0000
  {
    forall v :: (base + a) / 4096 <= v <= (base + a + b - 1) / 4096 && (base + a - 1) / 4096 < v ==> Mapped(s, v)
  }

  /** If the first block resolves after the first call, which touched no other page, the second block
      resolves then exactly if its other pages were mapped before. */
  lemma SecondBlockMapped(s: Tables, t: Tables, base: nat, limit: nat, a: nat, b: nat)
    requires limit % 4096 == 0 && limit <= 0x1_0000_0000_0000 && 0 < a && 0 < b && base + a + b <= limit
    requires BlockMapped(t, Span(base, a))
    requires forall v :: (base + a - 1) / 4096 < v < limit / 4096 ==> Leaf(t, v) == Leaf(s, v)
    ensures BlockMapped(t, Span(base + a, b)) <==> RestMapped(s, base, a, b)
  {
    hide Leaf, Present;
    var last := (base + a - 1) / 4096;
    var y := Span(base + a, b);
    assert Mapped(t, last);
    forall v | last < v < limit / 4096 ensures Mapped(t, v) == Mapped(s, v) {
      assert Leaf(t, v) == Leaf(s, v);
    }
    if RestMapped(s, base, a, b) {
      forall v | y.addr / 4096 <= v <= (y.End() - 1) / 4096 ensures Mapped(t, v) {
        assert last <= y.addr / 4096 && v < limit / 4096;
      }
      PagesCoverBlock(t, y);
    }
    if BlockMapped(t, y) {
      PagesOfBlock(t, y);
    }
  }

  /** With no frame inside the heap, pages keep their entries, but for the unmapped pages of the block. */
  lemma PagesStay(s: Tables, l: Ledger, t: Tables, l': Ledger, lo: nat, hi: nat, from: nat, to: int)
    requires hi <= 0x10_0000_0000 && HeapKept(s, l, t, l', lo, hi) && Untouched(s, t, lo, hi, from, to)
    requires Outside(l.used + l.free, lo, hi)
    ensures Outside(l'.used + l'.free, lo, hi)
    ensures forall v :: lo <= v < hi && (v < from || to < v || Mapped(s, v)) ==> Leaf(t, v) == Leaf(s, v)
  {
    hide Leaf, Keeps, Mapped, Backed, HeapMapped, TablesElsewhere, TablesStay;
    KeptMeansBacked(s, l, t, l', lo, hi);
    OutsideKeeps(s, l, t, l', lo, hi);
  }

  lemma PagesOfBlock(s: Tables, x: Span)
    requires x.size > 0 && x.End() <= 0x1_0000_0000_0000 && BlockMapped(s, x)
    ensures forall v :: x.addr / 4096 <= v <= (x.End() - 1) / 4096 ==> Mapped(s, v)
  {
    hide Mapped;
    forall v | x.addr / 4096 <= v <= (x.End() - 1) / 4096 ensures Mapped(s, v) {
      var b := if v * 4096 < x.addr then x.addr else v * 4096;
      assert b / 4096 == v && x.addr <= b < x.End();
    }
  }

  lemma SameOffset(base: nat, a: nat)
    ensures base % 4096 == 0 ==> (base + a) % 4096 == a % 4096
  {}

  /** The first two requests on a fresh heap, whatever pages of it are mapped already. The first block
      resolves; the second one resolves if and only if the first ends on a page boundary or the pages
      of the second beyond the first were mapped before. */
  method TwoRequests(heap: HeapTables.Table, space: AddressSpace, a: nat, b: nat)
    returns (ok: bool, x: nat, y: nat)
    requires Ready(heap, space) && 0 < a && 0 < b && heap.base + a + b <= heap.limit
    requires heap.blocks.Length >= 2 && heap.State() == Initial(heap.base, heap.limit, heap.blocks.Length)
    requires Outside(space.Frames().used + space.Frames().free, heap.base / 4096, heap.limit / 4096)
    modifies heap, heap.free, heap.blocks, space, space.frames.words
    ensures Ready(heap, space)
    ensures ok ==> x == heap.base && y == heap.base + a && BlockMapped(space.State(), Span(x, a))
    ensures ok ==> (BlockMapped(space.State(), Span(y, b)) <==>
                    a % 4096 == 0 || RestMapped(old(space.State()), heap.base, a, b))
    ensures !ok ==> space.Frames().free == {}
  {
    hide Inv, Malloc, Initial, Backed, Outside, Sound, UsedFrames, FreeFrames, FreeQueue, Mapped, BlockMapped,
         RestMapped, Untouched, HeapKept, HeapMapped, DrawsNumber, Unmapped, Own, TablesElsewhere, TablesExist, Leaf,
         NewFrames;
    ghost var s, l, lo, hi := space.State(), space.Frames(), heap.base / 4096, heap.limit / 4096;
    SameOffset(heap.base, a);
    TwoBlocks(heap.base, heap.limit, heap.blocks.Length, a, b);
    ok, x := MallocHeap(heap, space, a);
    y := 0;
    if ok {
      ghost var s1, l1 := space.State(), space.Frames();
      PagesStay(s, l, s1, l1, lo, hi, heap.base / 4096, (heap.base + a - 1) / 4096);
      SecondBlockMapped(s, s1, heap.base, heap.limit, a, b);
      ok, y := MallocHeap(heap, space, b);
      StaysMapped(s1, l1, space.State(), space.Frames(), Span(x, a), heap.base, heap.limit);
    }
  }

  /** The pages that hold the first n bytes from `base` on are mapped, and no other page below `limit`. */
  ghost predicate FirstBytesMapped(s: Tables, base: nat, limit: nat, n: nat)
    requires limit <= 0x1_0000_0000_0000
  {
    forall v :: base / 4096 <= v < limit / 4096 ==> (Mapped(s, v) <==> v < (base + n + 4095) / 4096)
  }

  /** When the first m bytes of the heap are mapped already, in terms of the sizes alone. */
  lemma RestMappedIff(s: Tables, base: nat, limit: nat, a: nat, b: nat, m: nat)
    requires base % 4096 == 0 && limit % 4096 == 0 && limit <= 0x1_0000_0000_0000
    requires 0 < a && 0 < b && base + a + b <= limit && FirstBytesMapped(s, base, limit, m)
    ensures RestMapped(s, base, a, b) <==> (a + b - 1) / 4096 <= ((if a < m then m else a) - 1) / 4096
  {
    hide Mapped;
    var last := (base + a + b - 1) / 4096;
    assert base / 4096 <= last < limit / 4096;
    assert RestMapped(s, base, a, b) <==> last <= (base + a - 1) / 4096 || last < (base + m + 4095) / 4096 by {
      if (base + a - 1) / 4096 < last {
        assert (base + a) / 4096 <= last;
        assert Mapped(s, last) <==> last < (base + m + 4095) / 4096;
      }
    }
    hide RestMapped, FirstBytesMapped;
    SameQuotients(base, a, b, m);
  }

  lemma SameQuotients(base: nat, a: nat, b: nat, m: nat)
    requires base % 4096 == 0 && 0 < a && 0 < b
    ensures
      var last := (base + a + b - 1) / 4096;
      last <= (base + a - 1) / 4096 || last < (base + m + 4095) / 4096 <==>
      (a + b - 1) / 4096 <= ((if a < m then m else a) - 1) / 4096
  {
    var q := base / 4096;
    assert (base + a + b - 1) / 4096 == q + (a + b - 1) / 4096;
    assert (base + a - 1) / 4096 == q + (a - 1) / 4096;
    assert (base + m + 4095) / 4096 == q + (m + 4095) / 4096;
    assert m > 0 ==> (m + 4095) / 4096 == (m - 1) / 4096 + 1;
  }

  /** The pages of the kernel heap that init_paging maps: those of the freemap and the frame bitmap, and
      the kernel's stack in the last page. */
  ghost predicate AsInitPagingLeaves(s: Tables) {
    forall v :: 0x180_0000 <= v < 0x200_0000 ==>
      (Mapped(s, v) <==> v == 0x180_0000 || v == 0x180_0001 || v == 0x1FF_FFFF)
  }

  /** After init_paging and requests of 100 and 9000 bytes the second block does not resolve. */
  method UnresolvedBlock(space: AddressSpace) returns (ok: bool, y: nat)
    requires space.Valid() && AsInitPagingLeaves(space.State()) && Backed(space.State(), 0x180_0000, 0x200_0000)
    requires Outside(space.Frames().used + space.Frames().free, 0x180_0000, 0x200_0000)
    modifies space, space.frames.words
    ensures ok ==> y == 0x18_0000_0064 && !BlockMapped(space.State(), Span(y, 9000))
    ensures !ok ==> space.Frames().free == {}
  {
    hide Outside, Sound, UsedFrames, FreeFrames, FreeQueue, Inv, Mapped, BlockMapped, Backed;
    ghost var s := space.State();
    assert !RestMapped(s, 0x18_0000_0000, 100, 9000) by {
      assert !Mapped(s, 0x180_0002);
    }
    hide RestMapped, AsInitPagingLeaves;
    var heap := new HeapTables.Table(0x18_0000_0000, 0x20_0000_0000, 0x200);
    assert |heap.State().blocks| == 0x200;
    var x;
    ok, x, y := TwoRequests(heap, space, 100, 9000);
  }

  /** The first kernel request returns the base of the heap, and every page that was mapped before keeps
      its frame: init_paging has mapped the freemap and the frame bitmap to the first two pages, so the
      block lies on their frames. */
  method FirstKernelRequest(space: AddressSpace, size: nat) returns (ok: bool, addr: nat)
    requires space.Valid() && 0 < size <= 0x8_0000_0000
    requires Backed(space.State(), 0x180_0000, 0x200_0000)
    requires Outside(space.Frames().used + space.Frames().free, 0x180_0000, 0x200_0000)
    modifies space, space.frames.words
    ensures addr == 0x18_0000_0000
    ensures forall v :: addr / 4096 <= v <= (addr + size - 1) / 4096 && old(Mapped(space.State(), v)) ==>
              Leaf(space.State(), v) == old(Leaf(space.State(), v))
  {
    hide HeapMapped, Outside, Sound, UsedFrames, FreeFrames, FreeQueue, Inv, Leaf, Backed, Unmapped, DrawsNumber,
         Mapped, HeapKept, Untouched, TablesElsewhere, TablesExist, NewFrames;
    ghost var s, l := space.State(), space.Frames();
    var heap := new HeapTables.Table(0x18_0000_0000, 0x20_0000_0000, 0x200);
    assert FirstFit(heap.State().free, size, 0) == 0 && FirstEmpty(heap.State().blocks, 0) == 0;
    ok, addr := MallocHeap(heap, space, size);
    PagesStay(s, l, space.State(), space.Frames(), 0x180_0000, 0x200_0000, addr / 4096, (addr + size - 1) / 4096);
  }

  // ----- free -----

  /** The frames behind the aligned ones of the given addresses. */
  ghost function Freed(s: Tables, pages: seq<nat>): set<nat> {
    set a | a in pages && a % 4096 == 0 && Mapped(s, Page(a)) :: FrameOf(s, Page(a))
  }

  /** The frames of a ledger after R was handed to phys_page_free. */
  ghost predicate GivenBack(l: Ledger, l': Ledger, r: set<nat>) {
    l'.used == l.used - r && l'.free == l.free + r * (l.used + l.free)
  }

  /** phys_page_free walks over mm_descs entries of the freemap: with more descriptors than entries
      it must meet the frame before it runs past them. */
  ghost predicate WalkEnds(space: AddressSpace, a: nat)
    reads space
  {
    var f := Resolve(Leaf(space.State(), Page(a)), a);
    space.frames.mmDescs <= |space.frames.freemap| || f % 4096 != 0 || f in FrameList(space.frames.freemap)
  }

  lemma FreedOne(s: Tables, a: nat, l: Ledger)
    requires forall f :: f in l.used + l.free ==> FrameOk(f)
    ensures
      var f := Resolve(Leaf(s, Page(a)), a);
      Freed(s, [a]) * (l.used + l.free) == {f} * (l.used + l.free)
  {
    var e := Leaf(s, Page(a));
    hide Leaf, Page;
    assert Address(e) % 4096 == 0;
    assert Freed(s, [a]) == if a % 4096 == 0 && Mapped(s, Page(a)) then {FrameOf(s, Page(a))} else {} by {
      assert [a][0] == a && forall b :: b in [a] ==> b == a;
    }
    hide Address, Present;
  }

  lemma SameEffect(l: Ledger, l': Ledger, r: set<nat>, q: set<nat>)
    requires GivenBack(l, l', q) && r * (l.used + l.free) == q * (l.used + l.free)
    ensures GivenBack(l, l', r)
  {
    assert forall f :: f in l.used ==> (f in r <==> f in r * (l.used + l.free));
    assert forall f :: f in l.used ==> (f in q <==> f in q * (l.used + l.free));
  }

  /** phys_page_free(find_physaddr(a)) */
  method FreeFrame(space: AddressSpace, a: nat)
    requires space.frames.Valid() && IsTree(space.root, space.State())
    requires WalkEnds(space, a) && |space.frames.freemap| <= space.frames.mmDescs
    modifies space.frames.words
    ensures space.frames.Valid()
    ensures GivenBack(old(space.Frames()), space.Frames(), Freed(space.State(), [a]))
  {
    hide UsedFrames, FreeFrames, FreeQueue, FrameList, Leaf, IsTree, Freed, WellFormed, Page;
    space.frames.Partition();
    ghost var l := space.Frames();
    var f := space.FindPhysAddr(a);
    space.frames.Release(f);
    FreedOne(space.State(), a, l);
    SameEffect(l, space.Frames(), Freed(space.State(), [a]), {f});
  }

  lemma FreedAppend(s: Tables, pages: seq<nat>, a: nat)
    ensures Freed(s, pages + [a]) == Freed(s, pages) + Freed(s, [a])
  {
    hide Leaf, Page, Present, Address;
    assert forall b :: b in pages + [a] <==> b in pages || b in [a];
    forall f | f in Freed(s, pages + [a]) ensures f in Freed(s, pages) + Freed(s, [a]) {
      var b :| b in pages + [a] && b % 4096 == 0 && Mapped(s, Page(b)) && FrameOf(s, Page(b)) == f;
      assert b in pages || b in [a];
    }
  }

  lemma GivenBackTwice(a: Ledger, b: Ledger, c: Ledger, r: set<nat>, q: set<nat>)
    requires GivenBack(a, b, r) && GivenBack(b, c, q)
    ensures GivenBack(a, c, r + q)
  {}

  /** None of the frames is a table below the PML4. */
  ghost predicate NoTables(s: Tables, r: set<nat>) {
    forall n :: n in s.tree && n != Root ==> s.tree[n] !in r
  }

  /** The tables stay sound exactly if none of them is given back. */
  lemma SoundIffNoTables(root: nat, s: Tables, l: Ledger, l': Ledger, r: set<nat>)
    requires Sound(root, s, l) && GivenBack(l, l', r)
    ensures Sound(root, s, l') <==> NoTables(s, r)
  {
    hide IsTree;
  }

  /** The addresses free looks up lie in the block, and so in the heap. */
  lemma FreedPagesInside(base: nat, limit: nat, h: HeapState, lost: seq<Span>, addr: nat, a: nat)
    requires Inv(base, limit, h, lost) && a in FreedPages(h, addr)
    ensures base <= a < limit
  {
    var slot := FirstAt(h.blocks, addr, 0);
    InsideHeap(base, limit, h, lost, slot);
    hide Inv, SharesFirst, SharesLast, NoRoom;
    var x := h.blocks[slot];
    if a in Interior(x) {
      var i :| 0 <= i < |Interior(x)| && Interior(x)[i] == a;
      assert a == x.addr + (i + 1) * 4096 && (i + 1) < (x.End() - 1) / 4096 - x.addr / 4096;
    }
  }

  /** Since free leaves the pages mapped, each managed frame it gives back is free and still mapped. */
  lemma StillMappedIff(s: Tables, l: Ledger, l': Ledger, pages: seq<nat>, lo: nat, hi: nat)
    requires hi <= 0x10_0000_0000
    requires forall a :: a in pages ==> lo * 4096 <= a < hi * 4096
    requires GivenBack(l, l', Freed(s, pages))
    ensures HeapMapped(s, l', lo, hi) <==> HeapMapped(s, l, lo, hi) && Freed(s, pages) * (l.used + l.free) == {}
  {
    hide Mapped, FrameOf, Freed;
    var r := Freed(s, pages) * (l.used + l.free);
    if r == {} {
      assert l'.free == l.free;
    } else {
      var f :| f in r;
      var v := FreedPage(s, pages, f, lo, hi);
      assert !Backing(s, l', FrameOf(s, v));
    }
    assert l.free <= l'.free;
  }

  lemma FreedPage(s: Tables, pages: seq<nat>, f: nat, lo: nat, hi: nat) returns (v: nat)
    requires hi <= 0x10_0000_0000 && f in Freed(s, pages)
    requires forall a :: a in pages ==> lo * 4096 <= a < hi * 4096
    ensures lo <= v < hi && Mapped(s, v) && FrameOf(s, v) == f
  {
    hide Leaf, Present, Address;
    var a :| a in pages && a % 4096 == 0 && Mapped(s, Page(a)) && FrameOf(s, Page(a)) == f;
    v := Page(a);
  }

  /** free, down to the frames: exactly the frames behind the aligned addresses it looks up become free,
      and the page tables stay as they are. So the tables remain used frames exactly if none of them is
      given back, and the heap pages have frames of their own afterwards exactly if they had before and the
      bitmap manages none of the frames given back. */
  method FreeHeap(heap: HeapTables.Table, space: AddressSpace, addr: nat)
    requires Ready(heap, space) && heap.base <= addr < heap.limit
    requires |space.frames.freemap| <= space.frames.mmDescs
    requires forall a :: a in FreedPages(heap.State(), addr) ==> WalkEnds(space, a)
    modifies heap, heap.free, heap.blocks, space.frames.words
    ensures heap.Valid() && heap.State() == Free(old(heap.State()), addr).state && space.frames.Valid()
    ensures
      var freed := Freed(space.State(), FreedPages(old(heap.State()), addr));
      && GivenBack(old(space.Frames()), space.Frames(), freed)
      && (Ready(heap, space) <==> NoTables(space.State(), freed))
      && (Own(heap, space) <==> old(Own(heap, space)) && freed * space.frames.All() == {})
  {
    hide UsedFrames, FreeFrames, FreeQueue, FrameList, Leaf, Sound, IsTree, Freed, GivenBack, WellFormed, HeapMapped,
         Inv, FreedPages, Free, Backing, WalkEnds, Backed, NoTables;
    ghost var s, l, h, lo, hi := space.State(), space.Frames(), heap.State(), heap.base / 4096, heap.limit / 4096;
    ghost var lost := heap.lost;
    SoundIsTree(space.root, s, l);
    space.frames.Partition();
    var pages := heap.Release(addr);
    forall a | a in pages ensures lo * 4096 <= a < hi * 4096 {
      FreedPagesInside(heap.base, heap.limit, h, lost, addr, a);
    }
    NothingGivenBack(s, l);
    for i := 0 to |pages|
      invariant heap.Valid() && heap.State() == Free(h, addr).state
      invariant space.frames.Valid()
      invariant GivenBack(l, space.Frames(), Freed(s, pages[..i]))
    {
      ghost var l1 := space.Frames();
      assert pages[i] in pages && pages[..i + 1] == pages[..i] + [pages[i]];
      FreeFrame(space, pages[i]);
      FreedAppend(s, pages[..i], pages[i]);
      GivenBackTwice(l, l1, space.Frames(), Freed(s, pages[..i]), Freed(s, [pages[i]]));
    }
    assert pages[..|pages|] == pages;
    SoundIffNoTables(space.root, s, l, space.Frames(), Freed(s, pages));
    StillMappedIff(s, l, space.Frames(), pages, lo, hi);
  }

  lemma NothingGivenBack(s: Tables, l: Ledger)
    ensures GivenBack(l, l, Freed(s, []))
  {}

  /** Pages with frames of their own never lie on tables. */
  lemma OwnFramesAreNoTables(s: Tables, l: Ledger, pages: seq<nat>, lo: nat, hi: nat)
    requires hi <= 0x10_0000_0000 && HeapMapped(s, l, lo, hi)
    requires forall a :: a in pages ==> lo * 4096 <= a < hi * 4096
    ensures NoTables(s, Freed(s, pages))
  {
    hide Mapped, FrameOf, Freed;
    forall f | f in Freed(s, pages) ensures forall n :: n in s.tree ==> s.tree[n] != f {
      var v := FreedPage(s, pages, f, lo, hi);
      assert Backing(s, l, FrameOf(s, v));
    }
  }

  // ----- a table given back -----

  /** After requests of 4096 and 8192 bytes on a fresh heap, freeing the second block looks up its first
      and its last byte. */
  lemma FreedOfSecond(base: nat, limit: nat, n: nat)
    requires 4096 <= base && base % 4096 == 0 && base + 12288 <= limit < 0x8000_0000_0000_0000 && n >= 2
    ensures
      var h := Malloc(Malloc(Initial(base, limit, n), 4096).state, 8192).state;
      FreedPages(h, base + 4096) == [base + 4096, base + 12287]
  {
    var none, x := seq(n, _ => Span(0, 0)), Span(base + 4096, 8192);
    var h := Malloc(Malloc(Initial(base, limit, n), 4096).state, 8192).state;
    TwoBlocks(base, limit, n, 4096, 8192);
    assert FirstAt(h.blocks, base + 4096, 0) == 1 by {
      assert h.blocks[0] == Span(base, 4096) && h.blocks[1] == x;
    }
    assert h.free[0].addr == x.End();
    assert !NoRoom(h.free, x) by {
      assert Touches(x, h.free[0]);
    }
    var rest := none[0 := Span(base, 4096)];
    assert h.blocks[1 := Span(0, 0)] == rest;
    NotShared(base, limit, rest, x);
    assert Interior(x) == [];
  }

  lemma NotShared(base: nat, limit: nat, rest: seq<Span>, x: Span)
    requires 4096 <= base && base % 4096 == 0 && base + 12288 <= limit < 0x8000_0000_0000_0000
    requires x == Span(base + 4096, 8192)
    requires forall i :: 0 <= i < |rest| ==> rest[i] == Span(base, 4096) || rest[i] == Span(0, 0)
    ensures !SharesFirst(rest, x) && !SharesLast(rest, x)
  {
    assert LastByte(Span(0, 0)) == 0xFFFF_FFFF_FFFF_FFFF && LastByte(Span(base, 4096)) == base + 4095;
    assert x.addr / 4096 == base / 4096 + 1 && (x.End() - 1) / 4096 == base / 4096 + 2;
  }

  /** A mapped heap page keeps its frame over further calls, and if that is a table, it stays one. */
  lemma PageFrameStays(s: Tables, l: Ledger, t: Tables, l': Ledger, w: nat, lo: nat, hi: nat)
    requires lo <= w < hi <= 0x10_0000_0000 && HeapKept(s, l, t, l', lo, hi)
    requires Outside(l.used + l.free, lo, hi) && Mapped(s, w)
    ensures Mapped(t, w) && FrameOf(t, w) == FrameOf(s, w) && l'.used + l'.free == l.used + l.free
    ensures NoTables(t, {FrameOf(s, w)}) ==> NoTables(s, {FrameOf(s, w)})
  {
    hide Leaf, Present, Address, Keeps, Backed, HeapMapped, TablesElsewhere, NewFrames;
    OutsideKeeps(s, l, t, l', lo, hi);
    forall n | n in s.tree ensures n in t.tree && t.tree[n] == s.tree[n] {}
  }

  lemma PageOf(base: nat, k: nat, off: nat)
    requires base % 4096 == 0 && off < 4096 && base + k * 4096 + off < 0x1_0000_0000_0000
    ensures Page(base + k * 4096 + off) == base / 4096 + k && (base + k * 4096 + off) % 4096 == off
  {
    assert (base + k * 4096 + off) / 4096 == base / 4096 + k;
  }

  /** What the two addresses looked up resolve to. */
  lemma FreedTwo(t: Tables, base: nat)
    requires base % 4096 == 0 && base + 12288 <= 0x1_0000_0000_0000
    requires Mapped(t, base / 4096 + 1) && Mapped(t, base / 4096 + 2)
    ensures Resolve(Leaf(t, Page(base + 4096)), base + 4096) == FrameOf(t, base / 4096 + 1)
    ensures Resolve(Leaf(t, Page(base + 12287)), base + 12287) % 4096 != 0
    ensures Freed(t, [base + 4096, base + 12287]) == {FrameOf(t, base / 4096 + 1)}
  {
    PageOf(base, 1, 0);
    PageOf(base, 2, 4095);
    hide Leaf, Present, Page;
    var pages := [base + 4096, base + 12287];
    assert pages[0] in pages && pages[1] in pages;
    assert forall a :: a in pages ==> a == pages[0] || a == pages[1];
  }

  /** Requests of 4096 and 8192 bytes on a fresh heap and a free of the second block give the frame of the
      heap's second page back to the frame allocator: if that is a page table, the tables are not valid any
      more. */
  method FreeSecondBlock(heap: HeapTables.Table, space: AddressSpace) returns (ok: bool)
    requires Ready(heap, space) && heap.base + 12288 <= heap.limit
    requires heap.blocks.Length >= 2 && heap.State() == Initial(heap.base, heap.limit, heap.blocks.Length)
    requires Outside(space.Frames().used + space.Frames().free, heap.base / 4096, heap.limit / 4096)
    requires |space.frames.freemap| <= space.frames.mmDescs
    requires Mapped(space.State(), heap.base / 4096 + 1)
    requires FrameOf(space.State(), heap.base / 4096 + 1) in space.frames.All()
    modifies heap, heap.free, heap.blocks, space, space.frames.words
    ensures space.frames.Valid()
    ensures ok ==>
              var f := old(FrameOf(space.State(), heap.base / 4096 + 1));
              && Mapped(space.State(), heap.base / 4096 + 1) && FrameOf(space.State(), heap.base / 4096 + 1) == f
              && f in space.Frames().free
              && (!old(NoTables(space.State(), {FrameOf(space.State(), heap.base / 4096 + 1)})) ==> !space.Valid())
    ensures !ok ==> space.Frames().free == {}
  {
    hide Inv, Malloc, Initial, Outside, Sound, UsedFrames, FreeFrames, FreeQueue, Untouched, HeapKept,
         HeapMapped, DrawsNumber, Unmapped, Own, TablesElsewhere, TablesExist, Leaf, NewFrames, Mapped, FrameOf, Free,
         FreedPages, FrameList, Backed, NoTables, Freed;
    ghost var s, l, lo, hi := space.State(), space.Frames(), heap.base / 4096, heap.limit / 4096;
    TwoBlocks(heap.base, heap.limit, heap.blocks.Length, 4096, 8192);
    FreedOfSecond(heap.base, heap.limit, heap.blocks.Length);
    var x, y;
    ok, x := MallocHeap(heap, space, 4096);
    if ok {
      ghost var s1, l1 := space.State(), space.Frames();
      ok, y := MallocHeap(heap, space, 8192);
      if ok {
        HeapKeptTransitive(s, l, s1, l1, space.State(), space.Frames(), lo, hi);
        PageFrameStays(s, l, space.State(), space.Frames(), lo + 1, lo, hi);
        PagesOfBlock(space.State(), Span(y, 8192));
        FreedTwo(space.State(), heap.base);
        space.frames.Partition();
        FreeHeap(heap, space, y);
      }
    }
  }
}
