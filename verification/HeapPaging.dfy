/** The mapping loop of malloc_heap (kernel/memory/memory.c:43-49), on top of the heap tables and
    the page tables. */
module HeapPaging {
  import opened FrameBitmap
  import opened PageTree
  import opened PageMap
  import opened PageDemand
  import opened Paging
  import opened HeapMap
  import opened Spans
  import opened Heap
  import HeapTables

  // ----- frames drawn -----

  /** Between the two ledgers, n frames were drawn. */
  ghost predicate DrawsNumber(l: Ledger, l': Ledger, n: nat) {
    exists drawn :: |drawn| == n && Draws(l, l', drawn)
  }

  lemma NoneDrawn(l: Ledger)
    ensures DrawsNumber(l, l, 0)
  {
    assert l.queue[0..] == l.queue;
    assert Draws(l, l, {});
  }

  lemma OneDrawn(l: Ledger, l': Ledger, f: nat)
    requires Draws(l, l', {f})
    ensures DrawsNumber(l, l', 1)
  {}

  lemma MoreDrawn(l: Ledger, l': Ledger, l'': Ledger, m: nat, n: nat)
    requires DrawsNumber(l, l', m) && DrawsNumber(l', l'', n)
    ensures DrawsNumber(l, l'', m + n)
  {
    var x :| |x| == m && Draws(l, l', x);
    var y :| |y| == n && Draws(l', l'', y);
    DrawsTransitive(l, l', l'', x, y, x + y);
    hide Draws;
  }

  lemma NumberLeft(l: Ledger, l': Ledger, n: nat)
    requires DrawsNumber(l, l', n)
    ensures |l'.queue| == |l.queue| - n
  {}

  /** How many of the n pages from `from` on are not mapped. */
  ghost function Unmapped(s: Tables, from: nat, n: nat): nat
    requires from + n <= 0x10_0000_0000
  {
    if n == 0 then 0 else Unmapped(s, from, n - 1) + (if Mapped(s, from + n - 1) then 0 else 1)
  }

  lemma {:induction false} UnmappedGrows(s: Tables, from: nat, m: nat, n: nat)
    requires m <= n && from + n <= 0x10_0000_0000
    ensures Unmapped(s, from, m) <= Unmapped(s, from, n)
  {
    hide Mapped;
    if m < n {
      UnmappedGrows(s, from, m, n - 1);
    }
  }

  /** One round of the mapping loop: a page that has no frame gets one. For an address that is not
      page aligned map_page does nothing: the tables stay as they are, and the frame drawn for a page
      without one is lost. */
  method MapOne(space: AddressSpace, virt: nat, ghost lo: nat, ghost hi: nat) returns (ok: bool)
    requires space.Valid()
    requires lo <= virt / 4096 < hi <= 0x10_0000_0000
    requires Backed(space.State(), lo, hi)
    modifies space, space.frames.words
    ensures space.Valid()
    ensures HeapKept(old(space.State()), old(space.Frames()), space.State(), space.Frames(), lo, hi)
    ensures Untouched(old(space.State()), space.State(), lo, hi, virt / 4096, virt / 4096)
    ensures virt % 4096 != 0 ==>
              && space.State() == old(space.State())
              && DrawsNumber(old(space.Frames()), space.Frames(),
                             if ok && !Mapped(space.State(), virt / 4096) then 1 else 0)
              && (!ok ==> !Mapped(space.State(), virt / 4096))
    ensures ok && virt % 4096 == 0 ==>
              && Mapped(space.State(), virt / 4096)
              && (HeapMapped(space.State(), space.Frames(), lo, hi) ==>
                    HeapMapped(old(space.State()), old(space.Frames()), lo, hi))
    ensures Path(virt / 4096, 3) in old(space.State()).tree ==> NewFrames(old(space.State()), space.State()) == {}
    ensures !ok ==> space.Frames().free == {} && space.Frames().queue == []
  {
    hide Sound, IsTree, Maps, Draws, UsedFrames, FreeFrames, FreeQueue, Leaf, HeapMapped, HeapKept, Backing, Entry,
         Backed, Mapped, Untouched, NewTo, DrawsNumber, Needs, NewFrames, Clears;
    ghost var w, s, l := virt / 4096, space.State(), space.Frames();
    assert Page(virt) == w;
    NothingChanged(s, l, lo, hi);
    NoneDrawn(l);
    SoundIsTree(space.root, s, l);
    var found := space.FindPhysAddr(virt);
    FoundIff(s, w, virt, lo, hi);
    if found != 0 {
      return true;
    }
    var frame := space.AllocFrame();
    if frame == 0 {
      return false;
    }
    ghost var l1 := space.Frames();
    DrawForHeap(space.root, s, l, l1, frame, lo, hi);
    OneDrawn(l, l1, frame);
    ghost var cs;
    ok, cs := space.MapPage(frame, virt);
    if virt % 4096 == 0 {
      RoundKept(space.root, s, l, l1, space.State(), space.Frames(), w, frame, ok, lo, hi);
      if Path(w, 3) in s.tree {
        NoTableNeeded(space.root, s, l1, space.State(), w);
      }
    } else {
      assert space.Frames() == l1;
    }
  }

  /** find_physaddr answers 0 for a heap page exactly when the page is not mapped. */
  lemma FoundIff(s: Tables, w: nat, virt: nat, lo: nat, hi: nat)
    requires lo <= w < hi <= 0x10_0000_0000 && Backed(s, lo, hi)
    ensures Resolve(Leaf(s, w), virt) != 0 <==> Mapped(s, w)
  {
    hide Leaf, Address;
  }

  /** The pages of a block that malloc_heap visits. */
  function BlockPages(addr: nat, size: nat): (n: nat)
    requires size > 0
    ensures addr / 4096 + n == (addr + size - 1) / 4096 + 1
  {
    (addr + size + 4095) / 4096 - addr / 4096
  }

  /** The last-level tables of n pages exist. */
  ghost predicate TablesExist(s: Tables, from: nat, n: nat)
    requires from + n <= 0x10_0000_0000
  {
    forall v :: from <= v < from + n ==> Path(v, 3) in s.tree
  }

  /** What a block that does not start on a page boundary costs: one frame for each of its pages that is
      not mapped, if there are as many. */
  ghost predicate Lost(s: Tables, l: Ledger, l': Ledger, addr: nat, size: nat, ok: bool)
    requires size > 0 && addr + size <= 0x1_0000_0000_0000
  {
    var n := Unmapped(s, addr / 4096, BlockPages(addr, size));
    && (ok <==> n <= |l.queue|)
    && (ok ==> DrawsNumber(l, l', n))
  }

  /** The mapping loop of malloc_heap. For a block that does not start on a page boundary it draws a
      frame for every page of the block without one and maps none of them. */
  method MapBlock(space: AddressSpace, addr: nat, size: nat, ghost lo: nat, ghost hi: nat) returns (ok: bool)
    requires space.Valid() && size > 0
    requires lo * 4096 <= addr && addr + size <= hi * 4096 <= 0x1_0000_0000_0000
    requires Backed(space.State(), lo, hi)
    modifies space, space.frames.words
    ensures space.Valid()
    ensures HeapKept(old(space.State()), old(space.Frames()), space.State(), space.Frames(), lo, hi)
    ensures Untouched(old(space.State()), space.State(), lo, hi, addr / 4096, (addr + size - 1) / 4096)
    ensures addr % 4096 != 0 ==>
              && space.State() == old(space.State())
              && Lost(old(space.State()), old(space.Frames()), space.Frames(), addr, size, ok)
    ensures ok && addr % 4096 == 0 ==>
              && (forall v :: addr / 4096 <= v <= (addr + size - 1) / 4096 ==> Mapped(space.State(), v))
              && (HeapMapped(space.State(), space.Frames(), lo, hi) <==>
                  HeapMapped(old(space.State()), old(space.Frames()), lo, hi) &&
                  TablesElsewhere(old(space.State()), space.State(), lo, hi))
              && (NewFrames(old(space.State()), space.State()) == {} <==>
                  TablesExist(old(space.State()), addr / 4096, BlockPages(addr, size)))
    ensures !ok ==> space.Frames().free == {}
  {
    hide Sound, UsedFrames, FreeFrames, FreeQueue, Mapped, Untouched, HeapKept, HeapMapped, Leaf, Backed, DrawsNumber,
         NewFrames, TablesElsewhere, TablesExist, Unmapped, Rounds;
    ghost var s, l, first, aligned := space.State(), space.Frames(), addr / 4096, addr % 4096 == 0;
    var pages := BlockPages(addr, size);
    assert first + pages <= hi;
    NoRounds(s, l, first, pages, aligned, lo, hi);
    ok := true;
    for i := 0 to pages
      invariant space.Valid() && ok
      invariant Rounds(s, l, space.State(), space.Frames(), first, i, pages, aligned, lo, hi)
    {
      ghost var s1, l1 := space.State(), space.Frames();
      RoundPage(addr, i);
      RoundsKeep(s, l, s1, l1, first, i, pages, aligned, lo, hi);
      ok := MapOne(space, addr + i * 4096, lo, hi);
      OneMoreRound(s, l, s1, l1, space.State(), space.Frames(), first, i, pages, aligned, ok, lo, hi);
      if !ok {
        return;
      }
    }
    AllRounds(space.root, s, l, space.State(), space.Frames(), first, pages, aligned, lo, hi);
  }

  lemma RoundPage(addr: nat, i: nat)
    ensures (addr + i * 4096) / 4096 == addr / 4096 + i && (addr + i * 4096) % 4096 == addr % 4096
  {}

  /** What i rounds of the mapping loop did. */
  ghost predicate Rounds(s: Tables, l: Ledger, t: Tables, l': Ledger, first: nat, i: nat, pages: nat, aligned: bool,
                         lo: nat, hi: nat)
    requires i <= pages && first + pages <= hi <= 0x10_0000_0000
  {
    && HeapKept(s, l, t, l', lo, hi) && Untouched(s, t, lo, hi, first, first + i - 1)
    && (!aligned ==> t == s && DrawsNumber(l, l', Unmapped(s, first, i)))
    && (aligned ==> forall v :: first <= v < first + i ==> Mapped(t, v))
    && (aligned && HeapMapped(t, l', lo, hi) ==> HeapMapped(s, l, lo, hi))
    && (TablesExist(s, first, pages) ==> NewFrames(s, t) == {})
  }

  lemma NoRounds(s: Tables, l: Ledger, first: nat, pages: nat, aligned: bool, lo: nat, hi: nat)
    requires first + pages <= hi <= 0x10_0000_0000 && Backed(s, lo, hi)
    ensures Rounds(s, l, s, l, first, 0, pages, aligned, lo, hi)
  {
    hide HeapKept, Untouched, DrawsNumber, NewFrames, HeapMapped, Backed;
    NothingChanged(s, l, lo, hi);
    NoneDrawn(l);
  }

  lemma RoundsKeep(s: Tables, l: Ledger, t: Tables, l': Ledger, first: nat, i: nat, pages: nat, aligned: bool,
                   lo: nat, hi: nat)
    requires i <= pages && first + pages <= hi <= 0x10_0000_0000
    requires Rounds(s, l, t, l', first, i, pages, aligned, lo, hi)
    ensures Backed(t, lo, hi)
  {
    hide Untouched, DrawsNumber, NewFrames, HeapMapped, Backed;
  }

  lemma OneMoreRound(s: Tables, l: Ledger, s1: Tables, l1: Ledger, t: Tables, l': Ledger, first: nat, i: nat,
                     pages: nat, aligned: bool, ok: bool, lo: nat, hi: nat)
    requires i < pages && first + pages <= hi <= 0x10_0000_0000 && lo <= first
    requires Rounds(s, l, s1, l1, first, i, pages, aligned, lo, hi)
    requires HeapKept(s1, l1, t, l', lo, hi) && Untouched(s1, t, lo, hi, first + i, first + i)
    requires !aligned ==>
               && t == s1 && DrawsNumber(l1, l', if ok && !Mapped(t, first + i) then 1 else 0)
               && (!ok ==> !Mapped(t, first + i))
    requires ok && aligned ==>
               Mapped(t, first + i) && (HeapMapped(t, l', lo, hi) ==> HeapMapped(s1, l1, lo, hi))
    requires Path(first + i, 3) in s1.tree ==> NewFrames(s1, t) == {}
    requires !ok ==> l'.queue == []
    ensures ok ==> Rounds(s, l, t, l', first, i + 1, pages, aligned, lo, hi)
    ensures HeapKept(s, l, t, l', lo, hi) && Untouched(s, t, lo, hi, first, first + pages - 1)
    ensures !ok && !aligned ==> t == s && |l.queue| < Unmapped(s, first, pages)
  {
    hide HeapKept, Untouched, DrawsNumber, NewFrames, HeapMapped, Mapped, Unmapped;
    HeapKeptTransitive(s, l, s1, l1, t, l', lo, hi);
    UntouchedTransitive(s, s1, t, lo, hi, first, first + i - 1, first + i);
    UntouchedBeyond(s, t, lo, hi, first, first + i, first + pages - 1);
    if TablesExist(s, first, pages) {
      KeptMeansBacked(s, l, s1, l1, lo, hi);
      SameTree(s, l, s1, l1);
    }
    if !aligned {
      RoundDraws(s, l, l1, l', first, i, pages, ok);
    }
  }

  lemma AllRounds(root: nat, s: Tables, l: Ledger, t: Tables, l': Ledger, first: nat, pages: nat, aligned: bool,
                  lo: nat, hi: nat)
    requires first + pages <= hi <= 0x10_0000_0000 && Sound(root, t, l')
    requires Rounds(s, l, t, l', first, pages, pages, aligned, lo, hi)
    ensures HeapKept(s, l, t, l', lo, hi) && Untouched(s, t, lo, hi, first, first + pages - 1)
    ensures !aligned ==>
              && t == s && Unmapped(s, first, pages) <= |l.queue| && DrawsNumber(l, l', Unmapped(s, first, pages))
    ensures aligned ==>
              && (forall v :: first <= v < first + pages ==> Mapped(t, v))
              && (HeapMapped(t, l', lo, hi) <==> HeapMapped(s, l, lo, hi) && TablesElsewhere(s, t, lo, hi))
              && (NewFrames(s, t) == {} <==> TablesExist(s, first, pages))
  {
    hide HeapKept, Untouched, DrawsNumber, NewFrames, HeapMapped, Mapped, Unmapped, Sound, TablesElsewhere, TablesExist;
    if aligned {
      BlockDone(root, s, l, t, l', first, pages, lo, hi);
    } else {
      NumberLeft(l, l', Unmapped(s, first, pages));
    }
  }

  /** What follows once all pages of a block are mapped. */
  lemma BlockDone(root: nat, s: Tables, l: Ledger, t: Tables, l': Ledger, first: nat, pages: nat, lo: nat, hi: nat)
    requires first + pages <= hi <= 0x10_0000_0000 && Sound(root, t, l') && HeapKept(s, l, t, l', lo, hi)
    requires forall v :: first <= v < first + pages ==> Mapped(t, v)
    ensures HeapMapped(t, l', lo, hi) ==> TablesElsewhere(s, t, lo, hi)
    ensures HeapMapped(s, l, lo, hi) && TablesElsewhere(s, t, lo, hi) ==> HeapMapped(t, l', lo, hi)
    ensures NewFrames(s, t) == {} ==> TablesExist(s, first, pages)
  {
    hide Mapped, HeapMapped, TablesElsewhere, NewFrames, Backed, IsTree;
    if HeapMapped(t, l', lo, hi) {
      OwnMeansElsewhere(s, l, t, l', lo, hi);
    }
    if NewFrames(s, t) == {} {
      SameTree(s, l, t, l');
      forall v | first <= v < first + pages ensures Path(v, 3) in s.tree {
        MappedHasTable(root, t, v);
      }
    }
  }

  lemma RoundDraws(s: Tables, l: Ledger, l1: Ledger, l2: Ledger, first: nat, i: nat, pages: nat, ok: bool)
    requires i < pages && first + pages <= 0x10_0000_0000
    requires DrawsNumber(l, l1, Unmapped(s, first, i))
    requires DrawsNumber(l1, l2, if ok && !Mapped(s, first + i) then 1 else 0)
    requires !ok ==> !Mapped(s, first + i) && l2.queue == []
    ensures ok ==> DrawsNumber(l, l2, Unmapped(s, first, i + 1))
    ensures !ok ==> |l.queue| < Unmapped(s, first, pages)
  {
    hide DrawsNumber, Mapped;
    MoreDrawn(l, l1, l2, Unmapped(s, first, i), if ok && !Mapped(s, first + i) then 1 else 0);
    NumberLeft(l, l2, Unmapped(s, first, i) + if ok && !Mapped(s, first + i) then 1 else 0);
    UnmappedGrows(s, first, i + 1, pages);
  }

  // ----- malloc_heap -----

  /** Every byte of the block resolves. */
  ghost predicate BlockMapped(s: Tables, x: Span)
    requires x.End() <= 0x1_0000_0000_0000
  {
    forall b: nat :: x.addr <= b < x.End() ==> Mapped(s, b / 4096)
  }

  /** The heap tables, the page tables and the bitmap fit together. */
  ghost predicate Ready(heap: HeapTables.Table, space: AddressSpace)
    reads heap, heap.free, heap.blocks, space, space.frames.words
  {
    && heap.Valid() && space.Valid()
    && heap.base % 4096 == 0 && heap.limit % 4096 == 0 && heap.limit <= 0x1_0000_0000_0000
    && Backed(space.State(), heap.base / 4096, heap.limit / 4096)
  }

  /** The heap's pages have frames of their own: none of them is free, a table, or behind two pages. */
  ghost predicate Own(heap: HeapTables.Table, space: AddressSpace)
    requires space.frames.Valid() && heap.limit <= 0x1_0000_0000_0000
    reads heap, space, space.frames.words
  {
    HeapMapped(space.State(), space.Frames(), heap.base / 4096, heap.limit / 4096)
  }

  /** What a returned block gets. While frames last, its bytes resolve if and only if it starts on a page
      boundary or they resolved before. If it does not start there, a frame is drawn and lost for every page
      of the block that did not resolve. If it does, the heap's pages have frames of their own afterwards
      exactly if they had before and no new table lies among them, and no new table is needed exactly if the
      last-level tables of all pages of the block exist. */
  ghost predicate Served(s: Tables, l: Ledger, t: Tables, l': Ledger, lo: nat, hi: nat, addr: nat, size: nat, ok: bool)
    requires size > 0 && addr + size <= 0x1_0000_0000_0000 && hi <= 0x10_0000_0000
  {
    && Untouched(s, t, lo, hi, addr / 4096, (addr + size - 1) / 4096)
    && (ok ==> (BlockMapped(t, Span(addr, size)) <==> addr % 4096 == 0 || BlockMapped(s, Span(addr, size))))
    && (addr % 4096 != 0 ==> t == s && Lost(s, l, l', addr, size, ok))
    && (ok && addr % 4096 == 0 ==>
          && (HeapMapped(t, l', lo, hi) <==> HeapMapped(s, l, lo, hi) && TablesElsewhere(s, t, lo, hi))
          && (NewFrames(s, t) == {} <==> TablesExist(s, addr / 4096, BlockPages(addr, size))))
  }

  /** malloc_heap: the block comes from the heap's tables, and its pages are served. */
  method MallocHeap(heap: HeapTables.Table, space: AddressSpace, size: nat) returns (ok: bool, addr: nat)
    requires Ready(heap, space)
    modifies heap, heap.free, heap.blocks, space, space.frames.words
    ensures Ready(heap, space)
    ensures heap.State() == Malloc(old(heap.State()), size).state
    ensures addr == Malloc(old(heap.State()), size).addr
    ensures HeapKept(old(space.State()), old(space.Frames()), space.State(), space.Frames(),
                     heap.base / 4096, heap.limit / 4096)
    ensures addr != 0 ==>
              && heap.base <= addr && addr + size <= heap.limit && size > 0
              && Served(old(space.State()), old(space.Frames()), space.State(), space.Frames(),
                        heap.base / 4096, heap.limit / 4096, addr, size, ok)
    ensures addr == 0 ==> ok && space.State() == old(space.State()) && space.Frames() == old(space.Frames())
    ensures !ok ==> space.Frames().free == {}
  {
    hide Sound, UsedFrames, FreeFrames, FreeQueue, Inv, Mapped, HeapMapped, HeapKept, Untouched, Backed, DrawsNumber,
         Unmapped, NewFrames, TablesElsewhere, TablesExist, Lost;
    ghost var s, l, h, lo, hi := space.State(), space.Frames(), heap.State(), heap.base / 4096, heap.limit / 4096;
    NothingChanged(s, l, lo, hi);
    addr := heap.Reserve(size);
    ok := true;
    if addr != 0 {
      ReservedInside(heap.base, heap.limit, h, heap.State(), heap.lost, size);
      ok := MapBlock(space, addr, size, lo, hi);
      KeptMeansBacked(s, l, space.State(), space.Frames(), lo, hi);
      if ok && addr % 4096 == 0 {
        PagesCoverBlock(space.State(), Span(addr, size));
      }
    }
  }

  lemma ReservedInside(base: nat, limit: nat, h: HeapState, h': HeapState, lost: seq<Span>, size: nat)
    requires Malloc(h, size).addr != 0 && h' == Malloc(h, size).state && Inv(base, limit, h', lost)
    ensures size > 0 && base <= Malloc(h, size).addr && Malloc(h, size).addr + size <= limit
  {
    var slot := FirstEmpty(h.blocks, 0);
    assert h'.blocks[slot] == Span(Malloc(h, size).addr, size);
    InsideHeap(base, limit, h', lost, slot);
  }

  lemma PagesCoverBlock(s: Tables, x: Span)
    requires x.size > 0 && x.End() <= 0x1_0000_0000_0000
    requires forall v :: x.addr / 4096 <= v <= (x.End() - 1) / 4096 ==> Mapped(s, v)
    ensures BlockMapped(s, x)
  {
    hide Mapped;
    forall b: nat | x.addr <= b < x.End() ensures Mapped(s, b / 4096) {
      assert x.addr / 4096 <= b / 4096 <= (x.End() - 1) / 4096;
    }
  }

  // ----- runs without free, in whole pages -----

  predicate WholePages(x: Span) {
    x.addr % 4096 == 0 && x.size % 4096 == 0
  }

  predicate AllWholePages(h: HeapState) {
    && (forall i :: 0 <= i < |h.free| ==> WholePages(h.free[i]))
    && (forall i :: 0 <= i < |h.blocks| ==> WholePages(h.blocks[i]))
  }

  lemma MallocKeepsWholePages(h: HeapState, size: nat)
    requires AllWholePages(h) && size % 4096 == 0
    ensures AllWholePages(Malloc(h, size).state)
    ensures Malloc(h, size).addr % 4096 == 0
  {
    hide FirstFit, FirstEmpty, WholePages;
    var space := FirstFit(h.free, size, 0);
    if space < |h.free| {
      CutWholePages(h.free[space], size);
    }
  }

  lemma CutWholePages(x: Span, size: nat)
    requires WholePages(x) && size % 4096 == 0 && size <= x.size
    ensures x.addr % 4096 == 0
    ensures WholePages(Span(x.addr, size)) && WholePages(Span(x.addr + size, x.size - size))
  {}

  /** Every byte of every live block resolves. */
  ghost predicate AllMapped(h: HeapState, s: Tables) {
    forall i :: 0 <= i < |h.blocks| ==> h.blocks[i].End() <= 0x1_0000_0000_0000 && BlockMapped(s, h.blocks[i])
  }

  lemma MallocKeepsAllMapped(h: HeapState, s: Tables, l: Ledger, t: Tables, l': Ledger, size: nat,
                             base: nat, limit: nat, lost: seq<Span>)
    requires Inv(base, limit, h, lost) && limit <= 0x1_0000_0000_0000 && limit % 4096 == 0
    requires AllMapped(h, s) && HeapKept(s, l, t, l', base / 4096, limit / 4096)
    requires
      var addr := Malloc(h, size).addr;
      addr != 0 ==> addr + size <= 0x1_0000_0000_0000 && BlockMapped(t, Span(addr, size))
    ensures AllMapped(Malloc(h, size).state, t)
  {
    hide Inv, Malloc, BlockMapped, HeapKept, FirstFit, FirstEmpty;
    MallocBlocks(base, limit, h, lost, size);
    forall i | 0 <= i < |h.blocks| ensures h.blocks[i].End() <= 0x1_0000_0000_0000 && BlockMapped(t, h.blocks[i]) {
      InsideHeap(base, limit, h, lost, i);
      if h.blocks[i].size > 0 {
        StaysMapped(s, l, t, l', h.blocks[i], base, limit);
      } else {
        NoBytesMapped(t, h.blocks[i]);
      }
    }
  }

  lemma MallocBlocks(base: nat, limit: nat, h: HeapState, lost: seq<Span>, size: nat)
    requires Inv(base, limit, h, lost)
    ensures
      var r := Malloc(h, size);
      && |r.state.blocks| == |h.blocks|
      && forall i :: 0 <= i < |h.blocks| ==>
           r.state.blocks[i] == h.blocks[i] || (r.addr != 0 && r.state.blocks[i] == Span(r.addr, size))
  {
    InsideHeap(base, limit, h, lost, FirstFit(h.free, size, 0));
    hide FirstEmpty, FirstFit;
    assert base > 0;
  }

  lemma NoBytesMapped(s: Tables, x: Span)
    requires x.size == 0 && x.End() <= 0x1_0000_0000_0000
    ensures BlockMapped(s, x)
  {}

  /** Any sequence of requests in whole pages: as long as frames last, every byte of every block
      resolves, and the heap pages end with frames of their own exactly if they started with them and no
      new table lies among them. */
  method Serve(heap: HeapTables.Table, space: AddressSpace, sizes: seq<nat>) returns (ok: bool, addrs: seq<nat>)
    requires Ready(heap, space)
    requires forall i :: 0 <= i < |sizes| ==> sizes[i] % 4096 == 0
    requires AllWholePages(heap.State()) && AllMapped(heap.State(), space.State())
    modifies heap, heap.free, heap.blocks, space, space.frames.words
    ensures Ready(heap, space)
    ensures ok ==> |addrs| == |sizes| && AllMapped(heap.State(), space.State())
    ensures ok ==> forall i :: 0 <= i < |addrs| && addrs[i] != 0 ==>
                     addrs[i] + sizes[i] <= heap.limit && BlockMapped(space.State(), Span(addrs[i], sizes[i]))
    ensures HeapKept(old(space.State()), old(space.Frames()), space.State(), space.Frames(),
                     heap.base / 4096, heap.limit / 4096)
    ensures ok ==> (Own(heap, space) <==>
                    old(Own(heap, space)) &&
                    TablesElsewhere(old(space.State()), space.State(), heap.base / 4096, heap.limit / 4096))
    ensures !ok ==> space.Frames().free == {}
  {
    hide Inv, Malloc, HeapMapped, Sound, UsedFrames, FreeFrames, FreeQueue, Mapped, Unmapped, DrawsNumber, Untouched,
         HeapKept, TablesElsewhere, TablesExist, NewFrames, Backed;
    ghost var s0, l0, lo, hi := space.State(), space.Frames(), heap.base / 4096, heap.limit / 4096;
    NothingChanged(s0, l0, lo, hi);
    ok, addrs := true, [];
    for i := 0 to |sizes|
      invariant ok && |addrs| == i && Ready(heap, space)
      invariant HeapKept(s0, l0, space.State(), space.Frames(), lo, hi)
      invariant Own(heap, space) ==> HeapMapped(s0, l0, lo, hi)
      invariant AllWholePages(heap.State()) && AllMapped(heap.State(), space.State())
      invariant forall k :: 0 <= k < i && addrs[k] != 0 ==>
                  heap.base <= addrs[k] && addrs[k] + sizes[k] <= heap.limit &&
                  BlockMapped(space.State(), Span(addrs[k], sizes[k]))
    {
      ghost var s, l, h, lost := space.State(), space.Frames(), heap.State(), heap.lost;
      MallocKeepsWholePages(h, sizes[i]);
      var addr;
      ok, addr := MallocHeap(heap, space, sizes[i]);
      HeapKeptTransitive(s0, l0, s, l, space.State(), space.Frames(), lo, hi);
      if !ok {
        return;
      }
      MallocKeepsAllMapped(h, s, l, space.State(), space.Frames(), sizes[i], heap.base, heap.limit, lost);
      forall k | 0 <= k < i && addrs[k] != 0 ensures BlockMapped(space.State(), Span(addrs[k], sizes[k])) {
        StaysMapped(s, l, space.State(), space.Frames(), Span(addrs[k], sizes[k]), heap.base, heap.limit);
      }
      addrs := addrs + [addr];
    }
    KeptMeansBacked(s0, l0, space.State(), space.Frames(), lo, hi);
    if Own(heap, space) {
      OwnMeansElsewhere(s0, l0, space.State(), space.Frames(), lo, hi);
    }
  }

  lemma StaysMapped(s: Tables, l: Ledger, t: Tables, l': Ledger, x: Span, base: nat, limit: nat)
    requires base <= x.addr && x.End() <= limit <= 0x1_0000_0000_0000 && limit % 4096 == 0
    requires HeapKept(s, l, t, l', base / 4096, limit / 4096) && BlockMapped(s, x)
    ensures BlockMapped(t, x)
  {
    hide Mapped, Keeps, TablesStay, HeapMapped, Backed, TablesElsewhere;
    forall b: nat | x.addr <= b < x.End() ensures Mapped(t, b / 4096) {
      assert Mapped(s, b / 4096) && base / 4096 <= b / 4096 < limit / 4096;
      KeptIsMapped(s, t, b / 4096);
    }
  }

  /** The kernel heap from init_malloc on, with the address range and table size of the source. */
  method KernelHeapRun(space: AddressSpace, sizes: seq<nat>)
    returns (ok: bool, addrs: seq<nat>, heap: HeapTables.Table)
    requires space.Valid() && forall i :: 0 <= i < |sizes| ==> sizes[i] % 4096 == 0
    requires Backed(space.State(), 0x180_0000, 0x200_0000)
    requires Outside(space.Frames().used + space.Frames().free, 0x180_0000, 0x200_0000)
    modifies space, space.frames.words
    ensures fresh(heap) && Ready(heap, space)
    ensures ok ==> |addrs| == |sizes| && AllMapped(heap.State(), space.State())
    ensures ok ==> forall i :: 0 <= i < |addrs| && addrs[i] != 0 ==>
                     addrs[i] + sizes[i] <= 0x20_0000_0000 && BlockMapped(space.State(), Span(addrs[i], sizes[i]))
    ensures ok ==> (HeapMapped(space.State(), space.Frames(), 0x180_0000, 0x200_0000) <==>
                    old(HeapMapped(space.State(), space.Frames(), 0x180_0000, 0x200_0000)))
    ensures !ok ==> space.Frames().free == {}
  {
    hide HeapMapped, Outside, Sound, UsedFrames, FreeFrames, FreeQueue, Inv, Initial, Backed, HeapKept, TablesElsewhere;
    ghost var s, l := space.State(), space.Frames();
    heap := new HeapTables.Table(0x18_0000_0000, 0x20_0000_0000, 0x200);
    InitialIsWhole(0x18_0000_0000, 0x20_0000_0000, 0x200, space.State());
    ok, addrs := Serve(heap, space, sizes);
    KeptMeansBacked(s, l, space.State(), space.Frames(), 0x180_0000, 0x200_0000);
    OutsideKeeps(s, l, space.State(), space.Frames(), 0x180_0000, 0x200_0000);
  }

  lemma InitialIsWhole(base: nat, limit: nat, n: nat, s: Tables)
    requires base % 4096 == 0 && limit % 4096 == 0 && base <= limit && n > 0
    ensures AllWholePages(Initial(base, limit, n)) && AllMapped(Initial(base, limit, n), s)
  {
    var h := Initial(base, limit, n);
    assert forall i :: 0 <= i < n ==> h.blocks[i] == Span(0, 0);
    assert forall i :: 0 < i < n ==> h.free[i] == Span(0, 0);
    assert WholePages(Span(0, 0)) && WholePages(Span(base, limit - base));
  }
}
