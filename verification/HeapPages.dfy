/** Which pages free hands back (kernel/memory/memory.c:111-125): the test whether the first or last
    page of a freed block is shared with another block, and what follows from it. */
module HeapPages {
  import opened Spans
  import opened Heap
  import HeapRuns

  /** addr + size - 1 in 64-bit arithmetic: for an empty slot this wraps around. */
  function LastByte(x: Span): nat {
    (x.addr + x.size + 0xFFFF_FFFF_FFFF_FFFF) % 0x1_0000_0000_0000_0000
  }

  /** sused: some slot of the block table ends in the first page of x. */
  predicate SharesFirst(blocks: seq<Span>, x: Span) {
    exists i :: 0 <= i < |blocks| && x.addr / 4096 == LastByte(blocks[i]) / 4096
  }

  /** eused: some slot of the block table starts in the last page of x. */
  predicate SharesLast(blocks: seq<Span>, x: Span)
    requires x.size > 0
  {
    exists i :: 0 <= i < |blocks| && (x.End() - 1) / 4096 == blocks[i].addr / 4096
  }

  /** CEILING(addr + size, PAGE_SIZE) - addr / PAGE_SIZE */
  function PageCount(x: Span): (n: nat)
    requires x.size > 0
    ensures n == (x.End() - 1) / 4096 - x.addr / 4096 + 1
  {
    (x.End() + 4095) / 4096 - x.addr / 4096
  }

  /** The virtual addresses whose frames free passes to phys_page_free, in order. */
  function ReleaseList(blocks: seq<Span>, x: Span): seq<nat>
    requires x.size > 0
  {
    (if SharesFirst(blocks, x) then [] else [x.addr]) +
    (if SharesLast(blocks, x) then [] else [x.End() - 1]) +
    Interior(x)
  }

  function Interior(x: Span): (r: seq<nat>)
    requires x.size > 0
    ensures PageCount(x) < 2 ==> r == []
    ensures PageCount(x) >= 2 ==>
              |r| == PageCount(x) - 2 && forall i :: 0 <= i < |r| ==> r[i] == x.addr + (i + 1) * 4096
  {
    if PageCount(x) < 2 then [] else seq(PageCount(x) - 2, (i: nat) => x.addr + (i + 1) * 4096)
  }

  /** A live block of the table has a byte in page p. */
  ghost predicate PageInUse(blocks: seq<Span>, p: nat) {
    exists i, b: nat :: 0 <= i < |blocks| && In(b, blocks[i]) == 1 && b / 4096 == p
  }

  /** What the separation invariant gives for the block being freed: every remaining block is empty
      with address 0, or lies outside the freed one, in the heap. */
  ghost predicate Apart(blocks: seq<Span>, x: Span) {
    && 4096 <= x.addr && x.size > 0 && x.End() < 0x8000_0000_0000_0000
    && (forall i :: 0 <= i < |blocks| ==>
          || blocks[i] == Span(0, 0)
          || (blocks[i].size > 0 && blocks[i].End() < 0x8000_0000_0000_0000 && Disjoint(blocks[i], x)))
  }

  /** In every reachable state the remaining blocks are apart from the one being freed. */
  lemma RemainingBlocksApart(base: nat, limit: nat, h: HeapState, lost: seq<Span>, slot: nat)
    requires Inv(base, limit, h, lost) && 4096 <= base && limit < 0x8000_0000_0000_0000
    requires slot < |h.blocks| && h.blocks[slot].size > 0
    ensures Apart(h.blocks[slot := Span(0, 0)], h.blocks[slot])
  {
    var rest, x := h.blocks[slot := Span(0, 0)], h.blocks[slot];
    InsideHeap(base, limit, h, lost, slot);
    forall i | 0 <= i < |rest| && i != slot
      ensures rest[i] == Span(0, 0) ||
              (rest[i].size > 0 && rest[i].End() < 0x8000_0000_0000_0000 && Disjoint(rest[i], x))
    {
      InsideHeap(base, limit, h, lost, i);
      Separation(base, limit, h, lost, i, slot);
    }
  }

  /** One slot against the two tests. */
  lemma SlotTest(y: Span, x: Span)
    requires Apart([y], x)
    ensures x.addr / 4096 == LastByte(y) / 4096 <==> y.size > 0 && x.addr / 4096 == (y.End() - 1) / 4096
    ensures (x.End() - 1) / 4096 == y.addr / 4096 ==> y.size > 0
  {
    assert [y][0] == y;
    if y.size > 0 {
      assert LastByte(y) == y.End() - 1;
    }
  }

  /** A block beside x with a byte in a page of x ends in the first page or starts in the last. */
  lemma SharedPage(y: Span, x: Span, b: nat)
    requires y.size > 0 && x.size > 0 && Disjoint(y, x) && In(b, y) == 1
    requires x.addr / 4096 <= b / 4096 <= (x.End() - 1) / 4096
    ensures y.End() <= x.addr ==> b / 4096 == x.addr / 4096 == (y.End() - 1) / 4096
    ensures x.End() <= y.addr ==> b / 4096 == (x.End() - 1) / 4096 == y.addr / 4096
  {}

  lemma ApartOne(blocks: seq<Span>, x: Span, i: nat)
    requires Apart(blocks, x) && i < |blocks|
    ensures Apart([blocks[i]], x)
  {}

  /** The test is exact: a page of the freed block is in use by another block if and only if it is
      the first page and sused holds, or the last page and eused holds. For a block on one page the
      two tests together decide, for a longer one each decides its own page, and pages in between
      are never shared. */
  lemma SharingTestIsExact(blocks: seq<Span>, x: Span, p: nat)
    requires Apart(blocks, x) && x.addr / 4096 <= p <= (x.End() - 1) / 4096
    ensures PageInUse(blocks, p) <==>
            (p == x.addr / 4096 && SharesFirst(blocks, x)) || (p == (x.End() - 1) / 4096 && SharesLast(blocks, x))
  {
    assert x.size > 0;
    hide Apart;
    if PageInUse(blocks, p) {
      UsedPageIsShared(blocks, x, p);
    }
    if p == x.addr / 4096 && SharesFirst(blocks, x) {
      FirstPageInUse(blocks, x);
    }
    if p == (x.End() - 1) / 4096 && SharesLast(blocks, x) {
      LastPageInUse(blocks, x);
    }
  }

  lemma UsedPageIsShared(blocks: seq<Span>, x: Span, p: nat)
    requires Apart(blocks, x) && x.addr / 4096 <= p <= (x.End() - 1) / 4096 && PageInUse(blocks, p)
    ensures (p == x.addr / 4096 && SharesFirst(blocks, x)) || (p == (x.End() - 1) / 4096 && SharesLast(blocks, x))
  {
    hide LastByte;
    var i, b: nat :| 0 <= i < |blocks| && In(b, blocks[i]) == 1 && b / 4096 == p;
    ApartOne(blocks, x, i);
    SharedPage(blocks[i], x, b);
    SlotTest(blocks[i], x);
  }

  lemma FirstPageInUse(blocks: seq<Span>, x: Span)
    requires Apart(blocks, x) && SharesFirst(blocks, x)
    ensures PageInUse(blocks, x.addr / 4096)
  {
    hide LastByte;
    var i :| 0 <= i < |blocks| && x.addr / 4096 == LastByte(blocks[i]) / 4096;
    ApartOne(blocks, x, i);
    SlotTest(blocks[i], x);
    assert In(blocks[i].End() - 1, blocks[i]) == 1;
  }

  lemma LastPageInUse(blocks: seq<Span>, x: Span)
    requires Apart(blocks, x) && SharesLast(blocks, x)
    ensures PageInUse(blocks, (x.End() - 1) / 4096)
  {
    hide LastByte;
    var i :| 0 <= i < |blocks| && (x.End() - 1) / 4096 == blocks[i].addr / 4096;
    ApartOne(blocks, x, i);
    SlotTest(blocks[i], x);
    assert In(blocks[i].addr, blocks[i]) == 1;
  }

  // ----- which frames are given back -----

  /** phys_page_free ignores addresses that are not page aligned, and find_physaddr keeps the
      offset, so only aligned addresses of the list give a frame back. */
  ghost predicate PageReleased(blocks: seq<Span>, x: Span, p: nat)
    requires x.size > 0
  {
    p * 4096 in ReleaseList(blocks, x)
  }

  lemma ReleasedPages(blocks: seq<Span>, x: Span, p: nat)
    requires x.size > 0
    ensures PageReleased(blocks, x, p) <==>
            || (p * 4096 == x.addr && !SharesFirst(blocks, x))
            || (p * 4096 == x.End() - 1 && !SharesLast(blocks, x))
            || (x.addr % 4096 == 0 && x.addr / 4096 < p < (x.End() - 1) / 4096)
  {
    hide SharesFirst, SharesLast, Interior;
    InteriorPages(x, p);
  }

  lemma InteriorPages(x: Span, p: nat)
    requires x.size > 0
    ensures p * 4096 in Interior(x) <==> x.addr % 4096 == 0 && x.addr / 4096 < p < (x.End() - 1) / 4096
  {
    var inner := Interior(x);
    if x.addr % 4096 == 0 && x.addr / 4096 < p < (x.End() - 1) / 4096 {
      assert inner[p - x.addr / 4096 - 1] == p * 4096;
    }
    if p * 4096 in inner {
      var i :| 0 <= i < |inner| && inner[i] == p * 4096;
      assert p * 4096 == x.addr + (i + 1) * 4096;
    }
  }

  /** When a page still in use is given back: exactly when an aligned block inside one page shares it
      only with a block that continues into the next page. */
  lemma SharedPageReleased(blocks: seq<Span>, x: Span, p: nat)
    requires Apart(blocks, x) && x.addr / 4096 <= p <= (x.End() - 1) / 4096
    ensures PageReleased(blocks, x, p) && PageInUse(blocks, p) <==>
            && x.addr % 4096 == 0 && x.addr / 4096 == (x.End() - 1) / 4096 == p
            && !SharesFirst(blocks, x) && SharesLast(blocks, x)
  {
    SharingTestIsExact(blocks, x, p);
    ReleasedPages(blocks, x, p);
    if p * 4096 == x.End() - 1 && SharesFirst(blocks, x) && x.addr / 4096 == p {
      // x is the first byte of the page, so a block that ends in the page starts in it too.
      assert x.addr == p * 4096;
      var i :| 0 <= i < |blocks| && x.addr / 4096 == LastByte(blocks[i]) / 4096;
      ApartOne(blocks, x, i);
      SlotTest(blocks[i], x);
      assert (x.End() - 1) / 4096 == blocks[i].addr / 4096;
    }
    hide SharesFirst, SharesLast, PageReleased, PageInUse, Apart;
  }

  /** Such a block exists: after requests of 100 and 5000 bytes on the kernel heap, freeing the first
      block gives back a page the second one lies on. */
  lemma SharedPageReleasedExample()
    ensures
      var blocks := HeapRuns.Run([HeapRuns.MallocOp(100, 0), HeapRuns.MallocOp(5000, 0)]).kernel.blocks;
      && |blocks| > 1 && blocks[0] == Span(HeapRuns.KERNEL_HEAP, 100)
      && PageReleased(blocks[0 := Span(0, 0)], blocks[0], HeapRuns.KERNEL_HEAP / 4096)
      && PageInUse(blocks[0 := Span(0, 0)], HeapRuns.KERNEL_HEAP / 4096)
  {
    HeapRuns.TwoKernelBlocks(100, 5000);
    hide HeapRuns.Run, HeapRuns.Apply;
    var x, y := Span(0x18_0000_0000, 100), Span(0x18_0000_0064, 5000);
    var blocks := seq(0x200, _ => Span(0, 0))[1 := y];
    assert seq(0x200, _ => Span(0, 0))[0 := x][1 := y][0 := Span(0, 0)] == blocks;
    assert (x.End() - 1) / 4096 == blocks[1].addr / 4096;
    assert LastByte(Span(0, 0)) == 0xFFFF_FFFF_FFFF_FFFF && LastByte(y) == y.End() - 1;
    SharedPageReleased(blocks, x, 0x180_0000);
  }

  /** When a page no other block uses is given back: exactly when the block starts on a page boundary
      and the page is not its last or is its only one, or the last byte is the first of the page. */
  lemma UnsharedPageReleasedIff(blocks: seq<Span>, x: Span, p: nat)
    requires Apart(blocks, x) && x.addr / 4096 <= p <= (x.End() - 1) / 4096 && !PageInUse(blocks, p)
    ensures PageReleased(blocks, x, p) <==>
            || (x.addr % 4096 == 0 && (p < (x.End() - 1) / 4096 || x.addr / 4096 == (x.End() - 1) / 4096))
            || (p == (x.End() - 1) / 4096 && (x.End() - 1) % 4096 == 0)
  {
    SharingTestIsExact(blocks, x, p);
    ReleasedPages(blocks, x, p);
    hide SharesFirst, SharesLast, PageReleased, PageInUse;
  }

  /** The addresses free looks up when it is given addr. */
  function FreedPages(h: HeapState, addr: nat): seq<nat> {
    var slot := FirstAt(h.blocks, addr, 0);
    if slot == |h.blocks| || h.blocks[slot].size == 0 || NoRoom(h.free, h.blocks[slot]) then []
    else ReleaseList(h.blocks[slot := Span(0, 0)], h.blocks[slot])
  }

  // ----- which pages free looks up -----

  /** Another slot's block has bytes in page p. */
  predicate OthersUse(blocks: seq<Span>, slot: nat, p: nat) {
    exists i :: 0 <= i < |blocks| && i != slot && blocks[i].size > 0 &&
                blocks[i].addr / 4096 <= p <= (blocks[i].addr + blocks[i].size - 1) / 4096
  }

  /** Another slot's block ends in page p. */
  predicate OthersEndIn(blocks: seq<Span>, slot: nat, p: nat) {
    exists i :: 0 <= i < |blocks| && i != slot && blocks[i].size > 0 &&
                (blocks[i].addr + blocks[i].size - 1) / 4096 == p
  }

  /** Another slot's block starts in page p. */
  predicate OthersStartIn(blocks: seq<Span>, slot: nat, p: nat) {
    exists i :: 0 <= i < |blocks| && i != slot && blocks[i].size > 0 && blocks[i].addr / 4096 == p
  }

  lemma OthersAreRest(blocks: seq<Span>, slot: nat, x: Span, p: nat)
    requires slot < |blocks| && Apart(blocks[slot := Span(0, 0)], x)
    ensures PageInUse(blocks[slot := Span(0, 0)], p) <==> OthersUse(blocks, slot, p)
    ensures SharesFirst(blocks[slot := Span(0, 0)], x) <==> OthersEndIn(blocks, slot, x.addr / 4096)
    ensures SharesLast(blocks[slot := Span(0, 0)], x) <==> OthersStartIn(blocks, slot, (x.End() - 1) / 4096)
  {
    var rest := blocks[slot := Span(0, 0)];
    hide Apart, LastByte;
    assert forall i :: 0 <= i < |rest| && i != slot ==> rest[i] == blocks[i];
    UseOfOthers(blocks, slot, p);
    forall i | 0 <= i < |rest|
      ensures x.addr / 4096 == LastByte(rest[i]) / 4096 <==>
              rest[i].size > 0 && x.addr / 4096 == (rest[i].End() - 1) / 4096
      ensures (x.End() - 1) / 4096 == rest[i].addr / 4096 ==> rest[i].size > 0
    {
      ApartOne(rest, x, i);
      SlotTest(rest[i], x);
    }
  }

  lemma UseOfOthers(blocks: seq<Span>, slot: nat, p: nat)
    requires slot < |blocks|
    ensures PageInUse(blocks[slot := Span(0, 0)], p) <==> OthersUse(blocks, slot, p)
  {
    var rest := blocks[slot := Span(0, 0)];
    if OthersUse(blocks, slot, p) {
      var i :| 0 <= i < |blocks| && i != slot && blocks[i].size > 0 &&
               blocks[i].addr / 4096 <= p <= (blocks[i].addr + blocks[i].size - 1) / 4096;
      var b := if p * 4096 < blocks[i].addr then blocks[i].addr else p * 4096;
      assert In(b, rest[i]) == 1 && b / 4096 == p;
    }
    if PageInUse(rest, p) {
      var i, b: nat :| 0 <= i < |rest| && In(b, rest[i]) == 1 && b / 4096 == p;
      assert i != slot && rest[i] == blocks[i];
    }
  }

  /** Which pages a free of a live block looks up at their start, over the blocks of the other slots. A
      page in use is looked up only when the block starts on a page boundary, has no other page, and only
      a block that continues into the next page shares it; a page not in use is looked up according to
      the alignment of the block's ends. A free that loses the block looks up nothing. */
  lemma FreedPageIff(base: nat, limit: nat, h: HeapState, lost: seq<Span>, slot: nat, p: nat)
    requires Inv(base, limit, h, lost) && 4096 <= base && limit < 0x8000_0000_0000_0000
    requires slot < |h.blocks| && h.blocks[slot].size > 0
    ensures
      var x := h.blocks[slot];
      var first, last := x.addr / 4096, (x.addr + x.size - 1) / 4096;
      p * 4096 in FreedPages(h, x.addr) <==>
        && Free(h, x.addr).lost == [] && first <= p <= last
        && if OthersUse(h.blocks, slot, p) then
             && x.addr % 4096 == 0 && first == last
             && !OthersEndIn(h.blocks, slot, first) && OthersStartIn(h.blocks, slot, last)
           else
             || (x.addr % 4096 == 0 && (p < last || first == last))
             || (p == last && (x.addr + x.size - 1) % 4096 == 0)
  {
    hide Inv, OthersUse, OthersEndIn, OthersStartIn, SharesFirst, SharesLast, PageInUse, NoRoom, GiveBack, FirstAt,
         Apart;
    var x, rest := h.blocks[slot], h.blocks[slot := Span(0, 0)];
    FreePicksTheBlock(base, limit, h, lost, slot);
    RemainingBlocksApart(base, limit, h, lost, slot);
    OthersAreRest(h.blocks, slot, x, p);
    if Free(h, x.addr).lost == [] {
      assert FreedPages(h, x.addr) == ReleaseList(rest, x);
      if x.addr / 4096 <= p <= (x.End() - 1) / 4096 {
        SharedPageReleased(rest, x, p);
        if !PageInUse(rest, p) {
          UnsharedPageReleasedIff(rest, x, p);
        }
      } else {
        ReleasedPages(rest, x, p);
      }
    }
  }
}
