/** The virtual heap allocator: malloc_heap and free on the tables freespace and allocations
    (kernel/memory/memory.c:12-126), without the page mapping, which is in HeapPaging. */
module Heap {
  import opened Spans

  /** One heap's two tables. */
  datatype HeapState = HeapState(free: seq<Span>, blocks: seq<Span>)

  /** What a call leaves: the tables, the address it returns, and the bytes it lost. */
  datatype Outcome = Outcome(state: HeapState, addr: nat, lost: seq<Span>)

  /** malloc_heap: the first large enough free entry is shortened from the front, and the first
      empty block slot records the block. With no such slot the bytes are gone: the free entry has
      been shortened already. */
  function Malloc(h: HeapState, size: nat): Outcome {
    var space := FirstFit(h.free, size, 0);
    if size == 0 || space == |h.free| then Outcome(h, 0, [])
    else
      var x := h.free[space];
      var free := h.free[space := Span(x.addr + size, x.size - size)];
      var slot := FirstEmpty(h.blocks, 0);
      if slot == |h.blocks| then Outcome(HeapState(free, h.blocks), 0, [Span(x.addr, size)])
      else Outcome(HeapState(free, h.blocks[slot := Span(x.addr, size)]), x.addr, [])
  }

  /** Giving a block back to the free table: the first entry it touches grows; otherwise the first
      empty slot takes it; otherwise the table is full and stays as it is. */
  function GiveBack(free: seq<Span>, x: Span): (r: seq<Span>)
    ensures |r| == |free|
  {
    var i := FirstTouching(free, x, 0);
    if i < |free| then
      var y := free[i];
      if x.End() == y.addr then free[i := Span(x.addr, y.size + x.size)]
      else free[i := Span(y.addr, y.size + x.size)]
    else
      var j := FirstEmpty(free, 0);
      if j < |free| then free[j := x] else free
  }

  /** No entry touches the block and no slot is empty. */
  predicate NoRoom(free: seq<Span>, x: Span) {
    FirstTouching(free, x, 0) == |free| && FirstEmpty(free, 0) == |free|
  }

  /** free: the block slot is cleared and its bytes are given back, or lost. */
  function Free(h: HeapState, addr: nat): Outcome {
    var slot := FirstAt(h.blocks, addr, 0);
    if slot == |h.blocks| then Outcome(h, 0, [])
    else
      var x := h.blocks[slot];
      Outcome(HeapState(GiveBack(h.free, x), h.blocks[slot := Span(0, 0)]), 0,
              if NoRoom(h.free, x) then [x] else [])
  }

  // ----- the invariant -----

  /** The number of owners of a byte: live blocks, free entries and lost ranges. */
  function Owners(h: HeapState, lost: seq<Span>, b: nat): nat {
    Cover(b, h.free) + Cover(b, h.blocks) + Cover(b, lost)
  }

  /** Every byte of the heap has exactly one owner, no other byte has any, and the sizes add up.
      Empty block slots have address 0; empty free slots may keep a stale address. */
  ghost predicate Inv(base: nat, limit: nat, h: HeapState, lost: seq<Span>) {
    && 0 < base <= limit
    && (forall b: nat :: Owners(h, lost, b) == if base <= b < limit then 1 else 0)
    && Total(h.free) + Total(h.blocks) + Total(lost) == limit - base
    && (forall i :: 0 <= i < |h.blocks| && h.blocks[i].size == 0 ==> h.blocks[i].addr == 0)
    && (forall i :: 0 <= i < |h.free| ==> h.free[i].End() <= limit)
  }

  /** init_malloc on tables of n zeroed slots. */
  function Initial(base: nat, limit: nat, n: nat): HeapState
    requires base <= limit && n > 0
  {
    HeapState(seq(n, _ => Span(0, 0))[0 := Span(base, limit - base)], seq(n, _ => Span(0, 0)))
  }

  lemma InitialInv(base: nat, limit: nat, n: nat)
    requires 0 < base <= limit && n > 0
    ensures Inv(base, limit, Initial(base, limit, n), [])
  {
    var zeros := seq(n, _ => Span(0, 0));
    var h := Initial(base, limit, n);
    forall b: nat ensures Owners(h, [], b) == if base <= b < limit then 1 else 0 {
      EmptyTable(n, b);
      CoverUpdate(b, zeros, 0, Span(base, limit - base));
    }
    EmptyTable(n, 0);
    TotalUpdate(zeros, 0, Span(base, limit - base));
  }

  /** Cutting a span in two, or joining two that touch, moves no byte. */
  lemma Cut(b: nat, x: Span, n: nat)
    requires n <= x.size
    ensures In(b, x) == In(b, Span(x.addr, n)) + In(b, Span(x.addr + n, x.size - n))
  {}

  lemma Join(b: nat, x: Span, y: Span)
    requires x.End() == y.addr
    ensures In(b, Span(x.addr, y.size + x.size)) == In(b, Span(x.addr, x.size + y.size)) == In(b, x) + In(b, y)
  {}

  lemma NoBytes(b: nat, x: Span)
    requires x.size == 0
    ensures In(b, x) == 0
  {}

  /** A non-empty free entry or block lies inside the heap. */
  lemma InsideHeap(base: nat, limit: nat, h: HeapState, lost: seq<Span>, i: nat)
    requires Inv(base, limit, h, lost)
    ensures i < |h.free| && h.free[i].size > 0 ==> base <= h.free[i].addr && h.free[i].End() <= limit
    ensures i < |h.blocks| && h.blocks[i].size > 0 ==> base <= h.blocks[i].addr && h.blocks[i].End() <= limit
  {
    if i < |h.free| && h.free[i].size > 0 {
      var x := h.free[i];
      CoverAtLeast(x.addr, h.free, i);
      assert Owners(h, lost, x.addr) > 0;
    }
    if i < |h.blocks| && h.blocks[i].size > 0 {
      var x := h.blocks[i];
      CoverAtLeast(x.addr, h.blocks, i);
      CoverAtLeast(x.End() - 1, h.blocks, i);
      assert Owners(h, lost, x.addr) > 0 && Owners(h, lost, x.End() - 1) > 0;
    }
  }

  predicate Disjoint(x: Span, y: Span) {
    x.End() <= y.addr || y.End() <= x.addr
  }

  lemma OverlapByte(x: Span, y: Span) returns (b: nat)
    requires x.size > 0 && y.size > 0 && !Disjoint(x, y)
    ensures In(b, x) == 1 && In(b, y) == 1
  {
    b := if x.addr <= y.addr then y.addr else x.addr;
  }

  /** Live blocks and non-empty free entries are pairwise disjoint. */
  lemma Separation(base: nat, limit: nat, h: HeapState, lost: seq<Span>, i: nat, j: nat)
    requires Inv(base, limit, h, lost)
    ensures i != j && i < |h.blocks| && j < |h.blocks| && h.blocks[i].size > 0 && h.blocks[j].size > 0 ==>
              Disjoint(h.blocks[i], h.blocks[j])
    ensures i != j && i < |h.free| && j < |h.free| && h.free[i].size > 0 && h.free[j].size > 0 ==>
              Disjoint(h.free[i], h.free[j])
    ensures i < |h.blocks| && j < |h.free| && h.blocks[i].size > 0 && h.free[j].size > 0 ==>
              Disjoint(h.blocks[i], h.free[j])
  {
    if i != j && i < |h.blocks| && j < |h.blocks| && h.blocks[i].size > 0 && h.blocks[j].size > 0
       && !Disjoint(h.blocks[i], h.blocks[j]) {
      var b := OverlapByte(h.blocks[i], h.blocks[j]);
      assert Owners(h, lost, b) <= 1;
      CoverTwice(b, h.blocks, i, j);
      assert false;
    }
    if i != j && i < |h.free| && j < |h.free| && h.free[i].size > 0 && h.free[j].size > 0
       && !Disjoint(h.free[i], h.free[j]) {
      var b := OverlapByte(h.free[i], h.free[j]);
      assert Owners(h, lost, b) <= 1;
      CoverTwice(b, h.free, i, j);
      assert false;
    }
    if i < |h.blocks| && j < |h.free| && h.blocks[i].size > 0 && h.free[j].size > 0
       && !Disjoint(h.blocks[i], h.free[j]) {
      var b := OverlapByte(h.blocks[i], h.free[j]);
      assert Owners(h, lost, b) <= 1;
      CoverAtLeast(b, h.blocks, i);
      CoverAtLeast(b, h.free, j);
      assert false;
    }
  }

  // ----- what every call keeps -----

  /** malloc_heap keeps the invariant; it loses bytes only when the block table is full, and then
      it loses exactly the bytes requested. */
  lemma MallocKeepsInv(base: nat, limit: nat, h: HeapState, lost: seq<Span>, size: nat)
    requires Inv(base, limit, h, lost)
    ensures
      var r := Malloc(h, size);
      && Inv(base, limit, r.state, lost + r.lost)
      && |r.state.free| == |h.free| && |r.state.blocks| == |h.blocks|
      && (r.lost != [] ==> (forall i :: 0 <= i < |h.blocks| ==> h.blocks[i].size > 0) && Total(r.lost) == size)
  {
    hide Cover, Total, In, FirstFit, FirstEmpty;
    var r := Malloc(h, size);
    var space, slot := FirstFit(h.free, size, 0), FirstEmpty(h.blocks, 0);
    assert lost + [] == lost;
    if size != 0 && space < |h.free| {
      var x := h.free[space];
      var rest, taken := Span(x.addr + size, x.size - size), Span(x.addr, size);
      TotalUpdate(h.free, space, rest);
      CoverAppend(0, lost, taken);
      OneSpan(taken);
      if slot < |h.blocks| {
        TotalUpdate(h.blocks, slot, taken);
      }
      forall b: nat ensures Owners(r.state, lost + r.lost, b) == Owners(h, lost, b) {
        Cut(b, x, size);
        CoverUpdate(b, h.free, space, rest);
        CoverAppend(b, lost, taken);
        if slot < |h.blocks| {
          NoBytes(b, h.blocks[slot]);
          CoverUpdate(b, h.blocks, slot, taken);
        }
      }
    }
  }

  /** malloc_heap succeeds exactly when the request is not empty, some free entry is large enough and
      some block slot is empty; the block then starts where the lowest such entry started. */
  lemma MallocSucceedsIff(base: nat, limit: nat, h: HeapState, lost: seq<Span>, size: nat)
    requires Inv(base, limit, h, lost)
    ensures Malloc(h, size).addr != 0 <==>
            && size > 0
            && (exists i :: 0 <= i < |h.free| && h.free[i].size >= size)
            && (exists j :: 0 <= j < |h.blocks| && h.blocks[j].size == 0)
    ensures Malloc(h, size).addr != 0 ==>
              exists i :: && 0 <= i < |h.free| && h.free[i].size >= size && h.free[i].addr == Malloc(h, size).addr
                          && forall k :: 0 <= k < i ==> h.free[k].size < size
  {
    var space, slot := FirstFit(h.free, size, 0), FirstEmpty(h.blocks, 0);
    InsideHeap(base, limit, h, lost, space);
    assert base > 0;
    hide Inv, FirstFit, FirstEmpty;
    if Malloc(h, size).addr != 0 {
      assert h.free[space].size >= size && h.blocks[slot].size == 0;
    }
  }

  /** The first two requests on a fresh heap get the first bytes, one block after the other. */
  lemma TwoBlocks(base: nat, limit: nat, n: nat, a: nat, b: nat)
    requires 0 < base && 0 < a && 0 < b && base + a + b <= limit && n >= 2
    ensures
      var first := Malloc(Initial(base, limit, n), a);
      var second := Malloc(first.state, b);
      && first.addr == base && second.addr == base + a && first.lost == [] == second.lost
      && second.state.blocks == seq(n, _ => Span(0, 0))[0 := Span(base, a)][1 := Span(base + a, b)]
  {
    var h1 := Malloc(Initial(base, limit, n), a).state;
    assert h1.free[0] == Span(base + a, limit - base - a);
    assert h1.blocks[0].size == a && h1.blocks[1].size == 0;
    assert FirstEmpty(h1.blocks, 0) == 1;
  }

  lemma OneSpan(x: Span)
    ensures Total([x]) == x.size && Total([]) == 0
    ensures forall b: nat :: Cover(b, [x]) == In(b, x) && Cover(b, []) == 0
  {
    assert [x][..0] == [];
  }

  /** Exactly what malloc_heap does. Without a request or a large enough entry nothing changes.
      Otherwise the first large enough entry loses its first bytes; they become the first empty block slot,
      or they are lost if there is none. */
  lemma MallocExactly(h: HeapState, size: nat)
    ensures
      var r := Malloc(h, size);
      && (size == 0 || (forall i :: 0 <= i < |h.free| ==> h.free[i].size < size) ==> r == Outcome(h, 0, []))
      && (size > 0 && (exists i :: 0 <= i < |h.free| && h.free[i].size >= size) ==>
            exists i ::
              && 0 <= i < |h.free| && h.free[i].size >= size && (forall k :: 0 <= k < i ==> h.free[k].size < size)
              && r.state.free == h.free[i := Span(h.free[i].addr + size, h.free[i].size - size)]
              && TakesSlot(h.blocks, Span(h.free[i].addr, size), r))
  {
    var i, j := FirstFit(h.free, size, 0), FirstEmpty(h.blocks, 0);
    if size > 0 && i < |h.free| {
      var x := Span(h.free[i].addr, size);
      assert TakesSlot(h.blocks, x, Malloc(h, size)) by {
        assert j < |h.blocks| ==> h.blocks[j].size == 0;
      }
    }
  }

  /** The block goes to the first empty slot, or is lost. */
  predicate TakesSlot(blocks: seq<Span>, x: Span, r: Outcome) {
    if exists j :: 0 <= j < |blocks| && blocks[j].size == 0 then
      && r.addr == x.addr && r.lost == []
      && exists j :: && 0 <= j < |blocks| && blocks[j].size == 0 && (forall k :: 0 <= k < j ==> blocks[k].size > 0)
                     && r.state.blocks == blocks[j := x]
    else
      r.addr == 0 && r.lost == [x] && r.state.blocks == blocks
  }

  /** The entry ends where the block starts, or starts where it ends. */
  predicate Beside(y: Span, x: Span) {
    y.addr + y.size == x.addr || x.addr + x.size == y.addr
  }

  /** Exactly what giving a block back does. If entries lie beside it, the first of them grows to cover
      both, and every other entry stays; otherwise the first empty slot takes the block; without one
      nothing changes. */
  lemma GiveBackExactly(free: seq<Span>, x: Span)
    requires x.size > 0
    ensures
      var r := GiveBack(free, x);
      && ((exists i :: 0 <= i < |free| && Beside(free[i], x)) ==>
            exists i ::
              && 0 <= i < |free| && Beside(free[i], x) && (forall k :: 0 <= k < i ==> !Beside(free[k], x))
              && |r| == |free| && (forall k :: 0 <= k < |free| && k != i ==> r[k] == free[k])
              && r[i].addr == (if free[i].addr < x.addr then free[i].addr else x.addr)
              && r[i].size == free[i].size + x.size)
      && ((forall i :: 0 <= i < |free| ==> !Beside(free[i], x)) &&
          (exists j :: 0 <= j < |free| && free[j].size == 0) ==>
            exists j ::
              && 0 <= j < |free| && free[j].size == 0 && (forall k :: 0 <= k < j ==> free[k].size > 0)
              && r == free[j := x])
      && ((forall i :: 0 <= i < |free| ==> !Beside(free[i], x) && free[i].size > 0) ==> r == free)
  {
    var i, j := FirstTouching(free, x, 0), FirstEmpty(free, 0);
    assert forall y: Span :: Touches(x, y) <==> Beside(y, x);
    if i < |free| {
      assert Beside(free[i], x);
    } else if j < |free| {
      assert free[j].size == 0;
    }
  }

  /** Unless there is no room, the bytes of the block become free bytes. */
  lemma GiveBackMoves(free: seq<Span>, x: Span, b: nat)
    ensures NoRoom(free, x) ==> GiveBack(free, x) == free
    ensures !NoRoom(free, x) ==>
              && Cover(b, GiveBack(free, x)) == Cover(b, free) + In(b, x)
              && Total(GiveBack(free, x)) == Total(free) + x.size
  {
    hide Cover, Total, In, FirstTouching, FirstEmpty;
    var i, j := FirstTouching(free, x, 0), FirstEmpty(free, 0);
    if i < |free| {
      JoinEitherWay(b, x, free[i]);
      SlotGrows(free, i, x, if x.End() == free[i].addr then x.addr else free[i].addr, b);
    } else if j < |free| {
      NoBytes(b, free[j]);
      SlotGrows(free, j, x, x.addr, b);
    }
  }

  lemma JoinEitherWay(b: nat, x: Span, y: Span)
    requires Touches(x, y)
    ensures In(b, Span(if x.End() == y.addr then x.addr else y.addr, y.size + x.size)) == In(b, y) + In(b, x)
  {}

  lemma SlotGrows(s: seq<Span>, i: nat, x: Span, addr: nat, b: nat)
    requires i < |s| && In(b, Span(addr, s[i].size + x.size)) == In(b, s[i]) + In(b, x)
    ensures Cover(b, s[i := Span(addr, s[i].size + x.size)]) == Cover(b, s) + In(b, x)
    ensures Total(s[i := Span(addr, s[i].size + x.size)]) == Total(s) + x.size
  {
    hide Cover, Total, In;
    CoverUpdate(b, s, i, Span(addr, s[i].size + x.size));
    TotalUpdate(s, i, Span(addr, s[i].size + x.size));
  }

  /** free keeps the invariant; it loses bytes only when the free table is full, and then exactly
      the bytes of the block. */
  lemma FreeKeepsInv(base: nat, limit: nat, h: HeapState, lost: seq<Span>, addr: nat)
    requires Inv(base, limit, h, lost) && base <= addr < limit
    ensures Inv(base, limit, Free(h, addr).state, lost + Free(h, addr).lost)
  {
    hide Cover, Total, In, FirstAt, NoRoom, GiveBack, Owners;
    var slot := FirstAt(h.blocks, addr, 0);
    assert lost + [] == lost;
    if slot < |h.blocks| {
      var x := h.blocks[slot];
      InsideHeap(base, limit, h, lost, slot);
      FreeTotals(h, lost, addr);
      GiveBackBounds(h.free, x, limit);
      forall b: nat ensures Owners(Free(h, addr).state, lost + Free(h, addr).lost, b) == Owners(h, lost, b) {
        FreeOwners(h, lost, addr, b);
      }
    }
  }

  /** free moves bytes between the tables; it neither makes nor drops an owner. */
  lemma FreeOwners(h: HeapState, lost: seq<Span>, addr: nat, b: nat)
    ensures Owners(Free(h, addr).state, lost + Free(h, addr).lost, b) == Owners(h, lost, b)
  {
    hide Cover, In, FirstAt, NoRoom, GiveBack;
    assert lost + [] == lost;
    var slot := FirstAt(h.blocks, addr, 0);
    if slot < |h.blocks| {
      var x := h.blocks[slot];
      NoBytes(b, Span(0, 0));
      CoverUpdate(b, h.blocks, slot, Span(0, 0));
      GiveBackMoves(h.free, x, b);
      CoverAppend(b, lost, x);
    }
  }

  lemma FreeTotals(h: HeapState, lost: seq<Span>, addr: nat)
    ensures
      var r := Free(h, addr);
      Total(r.state.free) + Total(r.state.blocks) + Total(lost + r.lost) ==
      Total(h.free) + Total(h.blocks) + Total(lost)
  {
    hide Cover, In, Total, FirstAt, NoRoom, GiveBack;
    assert lost + [] == lost;
    var slot := FirstAt(h.blocks, addr, 0);
    if slot < |h.blocks| {
      var x := h.blocks[slot];
      TotalUpdate(h.blocks, slot, Span(0, 0));
      GiveBackMoves(h.free, x, 0);
      CoverAppend(0, lost, x);
    }
  }

  /** free loses bytes only when every free entry is in use and none touches the block, and then it
      loses exactly the bytes of that block. */
  lemma FreeLosesOnlyWhenFull(h: HeapState, addr: nat)
    requires Free(h, addr).lost != []
    ensures forall i :: 0 <= i < |h.free| ==> h.free[i].size > 0
    ensures exists slot :: && 0 <= slot < |h.blocks| && h.blocks[slot].addr == addr
                           && Free(h, addr).lost == [h.blocks[slot]]
                           && forall i :: 0 <= i < |h.free| ==> !Touches(h.blocks[slot], h.free[i])
  {
    var slot := FirstAt(h.blocks, addr, 0);
    assert NoRoom(h.free, h.blocks[slot]);
  }

  lemma GiveBackBounds(free: seq<Span>, x: Span, limit: nat)
    requires x.End() <= limit && forall i :: 0 <= i < |free| ==> free[i].End() <= limit
    ensures forall i :: 0 <= i < |free| ==> GiveBack(free, x)[i].End() <= limit
  {}

  /** free finds the slot of the block it is given, and only that slot: no other slot has its
      address, and the addresses of empty slots are outside the heap. */
  lemma FreePicksTheBlock(base: nat, limit: nat, h: HeapState, lost: seq<Span>, slot: nat)
    requires Inv(base, limit, h, lost)
    requires slot < |h.blocks| && h.blocks[slot].size > 0
    ensures FirstAt(h.blocks, h.blocks[slot].addr, 0) == slot
    ensures base <= h.blocks[slot].addr < limit
  {
    var addr := h.blocks[slot].addr;
    InsideHeap(base, limit, h, lost, slot);
    var found := FirstAt(h.blocks, addr, 0);
    assert found <= slot && h.blocks[found].size > 0;
    if found != slot {
      Separation(base, limit, h, lost, found, slot);
      assert false;
    }
  }

  /** Freeing the block just allocated restores the blocks and the free bytes, and loses nothing,
      even when the free table is full. */
  lemma FreeUndoesMalloc(base: nat, limit: nat, h: HeapState, lost: seq<Span>, size: nat)
    requires Inv(base, limit, h, lost) && Malloc(h, size).addr != 0
    ensures
      var r := Malloc(h, size);
      var r' := Free(r.state, r.addr);
      && r'.lost == []
      && r'.state.blocks == h.blocks
      && Total(r'.state.free) == Total(h.free)
      && forall b: nat :: Cover(b, r'.state.free) == Cover(b, h.free)
  {
    hide Cover, Total, In, Owners;
    var r := Malloc(h, size);
    var space, slot := FirstFit(h.free, size, 0), FirstEmpty(h.blocks, 0);
    var x := h.free[space];
    var rest, taken := Span(x.addr + size, x.size - size), Span(x.addr, size);
    MallocKeepsInv(base, limit, h, lost, size);
    FreePicksTheBlock(base, limit, r.state, lost + r.lost, slot);
    assert r.state.blocks[slot := Span(0, 0)] == h.blocks;
    assert Touches(taken, r.state.free[space]);
    assert !NoRoom(r.state.free, taken);
    hide FirstFit, FirstEmpty, FirstAt, FirstTouching, NoRoom, GiveBack, Inv, Touches;
    forall b: nat ensures Cover(b, GiveBack(r.state.free, taken)) == Cover(b, h.free) {
      GiveBackRestores(h.free, space, size, b);
    }
    GiveBackRestores(h.free, space, size, 0);
  }

  lemma GiveBackRestores(free: seq<Span>, i: nat, n: nat, b: nat)
    requires i < |free| && n <= free[i].size
    ensures
      var x := free[i];
      var shorter := free[i := Span(x.addr + n, x.size - n)];
      NoRoom(shorter, Span(x.addr, n)) ||
      (&& Cover(b, GiveBack(shorter, Span(x.addr, n))) == Cover(b, free)
       && Total(GiveBack(shorter, Span(x.addr, n))) == Total(free))
  {
    hide Cover, Total, In, NoRoom, GiveBack;
    var x := free[i];
    var rest := Span(x.addr + n, x.size - n);
    GiveBackMoves(free[i := rest], Span(x.addr, n), b);
    CoverUpdate(b, free, i, rest);
    TotalUpdate(free, i, rest);
    Cut(b, x, n);
  }
}
