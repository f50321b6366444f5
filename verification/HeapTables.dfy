/** The heap allocator as the source runs it: search loops over two fixed tables that are changed in
    place (kernel/memory/memory.c:17-41, 72-125, 208-224), proved against Heap, HeapPages,
    Coalesce and RefreshExact. */
module HeapTables {
  import opened Spans
  import opened Heap
  import opened HeapPages
  import opened Coalesce
  import opened RefreshExact

  class Table {
    const base: nat
    const limit: nat
    const free: array<Span>
    const blocks: array<Span>
    /** The byte ranges no table accounts for any more. */
    ghost var lost: seq<Span>

    ghost function State(): HeapState
      reads free, blocks
    {
      HeapState(free[..], blocks[..])
    }

    ghost predicate Valid()
      reads this, free, blocks
    {
      && free != blocks
      && 4096 <= base && limit < 0x8000_0000_0000_0000
      && Inv(base, limit, State(), lost)
    }

    /** init_malloc, for one heap, on zeroed tables of n slots each. */
    constructor (base: nat, limit: nat, n: nat)
      requires 4096 <= base <= limit < 0x8000_0000_0000_0000 && n > 0
      ensures Valid() && fresh(free) && fresh(blocks)
      ensures this.base == base && this.limit == limit
      ensures State() == Initial(base, limit, n) && lost == []
    {
      hide Inv;
      this.base, this.limit := base, limit;
      var f := new Span[n](_ => Span(0, 0));
      var a := new Span[n](_ => Span(0, 0));
      f[0] := Span(base, limit - base);
      free, blocks, lost := f, a, [];
      new;
      assert blocks[..] == seq(n, _ => Span(0, 0));
      assert free[..] == seq(n, _ => Span(0, 0))[0 := Span(base, limit - base)];
      InitialInv(base, limit, n);
    }

    /** malloc_heap up to the entry in the block table. */
    method Reserve(size: nat) returns (addr: nat)
      requires Valid()
      modifies this, free, blocks
      ensures Valid()
      ensures State() == Malloc(old(State()), size).state
      ensures addr == Malloc(old(State()), size).addr
      ensures lost == old(lost) + Malloc(old(State()), size).lost
    {
      ghost var h := State();
      MallocKeepsInv(base, limit, h, lost, size);
      hide Inv;
      lost := lost + Malloc(h, size).lost;
      if size == 0 {
        return 0;
      }
      var space := 0;
      while space < free.Length && free[space].size < size
        invariant space <= free.Length
        invariant FirstFit(free[..], size, 0) == FirstFit(free[..], size, space)
      {
        space := space + 1;
      }
      if space == free.Length {
        return 0;
      }
      addr := free[space].addr;
      free[space] := Span(addr + size, free[space].size - size);
      assert free[..] == h.free[space := free[space]];
      var slot := 0;
      while slot < blocks.Length && blocks[slot].size != 0
        invariant slot <= blocks.Length
        invariant FirstEmpty(blocks[..], 0) == FirstEmpty(blocks[..], slot)
      {
        slot := slot + 1;
      }
      if slot == blocks.Length {
        return 0;
      }
      blocks[slot] := Span(addr, size);
      assert blocks[..] == h.blocks[slot := Span(addr, size)];
    }

    /** The two loops of free that give a block back to the free table. */
    method Return(x: Span) returns (returned: bool)
      requires free != blocks
      modifies free
      ensures free[..] == GiveBack(old(free[..]), x)
      ensures returned <==> !NoRoom(old(free[..]), x)
    {
      ghost var f := free[..];
      var i := 0;
      while i < free.Length
        invariant i <= free.Length && free[..] == f
        invariant FirstTouching(f, x, 0) == FirstTouching(f, x, i)
      {
        if x.End() == free[i].addr {
          free[i] := Span(x.addr, free[i].size + x.size);
          assert free[..] == f[i := free[i]];
          return true;
        }
        if x.addr == free[i].End() {
          free[i] := Span(free[i].addr, free[i].size + x.size);
          assert free[..] == f[i := free[i]];
          return true;
        }
        i := i + 1;
      }
      i := 0;
      while i < free.Length
        invariant i <= free.Length && free[..] == f
        invariant FirstEmpty(f, 0) == FirstEmpty(f, i)
      {
        if free[i].size == 0 {
          free[i] := x;
          assert free[..] == f[i := x];
          return true;
        }
        i := i + 1;
      }
      returned := false;
    }

    /** The page-sharing test of free over the block table. */
    method Shared(x: Span) returns (sused: bool, eused: bool)
      requires x.size > 0
      ensures sused <==> SharesFirst(blocks[..], x)
      ensures eused <==> SharesLast(blocks[..], x)
    {
      sused, eused := false, false;
      for i := 0 to blocks.Length
        invariant sused <==> exists k :: 0 <= k < i && x.addr / 4096 == LastByte(blocks[k]) / 4096
        invariant eused <==> exists k :: 0 <= k < i && (x.End() - 1) / 4096 == blocks[k].addr / 4096
      {
        if x.addr / 4096 == LastByte(blocks[i]) / 4096 {
          sused := true;
        }
        if (x.End() - 1) / 4096 == blocks[i].addr / 4096 {
          eused := true;
        }
      }
    }

    /** The page release at the end of free, as the list of addresses it looks up. */
    method Pages(x: Span) returns (pages: seq<nat>)
      requires x.size > 0
      ensures pages == ReleaseList(blocks[..], x)
    {
      hide SharesFirst, SharesLast;
      var sused, eused := Shared(x);
      pages := (if sused then [] else [x.addr]) + (if eused then [] else [x.End() - 1]);
      var count := (x.End() + 4095) / 4096 - x.addr / 4096;
      ghost var start := pages;
      var i := 1;
      while i < count - 1
        invariant 1 <= i && (count >= 2 ==> i <= count - 1) && (count < 2 ==> i == 1)
        invariant pages == start + Interior(x)[..i - 1]
      {
        pages := pages + [x.addr + i * 4096];
        i := i + 1;
      }
      assert Interior(x)[..i - 1] == Interior(x);
    }

    /** free, for an address of this heap. The result lists the virtual addresses whose frames are
        handed to phys_page_free. */
    method Release(addr: nat) returns (pages: seq<nat>)
      requires Valid() && base <= addr < limit
      modifies this, free, blocks
      ensures Valid()
      ensures State() == Free(old(State()), addr).state
      ensures lost == old(lost) + Free(old(State()), addr).lost
      ensures pages == FreedPages(old(State()), addr)
    {
      ghost var h := State();
      FreeKeepsInv(base, limit, h, lost, addr);
      lost := lost + Free(h, addr).lost;
      var slot := 0;
      while slot < blocks.Length && addr != blocks[slot].addr
        invariant slot <= blocks.Length
        invariant FirstAt(blocks[..], addr, 0) == FirstAt(blocks[..], addr, slot)
      {
        slot := slot + 1;
      }
      if slot == blocks.Length {
        return [];
      }
      assert h.blocks[slot].size > 0;
      hide Inv, GiveBack, NoRoom, ReleaseList, FirstAt;
      var x := blocks[slot];
      blocks[slot] := Span(0, 0);
      assert blocks[..] == h.blocks[slot := Span(0, 0)];
      var returned := Return(x);
      if !returned {
        return [];
      }
      pages := Pages(x);
    }

    /** The nested loops of refresh_freespace, for one heap. */
    method Combine()
      modifies free
      ensures free[..] == Pass(old(free[..]), 0)
    {
      for j := 0 to free.Length
        invariant Pass(old(free[..]), 0) == Pass(free[..], j)
      {
        ghost var s := free[..];
        var end := free[j].End();
        for k := 0 to free.Length
          invariant Inner(s, j, end, 0) == Inner(free[..], j, end, k)
        {
          if free[k].addr == end {
            ghost var before := free[..];
            free[j] := Span(free[j].addr, free[j].size + free[k].size);
            free[k] := Span(0, 0);
            assert free[..] == Absorb(before, j, k);
          }
        }
      }
    }

    /** refresh_freespace, for one heap: the heap stays valid exactly if its free table was safe. */
    method Refresh()
      requires Valid()
      modifies free
      ensures State() == Refreshed(old(State()))
      ensures Valid() <==> Safe(old(free[..]))
    {
      hide Inv, Safe, Pass;
      RefreshKeepsInvIff(base, limit, State(), lost);
      Combine();
    }
  }
}
