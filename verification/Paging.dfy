/** map_page and find_physaddr (kernel/arch/x86_64/memory/paging.c) over the frame bitmap. */
module Paging {
  import opened Words
  import opened FrameBitmap
  import opened PageTree
  import opened PageMap
  import opened PageDemand

  /** What find_physaddr answers for an address whose last-level entry is known. */
  function Resolve(entry: nat, virt: nat): nat {
    if Present(entry) then Address(entry) + virt % 4096 else 0
  }

  class AddressSpace {
    const frames: Bitmap
    /** The physical address of the PML4, which is not part of the freemap. */
    const root: nat
    /** Table memory. The kernel reaches tables under their physical addresses. */
    var mem: map<nat, seq<nat>>
    ghost var tree: map<Node, nat>

    ghost function State(): Tables
      reads this
    {
      Tables(mem, tree)
    }

    ghost function Frames(): Ledger
      requires frames.Valid()
      reads frames.words
    {
      Ledger(frames.Used(), frames.Free(), frames.Queue())
    }

    ghost predicate Valid()
      reads this, frames.words
    {
      frames.Valid() && Sound(root, State(), Frames())
    }

    /** Clearing the PML4, as init_paging does. */
    constructor (frames: Bitmap, root: nat)
      requires frames.Valid() && root !in frames.All()
      ensures Valid() && this.frames == frames && this.root == root
      ensures tree == map[Root := root]
      ensures forall w :: 0 <= w < 0x10_0000_0000 ==> Leaf(State(), w) == 0
    {
      this.frames, this.root := frames, root;
      mem := map[root := Cleared()];
      tree := map[Root := root];
      new;
      frames.Partition();
    }

    /** phys_page_alloc */
    method AllocFrame() returns (frame: nat)
      requires frames.Valid()
      modifies frames.words
      ensures frames.Valid()
      ensures frame == 0 ==> Frames() == old(Frames()) && Frames().free == {} && Frames().queue == []
      ensures frame != 0 ==> FrameOk(frame) && Draws(old(Frames()), Frames(), {frame})
    {
      hide UsedFrames, FreeFrames, FreeQueue, Draws, FrameList;
      frames.Partition();
      ghost var l := Frames();
      frame := frames.Alloc();
      if frame == 0 {
        QueueEmpty(l);
      } else {
        DrawsHead(l, Frames(), frame);
      }
    }

    /** find_physaddr: the walk answers what the last-level entry of the page says. */
    method FindPhysAddr(virt: nat) returns (phys: nat)
      requires IsTree(root, State())
      ensures phys == Resolve(Leaf(State(), Page(virt)), virt)
    {
      hide And, Shr;
      ghost var w, s := Page(virt), State();
      IndexIsShift(virt);
      var pml4Idx := And(Shr(virt, 39), 0x1FF);
      var pdptIdx := And(Shr(virt, 30), 0x1FF);
      var pdIdx := And(Shr(virt, 21), 0x1FF);
      var ptIdx := And(Shr(virt, 12), 0x1FF);
      if Path(w, 3) in tree {
        PathClosed(root, s, w, 1);
        PathClosed(root, s, w, 2);
      }
      assert TableOk(s, Root) && LinkOk(s, Path(w, 0), Index(w, 0));
      if !Present(mem[root][pml4Idx]) {
        return 0;
      }
      var pdpt := Address(mem[root][pml4Idx]);
      assert TableOk(s, Path(w, 1)) && LinkOk(s, Path(w, 1), Index(w, 1));
      if !Present(mem[pdpt][pdptIdx]) {
        return 0;
      }
      var pd := Address(mem[pdpt][pdptIdx]);
      assert TableOk(s, Path(w, 2)) && LinkOk(s, Path(w, 2), Index(w, 2));
      if !Present(mem[pd][pdIdx]) {
        return 0;
      }
      var pt := Address(mem[pd][pdIdx]);
      assert TableOk(s, Path(w, 3));
      if !Present(mem[pt][ptIdx]) {
        return 0;
      }
      return Address(mem[pt][ptIdx]) + virt % 4096;
    }

    /** map_page. `ok` is false when phys_page_alloc ran out of frames; the source does not check
        for that, and the model stops there. Frames drawn by the call are exactly its new tables; `cs`
        lists the moments at which they were cleared. */
    method MapPage(phys: nat, virt: nat) returns (ok: bool, ghost cs: seq<Clearing>)
      requires Valid()
      modifies this, frames.words
      ensures Valid()
      ensures phys % 4096 != 0 || virt % 4096 != 0 ==>
                ok && State() == old(State()) && frames.words[..] == old(frames.words[..])
      ensures phys % 4096 == 0 && virt % 4096 == 0 ==>
                && Maps(old(State()), State(), Entry(phys), Page(virt), ok)
                && Needs(old(State()), Page(virt), old(Frames()).queue, |NewFrames(old(State()), State())|)
      ensures Draws(old(Frames()), Frames(), NewFrames(old(State()), State()))
      ensures Clears(old(State()), old(Frames()), State(), cs)
      ensures !ok ==> Frames().free == {} && Frames().queue == []
      decreases Frames().free, 1
    {
      hide Grows, Maps, Draws, Sound, IsTree, NewFrames, UsedFrames, FreeFrames, FreeQueue, Index, Needs, And, Shr,
           Clears;
      ghost var s0, l0 := State(), Frames();
      DrawsNothing(l0, s0);
      ClearsNothing(s0, l0);
      if phys % 4096 != 0 || virt % 4096 != 0 {
        return true, [];
      }
      ghost var w := Page(virt);
      IndexIsShift(virt);
      SoundRoot(root, s0, l0);
      var pml4Idx := And(Shr(virt, 39), 0x1FF);
      var pdptIdx := And(Shr(virt, 30), 0x1FF);
      var pdIdx := And(Shr(virt, 21), 0x1FF);
      var ptIdx := And(Shr(virt, 12), 0x1FF);

      var pdpt, pd, pt;
      ghost var ds;
      ok, pdpt, cs := Descend(root, pml4Idx, Path(w, 0), w);
      ghost var s1, l1 := State(), Frames();
      if !ok {
        FailedWalk(s0, s1, Entry(phys), w);
        return;
      }
      DrawsShrinks(l0, l1, NewFrames(s0, s1));
      ok, pd, ds := Descend(pdpt, pdptIdx, Path(w, 1), w);
      ghost var s2, l2 := State(), Frames();
      ClearsCompose(s0, l0, s1, l1, s2, w, cs, ds, ok);
      cs := cs + ds;
      StepsCompose(root, s0, l0, s1, l1, s2, l2, w, ok);
      if !ok {
        FailedWalk(s0, s2, Entry(phys), w);
        return;
      }
      DrawsShrinks(l0, l2, NewFrames(s0, s2));
      ok, pt, ds := Descend(pd, pdIdx, Path(w, 2), w);
      ghost var s3, l3 := State(), Frames();
      ClearsCompose(s0, l0, s2, l2, s3, w, cs, ds, ok);
      cs := cs + ds;
      StepsCompose(root, s0, l0, s2, l2, s3, l3, w, ok);
      if !ok {
        FailedWalk(s0, s3, Entry(phys), w);
        return;
      }
      SoundIsTree(root, s3, l3);
      GrowsThenSet(root, s0, s3, w, Entry(phys));
      ClearedOnce(s0, l0, s3, SetLeaf(s3, w, Entry(phys)), cs);
      SetLeafKeepsSound(root, s3, l3, w, Entry(phys));
      mem := mem[pt := Store(mem[pt], ptIdx, Entry(phys))];
      assert State() == SetLeaf(s3, w, Entry(phys));
    }

    /** One level of map_page: if entry `idx` of a table is not present, a frame is allocated,
        cleared, hung up there and mapped to itself; the table behind the entry is returned. */
    method Descend(table: nat, idx: nat, ghost n: Node, ghost w: nat)
      returns (ok: bool, next: nat, ghost cs: seq<Clearing>)
      requires Valid() && w < 0x10_0000_0000
      requires n in tree && tree[n] == table && Depth(n) < 3 && idx < 512
      requires Child(n, idx) == Path(w, Depth(n) + 1)
      modifies this, frames.words
      ensures Valid()
      ensures Grows(old(State()), State(), w, ok)
      ensures Needs(old(State()), w, old(Frames()).queue, |NewFrames(old(State()), State())|)
      ensures ok ==> Child(n, idx) in tree && tree[Child(n, idx)] == next
      ensures Draws(old(Frames()), Frames(), NewFrames(old(State()), State()))
      ensures Clears(old(State()), old(Frames()), State(), cs)
      ensures !ok ==> Frames().free == {} && Frames().queue == []
      decreases Frames().free, 0
    {
      hide Grows, Maps, Draws, Sound, Needs, UsedFrames, FreeFrames, FreeQueue, NewFrames, Clears;
      ghost var s0, l0 := State(), Frames();
      SoundLink(root, s0, l0, n, idx);
      GrowsReflexive(s0, w);
      DrawsNothing(l0, s0);
      NeedsNothing(s0, w, l0.queue);
      ClearsNothing(s0, l0);
      cs := [];
      if !Present(mem[table][idx]) {
        var page := AllocFrame();
        if page == 0 {
          NoFrameLeft(s0, n, idx, w);
          return false, 0, [];
        }
        ghost var l1 := Frames();
        DrawsShrinks(l0, l1, {page});
        HungUp(root, s0, l0, l1, n, idx, page);
        mem := mem[page := Cleared()];
        mem := mem[table := Store(mem[table], idx, Entry(page))];
        tree := tree[Child(n, idx) := page];
        ghost var s1 := State();
        assert s1 == Link(s0, n, idx, page);
        ok, cs := MapPage(page, page);
        ghost var s2 := State();
        LinkThenMap(root, s0, n, idx, page, s2, w, ok);
        LinkStep(s0, n, idx, w, l0, l1, Frames(), page, s2);
        ClearsLink(root, s0, l0, l1, n, idx, page, s2, cs);
        cs := [Clearing(s0, page)] + cs;
        if !ok {
          return false, 0, cs;
        }
        SoundLink(root, s2, Frames(), n, idx);
      }
      ok, next := true, Address(mem[table][idx]);
    }
  }
}
