/** What callers can rely on after one map_page call and after whole runs of calls
    (kernel/arch/x86_64/memory/paging.c). */
module PageRuns {
  import opened FrameBitmap
  import opened Words
  import opened PageTree
  import opened PageMap
  import opened PageDemand
  import opened Paging

  // ----- one call -----

  lemma SamePage(virt: nat, off: nat)
    requires virt % 4096 == 0 && off < 4096
    ensures Page(virt + off) == Page(virt) && (virt + off) % 4096 == off
  {
    assert (virt + off) / 4096 == virt / 4096;
  }

  /** What find_physaddr answers. */
  ghost function Lookup(s: Tables, virt: nat): nat {
    Resolve(Leaf(s, Page(virt)), virt)
  }

  /** After a successful call every byte of the page resolves to the same byte of the frame, up to
      the 52 address bits an entry can hold. */
  lemma MappedPageResolves(s: Tables, t: Tables, phys: nat, virt: nat, off: nat)
    requires phys % 4096 == 0 && virt % 4096 == 0 && off < 4096
    requires Maps(s, t, Entry(phys), Page(virt), true)
    ensures Lookup(t, virt + off) == phys % 0x10_0000_0000_0000 + off
    ensures Lookup(t, virt + off) == phys + off <==> phys < 0x10_0000_0000_0000
  {
    SamePage(virt, off);
    EntryFields(phys);
    AlignedAddress(phys);
    assert Leaf(t, Page(virt)) == Entry(phys);
    hide Maps, Page, Leaf, Entry, Address, Present;
  }

  lemma AlignedAddress(phys: nat)
    requires phys % 4096 == 0
    ensures Address(phys) == phys % 0x10_0000_0000_0000
    ensures phys % 0x10_0000_0000_0000 == phys <==> phys < 0x10_0000_0000_0000
  {
    var q, h, m := phys / 4096, phys / 0x10_0000_0000_0000, phys % 0x10_0000_0000_0000;
    assert phys == 4096 * q && m == phys - 0x10_0000_0000_0000 * h;
    assert m == 4096 * (q - 0x100_0000_0000 * h);
  }

  lemma SelfEntry(v: nat)
    requires v < 0x10_0000_0000
    ensures Page(v * 4096) == v
    ensures Present(Entry(v * 4096)) && Address(Entry(v * 4096)) == v * 4096
  {
    EntryFields(v * 4096);
  }

  /** Every other page resolves as before, except that new tables resolve to themselves. */
  lemma OtherPagesResolve(s: Tables, t: Tables, entry: nat, w: nat, virt: nat)
    requires w < 0x10_0000_0000 && Maps(s, t, entry, w, true) && Page(virt) != w
    ensures Lookup(t, virt) ==
            if Page(virt) * 4096 in NewFrames(s, t) then Page(virt) * 4096 + virt % 4096 else Lookup(s, virt)
  {
    var v := Page(virt);
    SelfEntry(v);
    hide Page, Entry, Present, Address, NewFrames, Leaf, Extends;
    assert Keeps(s, t, v);
    if v * 4096 in NewFrames(s, t) {
      assert SelfMapped(t, v * 4096);
    }
  }

  // ----- tables that are not mapped to themselves -----

  ghost predicate IsTable(s: Tables, f: nat) {
    exists n :: n in s.tree && n != Root && s.tree[n] == f
  }

  /** The tables that do not resolve under their own address yet. */
  ghost function Pending(s: Tables): set<nat> {
    set n | n in s.tree && n != Root && !SelfMapped(s, s.tree[n]) :: s.tree[n]
  }

  /** The state a nested call starts from has one more pending table at most: the frame just hung
      up, which is the one the nested call maps. */
  lemma NestedCallStart(root: nat, s: Tables, n: Node, i: nat, f: nat)
    requires IsTree(root, s) && n in s.tree && Depth(n) < 3 && i < 512 && Child(n, i) !in s.tree
    requires FrameOk(f) && forall m :: m in s.tree ==> s.tree[m] != f
    ensures TableOk(s, n)
    ensures Pending(Link(s, n, i, f)) == Pending(s) + (if SelfMapped(s, f) then {} else {f})
  {
    assert TableOk(s, n);
    var t := Link(s, n, i, f);
    hide TableOk, Leaf, Page, Entry, FrameOk;
    forall g ensures SelfMapped(t, g) == SelfMapped(s, g) {
      LinkKeepsLeaves(root, s, n, i, f, Page(g));
    }
    assert t.tree[Child(n, i)] == f;
    forall g | g in Pending(s) ensures g in Pending(t) {
      var m :| m in s.tree && m != Root && !SelfMapped(s, s.tree[m]) && s.tree[m] == g;
      assert m in t.tree && t.tree[m] == g;
    }
    forall g | g in Pending(t) ensures g in Pending(s) + (if SelfMapped(s, f) then {} else {f}) {
      var m :| m in t.tree && m != Root && !SelfMapped(t, t.tree[m]) && t.tree[m] == g;
      assert m == Child(n, i) || (m in s.tree && s.tree[m] == g);
    }
  }

  /** Exactly what a successful call does to the pending tables: the mapped address leaves the set,
      and a table is newly pending only if the caller mapped its address somewhere else. */
  lemma PendingAfterMap(root: nat, s: Tables, t: Tables, phys: nat, w: nat)
    requires w < 0x10_0000_0000 && IsTree(root, s) && IsTree(root, t)
    requires forall n :: n in t.tree && n != Root ==> FrameOk(t.tree[n])
    requires Maps(s, t, Entry(phys), w, true)
    ensures Pending(t) == Pending(s) - {w * 4096} +
                          (if IsTable(t, w * 4096) && Entry(phys) != Entry(w * 4096) then {w * 4096} else {})
  {
    hide IsTree, SelfMapped, Entry, Keeps, FrameOk, Pending;
    forall n | n in t.tree && n != Root
      ensures SelfMapped(t, t.tree[n]) <==>
              if t.tree[n] == w * 4096 then Entry(phys) == Entry(w * 4096)
              else n in s.tree ==> SelfMapped(s, t.tree[n])
    {
      TableAfterMap(root, s, t, phys, w, n);
    }
    PendingFromTables(s, t, w * 4096, Entry(phys) == Entry(w * 4096));
  }

  lemma PendingFromTables(s: Tables, t: Tables, a: nat, same: bool)
    requires forall n :: n in s.tree ==> n in t.tree && t.tree[n] == s.tree[n]
    requires forall n :: n in t.tree && n != Root ==>
               (SelfMapped(t, t.tree[n]) <==> if t.tree[n] == a then same else n in s.tree ==> SelfMapped(s, t.tree[n]))
    ensures Pending(t) == Pending(s) - {a} + (if IsTable(t, a) && !same then {a} else {})
  {
    hide SelfMapped;
    forall f | f in Pending(s) && f != a ensures f in Pending(t) {
      var n :| n in s.tree && n != Root && !SelfMapped(s, s.tree[n]) && s.tree[n] == f;
      assert n in t.tree && t.tree[n] == f;
    }
    forall f | f in Pending(t) && f != a ensures f in Pending(s) {
      var n :| n in t.tree && n != Root && !SelfMapped(t, t.tree[n]) && t.tree[n] == f;
      assert n in s.tree && s.tree[n] == f;
    }
    assert a in Pending(t) <==> IsTable(t, a) && !same;
  }

  lemma TableAfterMap(root: nat, s: Tables, t: Tables, phys: nat, w: nat, n: Node)
    requires w < 0x10_0000_0000 && IsTree(root, t) && Maps(s, t, Entry(phys), w, true)
    requires n in t.tree && n != Root && FrameOk(t.tree[n])
    ensures SelfMapped(t, t.tree[n]) <==>
            if t.tree[n] == w * 4096 then Entry(phys) == Entry(w * 4096)
            else n in s.tree ==> SelfMapped(s, t.tree[n])
  {
    var f := t.tree[n];
    FrameIsPage(f);
    if f == w * 4096 {
      assert Page(f) == w;
    } else {
      assert Keeps(s, t, Page(f));
      if n in s.tree {
        assert f !in NewFrames(s, t);
      } else {
        assert f in NewFrames(s, t);
      }
    }
  }

  // ----- runs -----

  /** The memory manager between two calls. */
  datatype Machine = Machine(tables: Tables, frames: Ledger)

  /** Map is a map_page call; Take is a phys_page_alloc call by anyone else. */
  datatype Op = Map(phys: nat, virt: nat) | Take(frame: nat)

  predicate Aligned(op: Op) {
    op.Map? && op.phys % 4096 == 0 && op.virt % 4096 == 0
  }

  /** What one call that does not run out of frames does: the contracts of MapPage and AllocFrame. */
  ghost predicate Step(m: Machine, op: Op, m': Machine) {
    && (Aligned(op) ==>
          && Maps(m.tables, m'.tables, Entry(op.phys), Page(op.virt), true)
          && Draws(m.frames, m'.frames, NewFrames(m.tables, m'.tables)))
    && (op.Map? && !Aligned(op) ==> m' == m)
    && (op.Take? ==>
          && m'.tables == m.tables
          && (m'.frames == m.frames || Draws(m.frames, m'.frames, {op.frame})))
  }

  /** A run of calls after the PML4 was cleared. */
  ghost predicate IsRun(root: nat, ops: seq<Op>, ms: seq<Machine>) {
    && |ms| == |ops| + 1
    && ms[0].tables.tree == map[Root := root]
    && (forall w :: 0 <= w < 0x10_0000_0000 ==> Leaf(ms[0].tables, w) == 0)
    && (forall i :: 0 <= i < |ops| ==> Step(ms[i], ops[i], ms[i + 1]))
  }

  /** The flat specification of the page tables: the entry of the last call for a page, if any. */
  function LastEntry(ops: seq<Op>, w: nat): nat {
    if ops == [] then 0
    else
      var op := ops[|ops| - 1];
      if Aligned(op) && Page(op.virt) == w then Entry(op.phys) else LastEntry(ops[..|ops| - 1], w)
  }

  /** No call maps the address of a frame of the freemap to another frame. */
  predicate Polite(ops: seq<Op>, frames: set<nat>) {
    forall i :: 0 <= i < |ops| && Aligned(ops[i]) && Page(ops[i].virt) * 4096 in frames ==>
      Entry(ops[i].phys) == Entry(Page(ops[i].virt) * 4096)
  }

  /** The entry every page should have: tables are mapped to themselves, every other page as the
      last call for it said. */
  ghost function Expected(s: Tables, ops: seq<Op>, w: nat): nat {
    if IsTable(s, w * 4096) then Entry(w * 4096) else LastEntry(ops, w)
  }

  lemma StepKeepsExpected(m: Machine, op: Op, m': Machine, ops: seq<Op>, w: nat)
    requires w < 0x10_0000_0000
    requires Step(m, op, m') && Root in m.tables.tree
    requires Aligned(op) && IsTable(m'.tables, Page(op.virt) * 4096) ==>
               Entry(op.phys) == Entry(Page(op.virt) * 4096)
    requires Leaf(m.tables, w) == Expected(m.tables, ops, w)
    ensures Leaf(m'.tables, w) == Expected(m'.tables, ops + [op], w)
  {
    assert (ops + [op])[..|ops|] == ops;
    SelfEntry(w);
    hide Page, Entry, Leaf, Draws, Keeps, IsTable;
    if Aligned(op) && Page(op.virt) != w {
      EntryAfterMap(m.tables, m'.tables, Entry(op.phys), Page(op.virt), w);
    }
  }

  /** A page other than the one mapped keeps its entry unless its address became a table. */
  lemma EntryAfterMap(s: Tables, t: Tables, entry: nat, v: nat, w: nat)
    requires v < 0x10_0000_0000 && w < 0x10_0000_0000 && v != w && Maps(s, t, entry, v, true) && Root in s.tree
    ensures IsTable(t, w * 4096) ==> IsTable(s, w * 4096) || Leaf(t, w) == Entry(w * 4096)
    ensures IsTable(s, w * 4096) ==> IsTable(t, w * 4096)
    ensures Leaf(t, w) == Leaf(s, w) || (IsTable(t, w * 4096) && Leaf(t, w) == Entry(w * 4096))
  {
    SelfEntry(w);
    hide Page, Entry, Leaf, Wanted, FrameOk;
    assert Keeps(s, t, w);
    if w * 4096 in NewFrames(s, t) {
      var n :| n in t.tree && n !in s.tree && t.tree[n] == w * 4096;
      assert SelfMapped(t, w * 4096) && n != Root;
    }
    if IsTable(t, w * 4096) && !IsTable(s, w * 4096) {
      var n :| n in t.tree && n != Root && t.tree[n] == w * 4096;
      assert n !in s.tree && w * 4096 in NewFrames(s, t);
    }
  }

  /** In every state of every run the managed frames are the same, and every table below the PML4 is a
      used one of them. */
  lemma {:induction false} FramesStay(root: nat, ops: seq<Op>, ms: seq<Machine>, i: nat)
    requires IsRun(root, ops, ms) && i <= |ops|
    ensures ms[i].frames.used + ms[i].frames.free == ms[0].frames.used + ms[0].frames.free
    ensures Root in ms[i].tables.tree
    ensures forall n :: n in ms[i].tables.tree && n != Root ==>
              ms[i].tables.tree[n] in ms[i].frames.used && FrameOk(ms[i].tables.tree[n])
    ensures ms[0].frames.used !! ms[0].frames.free ==> ms[i].frames.used !! ms[i].frames.free
  {
    hide Leaf, Keeps, Wanted, SelfMapped;
    if i > 0 {
      FramesStay(root, ops, ms, i - 1);
      assert Step(ms[i - 1], ops[i - 1], ms[i]);
      TablesStayUsed(ms[i - 1], ops[i - 1], ms[i]);
    }
  }

  lemma TablesStayUsed(m: Machine, op: Op, m': Machine)
    requires Step(m, op, m') && Root in m.tables.tree
    requires forall n :: n in m.tables.tree && n != Root ==>
               m.tables.tree[n] in m.frames.used && FrameOk(m.tables.tree[n])
    ensures m'.frames.used + m'.frames.free == m.frames.used + m.frames.free && Root in m'.tables.tree
    ensures forall n :: n in m'.tables.tree && n != Root ==>
              m'.tables.tree[n] in m'.frames.used && FrameOk(m'.tables.tree[n])
    ensures m.frames.used !! m.frames.free ==> m'.frames.used !! m'.frames.free
  {
    hide Leaf, Keeps, Wanted, SelfMapped, Entry, Page, FrameOk;
    forall n | n in m'.tables.tree && n != Root
      ensures m'.tables.tree[n] in m'.frames.used && FrameOk(m'.tables.tree[n])
    {
      if n !in m.tables.tree {
        assert m'.tables.tree[n] in NewFrames(m.tables, m'.tables);
      }
    }
  }

  /** In a run of map_page calls alone, every frame that was free at the start and is not free any more
      is a table. */
  lemma {:induction false} DrawnAreTables(root: nat, ops: seq<Op>, ms: seq<Machine>, i: nat, f: nat)
    requires IsRun(root, ops, ms) && i <= |ops| && forall j :: 0 <= j < |ops| ==> ops[j].Map?
    requires f in ms[0].frames.free && f !in ms[i].frames.free
    ensures IsTable(ms[i].tables, f)
  {
    hide Leaf, Keeps, Wanted, SelfMapped, FrameOk;
    if i > 0 {
      assert Step(ms[i - 1], ops[i - 1], ms[i]);
      FramesStay(root, ops, ms, i - 1);
      var s, t := ms[i - 1].tables, ms[i].tables;
      if f in ms[i - 1].frames.free {
        assert f in NewFrames(s, t);
        var n :| n in t.tree && n !in s.tree && t.tree[n] == f;
        assert n != Root;
      } else {
        DrawnAreTables(root, ops, ms, i - 1, f);
        var n :| n in s.tree && n != Root && s.tree[n] == f;
        assert t.tree[n] == f;
      }
    }
  }

  /** In every run in which no caller maps a freemap address elsewhere, the four-level tables
      implement the flat specification: at any moment each table is mapped to itself and every
      other page has the entry of the last call for it. */
  lemma {:induction false} RunImplementsFlatMap(root: nat, ops: seq<Op>, ms: seq<Machine>, w: nat)
    requires IsRun(root, ops, ms) && w < 0x10_0000_0000
    requires Polite(ops, ms[0].frames.used + ms[0].frames.free)
    ensures Leaf(ms[|ops|].tables, w) == Expected(ms[|ops|].tables, ops, w)
  {
    var k := |ops| - 1;
    if ops == [] {
      assert !IsTable(ms[0].tables, w * 4096);
    } else {
      var init, op := ops[..k], ops[k];
      assert IsRun(root, init, ms[..k + 1]) by {
        forall i | 0 <= i < k ensures Step(ms[..k + 1][i], init[i], ms[..k + 1][i + 1]) {
          assert Step(ms[i], ops[i], ms[i + 1]);
        }
      }
      RunImplementsFlatMap(root, init, ms[..k + 1], w);
      FramesStay(root, ops, ms, k);
      FramesStay(root, ops, ms, k + 1);
      assert Step(ms[k], op, ms[k + 1]);
      StepKeepsExpected(ms[k], op, ms[k + 1], init, w);
      assert init + [op] == ops;
    }
  }

  lemma RunExtends(root: nat, ops: seq<Op>, ms: seq<Machine>, op: Op, m: Machine)
    requires IsRun(root, ops, ms) && Step(ms[|ops|], op, m)
    ensures IsRun(root, ops + [op], ms + [m])
  {
    hide Step, Sound, Leaf;
    var ops', ms' := ops + [op], ms + [m];
    forall i | 0 <= i < |ops'| ensures Step(ms'[i], ops'[i], ms'[i + 1]) {
      if i < |ops| {
        assert Step(ms[i], ops[i], ms[i + 1]);
      }
    }
  }

  datatype Call = MapCall(phys: nat, virt: nat) | AllocCall

  predicate Records(call: Call, op: Op) {
    match call
    case MapCall(phys, virt) => op == Map(phys, virt)
    case AllocCall => op.Take?
  }

  /** Any sequence of calls on a freshly cleared PML4 is a run, as long as frames last, and in each of
      its states the tables form a tree of used frames. */
  method Execute(space: AddressSpace, calls: seq<Call>) returns (ok: bool, ghost ops: seq<Op>, ghost ms: seq<Machine>)
    requires space.Valid() && space.tree == map[Root := space.root]
    requires forall w :: 0 <= w < 0x10_0000_0000 ==> Leaf(space.State(), w) == 0
    modifies space, space.frames.words
    ensures space.Valid()
    ensures ok ==>
              && IsRun(space.root, ops, ms) && |ops| == |calls|
              && ms[0] == old(Machine(space.State(), space.Frames()))
              && ms[|ops|] == Machine(space.State(), space.Frames())
              && (forall i :: 0 <= i < |ops| ==> Records(calls[i], ops[i]))
              && (forall i :: 0 <= i < |ms| ==>
                    Sound(space.root, ms[i].tables, ms[i].frames) && PointersSet(ms[i].tables))
    ensures !ok ==> space.Frames().free == {}
  {
    ok, ops, ms := true, [], [Machine(space.State(), space.Frames())];
    assert IsRun(space.root, ops, ms) && Sound(space.root, ms[0].tables, ms[0].frames);
    hide Step, Sound, UsedFrames, FreeFrames, FreeQueue, Leaf, PointersSet;
    for i := 0 to |calls|
      invariant space.Valid() && ok && |ops| == i
      invariant IsRun(space.root, ops, ms)
      invariant ms[0] == old(Machine(space.State(), space.Frames()))
      invariant ms[|ops|] == Machine(space.State(), space.Frames())
      invariant forall j :: 0 <= j < |ops| ==> Records(calls[j], ops[j])
      invariant forall j :: 0 <= j < |ms| ==>
                  Sound(space.root, ms[j].tables, ms[j].frames)
    {
      ghost var op;
      ok, op := Perform(space, calls[i]);
      if !ok {
        return;
      }
      ghost var m := Machine(space.State(), space.Frames());
      RunExtends(space.root, ops, ms, op, m);
      ops, ms := ops + [op], ms + [m];
    }
    forall j | 0 <= j < |ms| ensures PointersSet(ms[j].tables) {
      SoundPointers(space.root, ms[j].tables, ms[j].frames);
    }
  }

  /** Every table below the PML4 hangs in its parent with its address and the three flags. */
  ghost predicate PointersSet(s: Tables) {
    forall n :: n in s.tree && n != Root ==>
      && n.up in s.tree && s.tree[n.up] in s.mem && n.i < |s.mem[s.tree[n.up]]|
      && s.mem[s.tree[n.up]][n.i] == Or(And(s.tree[n], 0xf_ffff_ffff_f000), 7)
  }

  lemma SoundPointers(root: nat, s: Tables, l: Ledger)
    requires Sound(root, s, l)
    ensures PointersSet(s)
  {
    hide And, Or, IsTree;
    forall n | n in s.tree && n != Root
      ensures
        && n.up in s.tree && s.tree[n.up] in s.mem && n.i < |s.mem[s.tree[n.up]]|
        && s.mem[s.tree[n.up]][n.i] == Or(And(s.tree[n], 0xf_ffff_ffff_f000), 7)
    {
      UpperEntries(root, s, n, 0);
    }
  }

  method Perform(space: AddressSpace, call: Call) returns (ok: bool, ghost op: Op)
    requires space.Valid()
    modifies space, space.frames.words
    ensures space.Valid() && Records(call, op)
    ensures ok ==> Step(old(Machine(space.State(), space.Frames())), op,
                        Machine(space.State(), space.Frames()))
    ensures !ok ==> space.Frames().free == {}
  {
    hide Maps, Draws, Sound, UsedFrames, FreeFrames, FreeQueue, Page, Entry, Needs;
    match call {
      case MapCall(phys, virt) =>
        op := Map(phys, virt);
        ghost var cs;
        ok, cs := space.MapPage(phys, virt);
      case AllocCall =>
        ghost var l := space.Frames();
        var frame := space.AllocFrame();
        ok, op := true, Take(frame);
        if frame != 0 {
          DrawKeepsSound(space.root, space.State(), l, space.Frames(), frame);
        }
    }
  }

  // ----- what the tables themselves rely on -----

  /** In a polite run every table resolves to itself, so the pointers the kernel follows through the
      tables lead where the model reads. */
  lemma TablesResolveToThemselves(root: nat, ops: seq<Op>, ms: seq<Machine>, f: nat, off: nat)
    requires IsRun(root, ops, ms) && Polite(ops, ms[0].frames.used + ms[0].frames.free)
    requires IsTable(ms[|ops|].tables, f) && off < 4096
    ensures Lookup(ms[|ops|].tables, f + off) == f + off
  {
    FramesStay(root, ops, ms, |ops|);
    FrameIsPage(f);
    SamePage(f, off);
    RunImplementsFlatMap(root, ops, ms, Page(f));
    SelfEntry(Page(f));
    hide Leaf, Page, Entry, Present, Address, IsRun, IsTable;
  }

  /** Some call of the run mapped the page. */
  predicate MappedByRun(ops: seq<Op>, w: nat) {
    exists i :: 0 <= i < |ops| && Aligned(ops[i]) && Page(ops[i].virt) == w
  }

  lemma {:induction false} LastEntryPresent(ops: seq<Op>, w: nat)
    ensures Present(LastEntry(ops, w)) <==> MappedByRun(ops, w)
  {
    if ops != [] {
      var k := |ops| - 1;
      LastEntryPresent(ops[..k], w);
      EntryPresent(ops[k]);
      hide Page, Entry, Present;
      assert forall i :: 0 <= i < k ==> ops[..k][i] == ops[i];
    }
  }

  /** A last entry comes from one of the calls for its page. */
  lemma {:induction false} LastEntryFrom(ops: seq<Op>, w: nat) returns (i: nat)
    requires Present(LastEntry(ops, w))
    ensures i < |ops| && Aligned(ops[i]) && Page(ops[i].virt) == w && LastEntry(ops, w) == Entry(ops[i].phys)
  {
    i := |ops| - 1;
    if !(Aligned(ops[i]) && Page(ops[i].virt) == w) {
      i := LastEntryFrom(ops[..i], w);
    }
  }

  lemma EntryPresent(op: Op)
    ensures op.Map? ==> Present(Entry(op.phys))
  {
    if op.Map? {
      EntryFields(op.phys);
    }
  }

  /** The frame a nested step is about to clear is reached through its own address, before it is
      mapped there: that address is mapped at that moment exactly if an earlier call mapped it. */
  lemma FreeFrameMappedIff(root: nat, ops: seq<Op>, ms: seq<Machine>, f: nat)
    requires IsRun(root, ops, ms) && Polite(ops, ms[0].frames.used + ms[0].frames.free)
    requires FrameOk(f) && f in ms[|ops|].frames.free && ms[0].frames.used !! ms[0].frames.free
    ensures Present(Leaf(ms[|ops|].tables, Page(f))) <==> MappedByRun(ops, Page(f))
  {
    FrameIsPage(f);
    RunImplementsFlatMap(root, ops, ms, Page(f));
    FramesStay(root, ops, ms, |ops|);
    LastEntryPresent(ops, Page(f));
    assert !IsTable(ms[|ops|].tables, f);
    hide Leaf, Page, Entry, Present, IsRun;
  }

  /** The memory map_page clears for a new table, at any depth of the recursion, is mapped at that moment
      if and only if an earlier call of the run mapped it. */
  lemma ClearedFrameMappedIff(root: nat, ops: seq<Op>, ms: seq<Machine>, c: Clearing)
    requires IsRun(root, ops, ms) && Polite(ops, ms[0].frames.used + ms[0].frames.free)
    requires ms[0].frames.used !! ms[0].frames.free && AsAtStart(ms[|ops|].tables, ms[|ops|].frames, c)
    ensures Present(Leaf(c.tables, Page(c.frame))) <==> MappedByRun(ops, Page(c.frame))
  {
    FreeFrameMappedIff(root, ops, ms, c.frame);
  }

  /** map_page with aligned arguments: it succeeds exactly if some number of free frames in allocation
      order is enough for the tables missing on the walks, draws the least such number, and then every
      byte of the page resolves to the byte of the frame. */
  method MapExactly(space: AddressSpace, phys: nat, virt: nat) returns (ok: bool)
    requires space.Valid() && phys % 4096 == 0 && virt % 4096 == 0
    modifies space, space.frames.words
    ensures space.Valid() && PointersSet(space.State())
    ensures ok <==> exists k: nat :: Suffices(old(space.State()), Page(virt), old(space.Frames()).queue, k)
    ensures ok ==>
              var k := |NewFrames(old(space.State()), space.State())|;
              && Suffices(old(space.State()), Page(virt), old(space.Frames()).queue, k)
              && (forall j: nat :: j < k ==> !Suffices(old(space.State()), Page(virt), old(space.Frames()).queue, j))
              && space.Frames().queue == old(space.Frames()).queue[k..]
    ensures ok ==> forall a: nat :: virt <= a < virt + 4096 ==>
              Lookup(space.State(), a) == phys % 0x10_0000_0000_0000 + (a - virt)
  {
    hide Maps, Draws, Sound, UsedFrames, FreeFrames, FreeQueue, Page, Entry, Needs, NewFrames, Suffices, IsTree, Leaf,
         PointersSet;
    ghost var s, l := space.State(), space.Frames();
    ghost var cs;
    ok, cs := space.MapPage(phys, virt);
    ghost var t, l' := space.State(), space.Frames();
    SoundIsTree(space.root, t, l');
    SoundPointers(space.root, t, l');
    QueueAfterDraw(l, l', NewFrames(s, t));
    SucceedsIff(space.root, s, t, l, l', phys, Page(virt), ok);
    if ok {
      forall a: nat | virt <= a < virt + 4096
        ensures Lookup(t, a) == phys % 0x10_0000_0000_0000 + (a - virt)
      {
        MappedPageResolves(s, t, phys, virt, a - virt);
      }
    }
  }

  lemma QueueAfterDraw(l: Ledger, l': Ledger, drawn: set<nat>)
    requires Draws(l, l', drawn)
    ensures |drawn| <= |l.queue| && l'.queue == l.queue[|drawn|..]
  {}
}
