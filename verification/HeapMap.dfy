/** What mapping calls leave of the pages of a heap (kernel/memory/memory.c:43-49 on top of
    kernel/arch/x86_64/memory/paging.c:7-40): which pages keep their frames, and when they have frames of
    their own. */
module HeapMap {
  import opened FrameBitmap
  import opened PageTree
  import opened PageMap
  import opened PageDemand

  ghost predicate Mapped(s: Tables, v: nat)
    requires v < 0x10_0000_0000
  {
    Present(Leaf(s, v))
  }

  ghost function FrameOf(s: Tables, v: nat): nat
    requires v < 0x10_0000_0000
  {
    Address(Leaf(s, v))
  }

  /** Frame g may back a heap page: it is not frame 0, not free, and not a table. */
  ghost predicate Backing(s: Tables, l: Ledger, g: nat) {
    g != 0 && g !in l.free && forall n :: n in s.tree ==> s.tree[n] != g
  }

  /** The mapped pages lo, ..., hi - 1 have pairwise different frames, none of them a table. */
  ghost predicate HeapMapped(s: Tables, l: Ledger, lo: nat, hi: nat)
    requires hi <= 0x10_0000_0000
  {
    && (forall v :: lo <= v < hi && Mapped(s, v) ==> Backing(s, l, FrameOf(s, v)))
    && (forall u, v :: lo <= u < v < hi && Mapped(s, u) && Mapped(s, v) ==> FrameOf(s, u) != FrameOf(s, v))
  }

  /** No mapped heap page is backed by frame 0, which find_physaddr would report as not mapped. */
  ghost predicate Backed(s: Tables, lo: nat, hi: nat)
    requires hi <= 0x10_0000_0000
  {
    forall v :: lo <= v < hi && Mapped(s, v) ==> FrameOf(s, v) != 0
  }

  /** No new table is mapped under an address of its own inside the heap. */
  ghost predicate TablesElsewhere(s: Tables, t: Tables, lo: nat, hi: nat)
    requires hi <= 0x10_0000_0000
  {
    forall f :: f in NewFrames(s, t) && lo <= Page(f) < hi ==> !SelfMapped(t, f)
  }

  /** Tables stay where they are, and new ones were free. */
  ghost predicate TablesStay(s: Tables, l: Ledger, t: Tables, l': Ledger) {
    && (forall n :: n in s.tree ==> n in t.tree && t.tree[n] == s.tree[n])
    && (forall f :: f in NewFrames(s, t) ==> f in l.free && FrameOk(f))
    && l'.free <= l.free && l'.used + l'.free == l.used + l.free
  }

  /** What calls leave of the heap pages: tables and mapped pages stay, but for pages whose address
      became a table, and if the heap's pages had frames of their own they still have, unless a new table
      lies inside the heap. */
  ghost predicate HeapKept(s: Tables, l: Ledger, t: Tables, l': Ledger, lo: nat, hi: nat)
    requires hi <= 0x10_0000_0000
  {
    && Backed(t, lo, hi) && TablesStay(s, l, t, l')
    && (forall v :: lo <= v < hi && Mapped(s, v) ==> Keeps(s, t, v))
    && (HeapMapped(s, l, lo, hi) && TablesElsewhere(s, t, lo, hi) ==> HeapMapped(t, l', lo, hi))
  }

  /** Heap pages other than from, ..., to keep their entries, but for new tables. */
  ghost predicate Untouched(s: Tables, t: Tables, lo: nat, hi: nat, from: nat, to: int)
    requires hi <= 0x10_0000_0000
  {
    forall v :: lo <= v < hi && (v < from || to < v) ==> Keeps(s, t, v)
  }

  // ----- steps compose -----

  lemma NewFramesAdd(s: Tables, l: Ledger, t: Tables, l': Ledger, u: Tables, l'': Ledger)
    requires TablesStay(s, l, t, l') && TablesStay(t, l', u, l'')
    ensures NewFrames(s, u) == NewFrames(s, t) + NewFrames(t, u)
    ensures TablesStay(s, l, u, l'')
  {
    forall f | f in NewFrames(s, t) ensures f in NewFrames(s, u) {
      var n :| n in t.tree && n !in s.tree && t.tree[n] == f;
      assert n in u.tree && u.tree[n] == f;
    }
    forall f | f in NewFrames(t, u) ensures f in NewFrames(s, u) {
      var n :| n in u.tree && n !in t.tree && u.tree[n] == f;
      assert n !in s.tree;
    }
    forall f | f in NewFrames(s, u) ensures f in NewFrames(s, t) + NewFrames(t, u) {
      var n :| n in u.tree && n !in s.tree && u.tree[n] == f;
      if n in t.tree {
        assert f == t.tree[n];
      }
    }
  }

  lemma KeepsTwice(s: Tables, t: Tables, u: Tables, v: nat)
    requires v < 0x10_0000_0000 && Keeps(s, t, v) && Keeps(t, u, v)
    requires NewFrames(s, u) == NewFrames(s, t) + NewFrames(t, u)
    ensures Keeps(s, u, v)
  {
    hide Leaf, Entry, NewFrames;
  }

  /** A kept page stays mapped. */
  lemma KeptIsMapped(s: Tables, t: Tables, v: nat)
    requires v < 0x10_0000_0000 && Keeps(s, t, v)
    ensures Mapped(s, v) ==> Mapped(t, v)
    ensures Leaf(t, v) == Leaf(s, v) ==> Mapped(t, v) == Mapped(s, v) && FrameOf(t, v) == FrameOf(s, v)
    ensures Leaf(t, v) != Leaf(s, v) ==> v * 4096 in NewFrames(s, t) && SelfMapped(t, v * 4096) && Mapped(t, v)
    ensures Leaf(t, v) != Leaf(s, v) ==> Page(v * 4096) == v && FrameOf(t, v) == v * 4096
  {
    EntryFields(v * 4096);
    assert v * 4096 < 0x1_0000_0000_0000 && v * 4096 / 4096 == v;
    hide Leaf, Entry, NewFrames, Present, Address;
  }

  /** A table mapped to itself stays so. */
  lemma SelfMappedStays(s: Tables, l: Ledger, t: Tables, u: Tables, l': Ledger, l'': Ledger, f: nat, lo: nat, hi: nat)
    requires hi <= 0x10_0000_0000 && lo <= Page(f) < hi && FrameOk(f)
    requires HeapKept(t, l', u, l'', lo, hi) && SelfMapped(t, f)
    ensures SelfMapped(u, f)
  {
    FrameIsPage(f);
    EntryFields(f);
    hide Leaf, Entry, Present, Address, HeapMapped, Backed, TablesStay, TablesElsewhere, NewFrames;
    assert Mapped(t, Page(f));
    assert Keeps(t, u, Page(f));
  }

  lemma ElsewhereParts(s: Tables, l: Ledger, t: Tables, l': Ledger, u: Tables, l'': Ledger, lo: nat, hi: nat)
    requires hi <= 0x10_0000_0000
    requires TablesStay(s, l, t, l') && HeapKept(t, l', u, l'', lo, hi) && TablesElsewhere(s, u, lo, hi)
    ensures TablesElsewhere(s, t, lo, hi) && TablesElsewhere(t, u, lo, hi)
  {
    hide HeapMapped, Backed, NewFrames, SelfMapped, FrameOk;
    NewFramesAdd(s, l, t, l', u, l'');
    forall f | f in NewFrames(s, t) && lo <= Page(f) < hi ensures !SelfMapped(t, f) {
      if SelfMapped(t, f) {
        SelfMappedStays(s, l, t, u, l', l'', f, lo, hi);
        assert false;
      }
    }
  }

  lemma HeapKeptTransitive(s: Tables, l: Ledger, t: Tables, l': Ledger, u: Tables, l'': Ledger, lo: nat, hi: nat)
    requires hi <= 0x10_0000_0000
    requires HeapKept(s, l, t, l', lo, hi) && HeapKept(t, l', u, l'', lo, hi)
    ensures HeapKept(s, l, u, l'', lo, hi)
    ensures forall v :: lo <= v < hi && Mapped(t, v) ==> Mapped(u, v)
    ensures NewFrames(s, u) == NewFrames(s, t) + NewFrames(t, u)
  {
    hide HeapMapped, Backed, TablesStay, TablesElsewhere, NewFrames, Keeps, Mapped;
    NewFramesAdd(s, l, t, l', u, l'');
    forall v | lo <= v < hi && Mapped(t, v) ensures Mapped(u, v) {
      KeptIsMapped(t, u, v);
    }
    forall v | lo <= v < hi && Mapped(s, v) ensures Keeps(s, u, v) {
      KeptIsMapped(s, t, v);
      KeepsTwice(s, t, u, v);
    }
    if TablesElsewhere(s, u, lo, hi) {
      ElsewhereParts(s, l, t, l', u, l'', lo, hi);
    }
  }

  lemma UntouchedTransitive(s: Tables, t: Tables, u: Tables, lo: nat, hi: nat, from: nat, to: int, w: nat)
    requires hi <= 0x10_0000_0000 && from <= w && to <= w
    requires Untouched(s, t, lo, hi, from, to) && Untouched(t, u, lo, hi, w, w)
    requires NewFrames(s, u) == NewFrames(s, t) + NewFrames(t, u)
    ensures Untouched(s, u, lo, hi, from, w)
  {
    hide Keeps, NewFrames;
    forall v | lo <= v < hi && (v < from || w < v) ensures Keeps(s, u, v) {
      KeepsTwice(s, t, u, v);
    }
  }

  lemma UntouchedBeyond(s: Tables, t: Tables, lo: nat, hi: nat, from: nat, to: int, to': int)
    requires hi <= 0x10_0000_0000 && to <= to' && Untouched(s, t, lo, hi, from, to)
    ensures Untouched(s, t, lo, hi, from, to')
  {
    hide Keeps;
  }

  lemma NothingChanged(s: Tables, l: Ledger, lo: nat, hi: nat)
    requires hi <= 0x10_0000_0000 && Backed(s, lo, hi)
    ensures HeapKept(s, l, s, l, lo, hi) && NewFrames(s, s) == {}
    ensures forall from, to :: Untouched(s, s, lo, hi, from, to)
  {
    assert NewFrames(s, s) == {};
  }

  lemma KeptMeansBacked(s: Tables, l: Ledger, t: Tables, l': Ledger, lo: nat, hi: nat)
    requires hi <= 0x10_0000_0000 && HeapKept(s, l, t, l', lo, hi)
    ensures Backed(t, lo, hi) && TablesStay(s, l, t, l')
    ensures HeapMapped(s, l, lo, hi) && TablesElsewhere(s, t, lo, hi) ==> HeapMapped(t, l', lo, hi)
  {}

  /** Pages with frames of their own at the end: no new table is among them. */
  lemma OwnMeansElsewhere(s: Tables, l: Ledger, t: Tables, l': Ledger, lo: nat, hi: nat)
    requires hi <= 0x10_0000_0000 && TablesStay(s, l, t, l') && HeapMapped(t, l', lo, hi)
    ensures TablesElsewhere(s, t, lo, hi)
  {
    hide Leaf, Page, Mapped, FrameOf, SelfMapped;
    forall f | f in NewFrames(s, t) && lo <= Page(f) < hi ensures !SelfMapped(t, f) {
      SelfMappedPage(t, f);
    }
  }

  lemma SelfMappedPage(t: Tables, f: nat)
    requires FrameOk(f)
    ensures SelfMapped(t, f) ==> Mapped(t, Page(f)) && FrameOf(t, Page(f)) == f
  {
    FrameAddress(f);
    hide Leaf, Entry, Present, Address;
  }

  lemma FrameAddress(f: nat)
    requires FrameOk(f)
    ensures Address(Entry(f)) == f && Present(Entry(f))
  {
    EntryFields(f);
  }

  // ----- heaps with no frame inside -----

  /** No frame of the freemap has an address inside the heap. */
  predicate Outside(frames: set<nat>, lo: nat, hi: nat) {
    forall f :: f in frames ==> f / 4096 < lo || hi <= f / 4096
  }

  /** Then pages keep their entries, and new tables are elsewhere. */
  lemma OutsideKeeps(s: Tables, l: Ledger, t: Tables, l': Ledger, lo: nat, hi: nat)
    requires hi <= 0x10_0000_0000 && TablesStay(s, l, t, l') && Outside(l.used + l.free, lo, hi)
    ensures Outside(l'.used + l'.free, lo, hi) && TablesElsewhere(s, t, lo, hi)
    ensures forall v :: lo <= v < hi && Keeps(s, t, v) ==> Leaf(t, v) == Leaf(s, v)
  {
    hide Leaf, Entry, SelfMapped;
    forall f | f in NewFrames(s, t) ensures !(lo <= Page(f) < hi) {
      FrameIsPage(f);
    }
    forall v | lo <= v < hi && Keeps(s, t, v) ensures Leaf(t, v) == Leaf(s, v) {
      assert v * 4096 / 4096 == v;
    }
  }

  // ----- one round of the mapping loop -----

  /** Frame f backs no heap page. */
  ghost predicate NewTo(s: Tables, f: nat, lo: nat, hi: nat)
    requires hi <= 0x10_0000_0000
  {
    forall v :: lo <= v < hi && Mapped(s, v) ==> FrameOf(s, v) != f
  }

  /** A frame just drawn is no table, and backs no page if the pages have frames of their own. */
  lemma DrawForHeap(root: nat, s: Tables, l: Ledger, l': Ledger, f: nat, lo: nat, hi: nat)
    requires hi <= 0x10_0000_0000
    requires Sound(root, s, l) && Backed(s, lo, hi) && Draws(l, l', {f}) && FrameOk(f)
    ensures Sound(root, s, l') && HeapKept(s, l, s, l', lo, hi) && Backing(s, l', f)
    ensures HeapMapped(s, l, lo, hi) ==> HeapMapped(s, l', lo, hi) && NewTo(s, f, lo, hi)
  {
    DrawKeepsSound(root, s, l, l', f);
    hide IsTree, Leaf, Present, Address;
    assert NewFrames(s, s) == {};
    assert l'.used + l'.free == l.used + l.free;
  }

  lemma BackingKept(s: Tables, l: Ledger, t: Tables, l': Ledger, g: nat, entry: nat, w: nat, ok: bool)
    requires w < 0x10_0000_0000
    requires Maps(s, t, entry, w, ok) && Draws(l, l', NewFrames(s, t))
    ensures Backing(s, l, g) <==> Backing(t, l', g)
  {
    hide Keeps, Wanted, SelfMapped, Leaf;
    if Backing(s, l, g) {
      forall n | n in t.tree ensures t.tree[n] != g {
        if n !in s.tree {
          assert t.tree[n] in NewFrames(s, t);
        }
      }
    }
    if Backing(t, l', g) {
      assert g !in NewFrames(s, t);
      forall n | n in s.tree ensures s.tree[n] != g {
        assert n in t.tree && t.tree[n] == s.tree[n];
      }
    }
  }

  /** What a map_page call makes of the pages: the mapped one has frame f, the others keep theirs or are
      new tables mapped to themselves. */
  ghost predicate PagesAfter(s: Tables, t: Tables, w: nat, f: nat, ok: bool)
    requires w < 0x10_0000_0000
  {
    && (forall v :: 0 <= v < 0x10_0000_0000 && (v != w || !ok) ==> Keeps(s, t, v))
    && (ok ==> Mapped(t, w) && FrameOf(t, w) == f)
  }

  lemma MapsPages(s: Tables, l: Ledger, t: Tables, l': Ledger, w: nat, f: nat, ok: bool)
    requires w < 0x10_0000_0000 && FrameOk(f) && Maps(s, t, Entry(f), w, ok) && Draws(l, l', NewFrames(s, t))
    ensures PagesAfter(s, t, w, f, ok) && TablesStay(s, l, t, l')
  {
    hide Leaf, Entry, Present, Address, Wanted, SelfMapped, Keeps, Lacks, TablesStay, NewFrames, Draws;
    FrameAddress(f);
    MapsStay(s, l, t, l', w, f, ok);
  }

  lemma MapsStay(s: Tables, l: Ledger, t: Tables, l': Ledger, w: nat, f: nat, ok: bool)
    requires w < 0x10_0000_0000 && Maps(s, t, Entry(f), w, ok) && Draws(l, l', NewFrames(s, t))
    ensures TablesStay(s, l, t, l')
  {
    hide Leaf, Entry, Wanted, SelfMapped, Keeps, Lacks, NewFrames, FrameOk, Elems;
    assert l'.used + l'.free == l.used + l.free;
  }

  lemma BackedAfter(s: Tables, l: Ledger, t: Tables, l': Ledger, w: nat, f: nat, ok: bool, lo: nat, hi: nat)
    requires w < hi <= 0x10_0000_0000 && f != 0
    requires PagesAfter(s, t, w, f, ok) && TablesStay(s, l, t, l') && Backed(s, lo, hi)
    ensures Backed(t, lo, hi)
  {
    hide Mapped, FrameOf, Keeps, NewFrames, SelfMapped, Leaf, Page;
    forall v | lo <= v < hi && Mapped(t, v) ensures FrameOf(t, v) != 0 {
      if v != w || !ok {
        KeptIsMapped(s, t, v);
      }
    }
  }

  /** Pages with frames of their own still have them after page w got frame f. */
  lemma OwnAfter(s: Tables, l: Ledger, t: Tables, l': Ledger, w: nat, f: nat, ok: bool, lo: nat, hi: nat)
    requires w < hi <= 0x10_0000_0000 && PagesAfter(s, t, w, f, ok)
    requires forall g :: Backing(s, l, g) <==> Backing(t, l', g)
    requires HeapMapped(s, l, lo, hi) && NewTo(s, f, lo, hi) && TablesElsewhere(s, t, lo, hi) && Backing(s, l, f)
    ensures HeapMapped(t, l', lo, hi)
  {
    hide Mapped, FrameOf, Keeps, NewFrames, SelfMapped, Leaf, Page, Backing;
    forall v | lo <= v < hi && Mapped(t, v) && (v != w || !ok)
      ensures Mapped(s, v) && FrameOf(t, v) == FrameOf(s, v)
    {
      KeptIsMapped(s, t, v);
    }
  }

  /** Pages with frames of their own after page w got frame f had them before, and f is new. */
  lemma OwnBefore(s: Tables, l: Ledger, t: Tables, l': Ledger, w: nat, f: nat, lo: nat, hi: nat)
    requires lo <= w < hi <= 0x10_0000_0000 && PagesAfter(s, t, w, f, true) && !Mapped(s, w)
    requires forall g :: Backing(s, l, g) <==> Backing(t, l', g)
    requires HeapMapped(t, l', lo, hi) && TablesElsewhere(s, t, lo, hi)
    ensures HeapMapped(s, l, lo, hi) && NewTo(s, f, lo, hi)
  {
    hide Mapped, FrameOf, Keeps, NewFrames, SelfMapped, Leaf, Page, Backing;
    forall v | lo <= v < hi && Mapped(s, v) ensures Mapped(t, v) && FrameOf(t, v) == FrameOf(s, v) {
      KeptIsMapped(s, t, v);
    }
  }

  /** Nor was the frame of the round behind a page before it was drawn. */
  lemma OwnBeforeDraw(s: Tables, l: Ledger, l': Ledger, f: nat, lo: nat, hi: nat)
    requires hi <= 0x10_0000_0000 && Draws(l, l', {f}) && NewTo(s, f, lo, hi) && HeapMapped(s, l', lo, hi)
    ensures HeapMapped(s, l, lo, hi)
  {
    hide Leaf, Present, Address;
  }

  /** One round that draws frame f and maps page w to it. */
  lemma RoundKept(root: nat, s: Tables, l: Ledger, l1: Ledger, t: Tables, l': Ledger, w: nat, f: nat, ok: bool,
                  lo: nat, hi: nat)
    requires lo <= w < hi <= 0x10_0000_0000
    requires Sound(root, s, l) && Backed(s, lo, hi) && !Mapped(s, w)
    requires Draws(l, l1, {f}) && FrameOk(f) && Maps(s, t, Entry(f), w, ok) && Draws(l1, l', NewFrames(s, t))
    ensures HeapKept(s, l, t, l', lo, hi) && Untouched(s, t, lo, hi, w, w) && (ok ==> Mapped(t, w))
    ensures ok && HeapMapped(t, l', lo, hi) ==> HeapMapped(s, l, lo, hi)
  {
    hide Sound, Draws, Maps, Backing, NewTo, HeapMapped, Backed, Leaf, Entry, Present, NewFrames, Keeps, Page,
         TablesElsewhere, FrameOf, Mapped;
    DrawForHeap(root, s, l, l1, f, lo, hi);
    MapsPages(s, l1, t, l', w, f, ok);
    BackedAfter(s, l1, t, l', w, f, ok, lo, hi);
    forall g ensures Backing(s, l1, g) <==> Backing(t, l', g) {
      BackingKept(s, l1, t, l', g, Entry(f), w, ok);
    }
    if HeapMapped(s, l, lo, hi) && TablesElsewhere(s, t, lo, hi) {
      OwnAfter(s, l1, t, l', w, f, ok, lo, hi);
    }
    if ok && HeapMapped(t, l', lo, hi) {
      OwnMeansElsewhere(s, l1, t, l', lo, hi);
      OwnBefore(s, l1, t, l', w, f, lo, hi);
      OwnBeforeDraw(s, l, l1, f, lo, hi);
    }
    StayAfterDraw(s, l, l1, t, l', f);
  }

  lemma StayAfterDraw(s: Tables, l: Ledger, l1: Ledger, t: Tables, l': Ledger, f: nat)
    requires Draws(l, l1, {f}) && TablesStay(s, l1, t, l')
    ensures TablesStay(s, l, t, l')
  {
    assert l1.used + l1.free == l.used + l.free;
  }

  // ----- calls that need no new table -----

  /** A call for a page whose last-level table exists adds no table. */
  lemma NoTableNeeded(root: nat, s: Tables, l: Ledger, t: Tables, w: nat)
    requires w < 0x10_0000_0000 && IsTree(root, s) && Path(w, 3) in s.tree
    requires Needs(s, w, l.queue, |NewFrames(s, t)|)
    ensures NewFrames(s, t) == {}
  {
    PathClosed(root, s, w, 1);
    PathClosed(root, s, w, 2);
    assert Missing(s, w, Elems(l.queue[..0])) == {};
    hide Missing, NewFrames;
  }

  /** The last-level table of a mapped page exists. */
  lemma MappedHasTable(root: nat, s: Tables, v: nat)
    requires v < 0x10_0000_0000 && IsTree(root, s) && Mapped(s, v)
    ensures Path(v, 3) in s.tree
  {}

  lemma SameTree(s: Tables, l: Ledger, t: Tables, l': Ledger)
    requires TablesStay(s, l, t, l') && NewFrames(s, t) == {}
    ensures t.tree == s.tree
  {
    assert forall n :: n in t.tree && n !in s.tree ==> t.tree[n] in NewFrames(s, t);
  }
}
