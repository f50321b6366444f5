/** refresh_freespace: combining contiguous free entries (kernel/memory/memory.c:208-224). */
module Coalesce {
  import opened Spans
  import opened Heap

  /** One comparison of the inner loop: entry k starts where entry j ended, so it is added to j and
      cleared. */
  function Absorb(s: seq<Span>, j: nat, k: nat): (r: seq<Span>)
    requires j < |s| && k < |s|
    ensures |r| == |s|
  {
    s[j := Span(s[j].addr, s[j].size + s[k].size)][k := Span(0, 0)]
  }

  /** The inner loop from k on, for entry j with the end address `end` it had at the start. */
  function Inner(s: seq<Span>, j: nat, end: nat, k: nat): (r: seq<Span>)
    requires j < |s| && k <= |s|
    ensures |r| == |s|
    decreases |s| - k
  {
    if k == |s| then s
    else Inner(if s[k].addr == end then Absorb(s, j, k) else s, j, end, k + 1)
  }

  /** The outer loop from j on. */
  function Pass(s: seq<Span>, j: nat): (r: seq<Span>)
    requires j <= |s|
    ensures |r| == |s|
    decreases |s| - j
  {
    if j == |s| then s else Pass(Inner(s, j, s[j].End(), 0), j + 1)
  }

  // ----- what a table of free entries looks like -----

  /** Entries do not overlap, and none that holds bytes starts at address 0. */
  ghost predicate Proper(s: seq<Span>) {
    && (forall b: nat :: Cover(b, s) <= 1)
    && (forall i :: 0 <= i < |s| && s[i].size > 0 ==> s[i].addr > 0)
  }

  /** No empty entry keeps the start address of one that holds bytes. */
  predicate Clean(s: seq<Span>) {
    forall i, k :: 0 <= i < |s| && 0 <= k < |s| && s[i].size == 0 && s[k].size > 0 ==> s[i].addr != s[k].addr
  }

  ghost predicate SameBytes(s: seq<Span>, t: seq<Span>) {
    forall b: nat :: Cover(b, s) == Cover(b, t)
  }

  /** No entry that holds bytes starts where another one ends. */
  predicate Coalesced(s: seq<Span>) {
    forall j, k :: 0 <= j < |s| && 0 <= k < |s| && s[j].size > 0 && s[k].size > 0 ==> s[j].End() != s[k].addr
  }

  /** The free table of a heap is proper in every reachable state. */
  lemma HeapIsProper(base: nat, limit: nat, h: HeapState, lost: seq<Span>)
    requires Inv(base, limit, h, lost)
    ensures Proper(h.free)
  {
    forall b: nat ensures Cover(b, h.free) <= 1 {
      assert Owners(h, lost, b) <= 1;
    }
    forall i | 0 <= i < |h.free| && h.free[i].size > 0 ensures h.free[i].addr > 0 {
      InsideHeap(base, limit, h, lost, i);
    }
  }

  // ----- a pass over a clean table -----

  /** The state of the inner loop: either entry j holds bytes and reaches at least to `end`, or it is
      empty and no entry that holds bytes starts at `end`. */
  ghost predicate Aim(s: seq<Span>, j: nat, end: nat)
    requires j < |s|
  {
    if s[j].size > 0 then s[j].addr < end <= s[j].End()
    else forall k :: 0 <= k < |s| && s[k].size > 0 ==> s[k].addr != end
  }

  /** Entries that hold bytes in both tables are the same. */
  predicate SameEntries(s: seq<Span>, t: seq<Span>) {
    && |s| == |t|
    && forall i :: 0 <= i < |s| && (s[i].size > 0 || t[i].size > 0) ==> s[i] == t[i]
  }

  lemma AbsorbStep(s: seq<Span>, j: nat, end: nat, k: nat)
    requires j < |s| && k < |s| && s[k].addr == end
    requires Proper(s) && Aim(s, j, end)
    ensures SameBytes(s, Absorb(s, j, k)) && Proper(Absorb(s, j, k)) && (Clean(s) ==> Clean(Absorb(s, j, k)))
    ensures Aim(Absorb(s, j, k), j, end)
    ensures Count(Absorb(s, j, k)) == Count(s) - (if s[k].size > 0 then 1 else 0)
    ensures s[k].size == 0 ==> SameEntries(s, Absorb(s, j, k))
  {
    hide Cover, Count, In, Absorb;
    if s[k].size == 0 {
      EmptyAbsorbed(s, j, k);
    } else {
      assert s[j].size > 0 && j != k by {
        hide Proper, Clean;
      }
      TouchesAtEnd(s, j, end, k);
      FullAbsorbed(s, j, k);
      FullAbsorbedTable(s, j, k);
    }
  }

  lemma FullAbsorbedTable(s: seq<Span>, j: nat, k: nat)
    requires j < |s| && k < |s| && j != k && s[j].size > 0 && s[k].size > 0 && s[j].End() == s[k].addr
    requires Proper(s) && SameBytes(s, Absorb(s, j, k))
    ensures Proper(Absorb(s, j, k)) && (Clean(s) ==> Clean(Absorb(s, j, k))) && Aim(Absorb(s, j, k), j, s[j].End())
  {
    hide Cover;
  }

  lemma TouchesAtEnd(s: seq<Span>, j: nat, end: nat, k: nat)
    requires j < |s| && k < |s| && j != k && Proper(s)
    requires s[j].size > 0 && s[j].addr < end <= s[j].End() && s[k].addr == end && s[k].size > 0
    ensures s[j].End() == end
  {
    hide Cover;
    CoverTwice(end, s, j, k);
  }

  /** Absorbing the entry that follows moves its bytes. */
  lemma FullAbsorbed(s: seq<Span>, j: nat, k: nat)
    requires j < |s| && k < |s| && j != k && s[j].size > 0 && s[k].size > 0 && s[j].End() == s[k].addr
    ensures SameBytes(s, Absorb(s, j, k)) && Count(Absorb(s, j, k)) == Count(s) - 1
  {
    hide Cover, Count, In;
    var t := Absorb(s, j, k);
    var bigger := Span(s[j].addr, s[j].size + s[k].size);
    CountUpdate(s, j, bigger);
    CountUpdate(s[j := bigger], k, Span(0, 0));
    forall b: nat ensures Cover(b, t) == Cover(b, s) {
      NoBytes(b, Span(0, 0));
      Join(b, s[j], s[k]);
      CoverUpdate(b, s, j, bigger);
      CoverUpdate(b, s[j := bigger], k, Span(0, 0));
    }
  }

  /** Absorbing an empty entry only clears it. */
  lemma EmptyAbsorbed(s: seq<Span>, j: nat, k: nat)
    requires j < |s| && k < |s| && s[k].size == 0
    ensures Absorb(s, j, k) == s[k := Span(0, 0)]
    ensures SameBytes(s, Absorb(s, j, k)) && Count(Absorb(s, j, k)) == Count(s)
  {
    hide Cover, Count, In;
    assert s[j := Span(s[j].addr, s[j].size + s[k].size)] == s;
    var t := Absorb(s, j, k);
    CountUpdate(s, k, Span(0, 0));
    forall b: nat ensures Cover(b, t) == Cover(b, s) {
      NoBytes(b, s[k]);
      NoBytes(b, Span(0, 0));
      CoverUpdate(b, s, k, Span(0, 0));
    }
  }

  lemma {:induction false} InnerLoop(s: seq<Span>, j: nat, end: nat, k: nat)
    requires j < |s| && k <= |s| && Proper(s) && Aim(s, j, end)
    ensures
      var t := Inner(s, j, end, k);
      && SameBytes(s, t) && Proper(t) && (Clean(s) ==> Clean(t)) && Count(t) <= Count(s)
      && (Count(t) == Count(s) ==>
            && SameEntries(s, t)
            && (s[j].size > 0 ==> forall i :: k <= i < |s| && s[i].size > 0 ==> s[i].addr != end))
    decreases |s| - k
  {
    hide Cover, Count, Clean, Aim, Proper, Absorb;
    if k < |s| {
      var s' := if s[k].addr == end then Absorb(s, j, k) else s;
      if s[k].addr == end {
        AbsorbStep(s, j, end, k);
      }
      InnerLoop(s', j, end, k + 1);
    }
  }

  lemma AimAtStart(s: seq<Span>, j: nat)
    requires j < |s| && Clean(s)
    ensures Aim(s, j, s[j].End())
  {}

  lemma {:induction false} PassLoop(s: seq<Span>, j: nat)
    requires j <= |s| && Proper(s) && Clean(s)
    ensures
      var t := Pass(s, j);
      && SameBytes(s, t) && Proper(t) && Clean(t) && Count(t) <= Count(s)
      && (Count(t) == Count(s) ==>
            && SameEntries(s, t)
            && forall i, k :: j <= i < |s| && 0 <= k < |s| && s[i].size > 0 && s[k].size > 0 ==>
                 s[i].End() != s[k].addr)
    decreases |s| - j
  {
    hide Cover, Count, Clean, Aim, Proper, Inner;
    if j < |s| {
      AimAtStart(s, j);
      InnerLoop(s, j, s[j].End(), 0);
      PassLoop(Inner(s, j, s[j].End(), 0), j + 1);
    }
  }

  /** One pass over a proper, clean table keeps the set of free bytes and adds no entry; if it
      removes none, no two entries were adjacent, and none are. */
  lemma PassCoalesces(s: seq<Span>)
    requires Proper(s) && Clean(s)
    ensures SameBytes(s, Pass(s, 0)) && Proper(Pass(s, 0)) && Clean(Pass(s, 0))
    ensures Count(Pass(s, 0)) <= Count(s)
    ensures Count(Pass(s, 0)) == Count(s) ==> Coalesced(s) && Coalesced(Pass(s, 0))
  {
    hide Pass, Count, Cover, Proper, Clean;
    PassLoop(s, 0);
  }

  function Passes(s: seq<Span>, n: nat): (r: seq<Span>)
    ensures |r| == |s|
  {
    if n == 0 then s else Pass(Passes(s, n - 1), 0)
  }

  /** At most as many passes as there are entries reach full coalescing, with the same free bytes. */
  lemma {:induction false} RepeatedPassesCoalesce(s: seq<Span>) returns (n: nat)
    requires Proper(s) && Clean(s)
    ensures n <= Count(s) && SameBytes(s, Passes(s, n)) && Coalesced(Passes(s, n))
  {
    n := 0;
    assert Passes(s, 0) == s;
    while !Coalesced(Passes(s, n))
      invariant n + Count(Passes(s, n)) <= Count(s)
      invariant SameBytes(s, Passes(s, n)) && Proper(Passes(s, n)) && Clean(Passes(s, n))
      decreases Count(Passes(s, n))
    {
      PassCoalesces(Passes(s, n));
      assert Passes(s, n + 1) == Pass(Passes(s, n), 0);
      n := n + 1;
    }
  }

  // ----- stale addresses -----

  /** Entry j is empty and keeps the start address of an entry that holds bytes. */
  predicate Stale(s: seq<Span>, j: nat)
    requires j < |s|
  {
    s[j].size == 0 && exists k :: 0 <= k < |s| && s[k].size > 0 && s[k].addr == s[j].addr
  }

  /** The inner loop at p, for a stale entry j and the entry k of n bytes at its address x, before
      either is reached, after one of them, and after both. The byte watched is the last one of k. */
  predicate Spoiling(s: seq<Span>, j: nat, k: nat, x: nat, n: nat, p: nat)
    requires j < |s| && k < |s|
  {
    && j != k && x > 0 && n > 0 && p <= |s|
    && (forall i :: 0 <= i < |s| && i != j && i != k && s[i].addr == x ==> s[i].size == 0)
    && (|| (p <= j && p <= k && s[j] == Span(x, 0) && s[k] == Span(x, n) && Cover(x + n - 1, s) == 1)
        || (k < p <= j && s[j] == Span(x, n) && s[k] == Span(0, 0) && Cover(x + n - 1, s) == 1)
        || (j < p <= k && s[j] == Span(0, 0) && s[k] == Span(x, n) && Cover(x + n - 1, s) == 1)
        || (s[j].addr == 0 && s[k].addr == 0 && Cover(x + n - 1, s) == 0))
  }

  lemma SpoilingStep(s: seq<Span>, j: nat, k: nat, x: nat, n: nat, p: nat)
    requires j < |s| && k < |s| && p < |s| && Spoiling(s, j, k, x, n, p)
    ensures Spoiling(if s[p].addr == x then Absorb(s, j, p) else s, j, k, x, n, p + 1)
  {
    hide Cover;
    if s[p].addr == x {
      if p == j {
        assert Absorb(s, j, j) == s[j := Span(0, 0)];
        CoverUpdate(x + n - 1, s, j, Span(0, 0));
      } else if p == k {
        SpoilingAtBlock(s, j, k, x, n);
      } else {
        EmptyAbsorbed(s, j, p);
      }
    }
  }

  lemma SpoilingAtBlock(s: seq<Span>, j: nat, k: nat, x: nat, n: nat)
    requires j < |s| && k < |s| && s[k].addr == x && Spoiling(s, j, k, x, n, k)
    ensures Spoiling(Absorb(s, j, k), j, k, x, n, k + 1)
  {
    hide Cover;
    var moved := Span(s[j].addr, s[j].size + s[k].size);
    CoverUpdate(x + n - 1, s, j, moved);
    CoverUpdate(x + n - 1, s[j := moved], k, Span(0, 0));
  }

  lemma {:induction false} SpoilingLoop(s: seq<Span>, j: nat, k: nat, x: nat, n: nat, p: nat)
    requires j < |s| && k < |s| && Spoiling(s, j, k, x, n, p)
    ensures Cover(x + n - 1, Inner(s, j, x, p)) == 0
    decreases |s| - p
  {
    if p < |s| {
      SpoilingStep(s, j, k, x, n, p);
      hide Spoiling, Absorb, Cover;
      SpoilingLoop(if s[p].addr == x then Absorb(s, j, p) else s, j, k, x, n, p + 1);
    }
  }

  /** One round of the outer loop keeps the set of free bytes if and only if its entry is not a stale
      empty one. */
  lemma RoundKeepsBytesIff(s: seq<Span>, j: nat)
    requires Proper(s) && j < |s|
    ensures SameBytes(s, Inner(s, j, s[j].End(), 0)) <==> !Stale(s, j)
  {
    hide Cover, In, Inner, Count;
    if Stale(s, j) {
      var k :| 0 <= k < |s| && s[k].size > 0 && s[k].addr == s[j].addr;
      StaleSpoils(s, j, k);
    } else {
      assert Aim(s, j, s[j].End());
      InnerLoop(s, j, s[j].End(), 0);
    }
  }

  lemma StaleSpoils(s: seq<Span>, j: nat, k: nat)
    requires Proper(s) && j < |s| && k < |s|
    requires s[j].size == 0 && s[k].size > 0 && s[k].addr == s[j].addr
    ensures Cover(s[k].End() - 1, s) == 1 && Cover(s[k].End() - 1, Inner(s, j, s[j].End(), 0)) == 0
  {
    hide Cover, Inner;
    var x, n := s[k].addr, s[k].size;
    CoverAtLeast(x + n - 1, s, k);
    forall i | 0 <= i < |s| && i != j && i != k && s[i].addr == x ensures s[i].size == 0 {
      CoverTwice(x, s, i, k);
    }
    assert s[j] == Span(x, 0) && s[k] == Span(x, n);
    SpoilingLoop(s, j, k, x, n, 0);
  }

  /** Three blocks of 10 bytes, one with the rest of the heap, the first three freed in the order
      first, third, second, and 20 bytes allocated again: now slot 0 is empty and keeps the address
      of slot 1, and a pass loses the bytes of slot 1. */
  lemma StaleIsReachable(base: nat, limit: nat, n: nat)
    requires 0 < base && base + 30 < limit && n >= 4
    ensures
      var h4 := Malloc(Malloc(Malloc(Malloc(Initial(base, limit, n), 10).state, 10).state, 10).state,
                       limit - base - 30).state;
      var h7 := Free(Free(Free(h4, base).state, base + 20).state, base + 10).state;
      var h8 := Malloc(h7, 20).state;
      |h8.free| == n && Stale(h8.free, 0) && !SameBytes(h8.free, Pass(h8.free, 0))
  {
    hide Cover, Total, In, Inner;
    var none := seq(n, _ => Span(0, 0));
    var h0 := Initial(base, limit, n);
    var h1, h2 := Malloc(h0, 10).state, Malloc(Malloc(h0, 10).state, 10).state;
    assert h1 == HeapState(none[0 := Span(base + 10, limit - base - 10)], none[0 := Span(base, 10)]);
    assert h2 == HeapState(none[0 := Span(base + 20, limit - base - 20)],
                           none[0 := Span(base, 10)][1 := Span(base + 10, 10)]) by {
      assert h1.blocks[1].size == 0;
    }
    var b3 := none[0 := Span(base, 10)][1 := Span(base + 10, 10)][2 := Span(base + 20, 10)];
    var h3 := Malloc(h2, 10).state;
    assert h3 == HeapState(none[0 := Span(base + 30, limit - base - 30)], b3) by {
      assert h2.blocks[2].size == 0 && FirstEmpty(h2.blocks, 1) == 2;
    }
    var b4 := b3[3 := Span(base + 30, limit - base - 30)];
    var h4 := Malloc(h3, limit - base - 30).state;
    assert h4 == HeapState(none[0 := Span(limit, 0)], b4) by {
      assert h3.blocks[3].size == 0 && FirstEmpty(h3.blocks, 2) == 3 && FirstEmpty(h3.blocks, 1) == 3;
    }
    var h5 := Free(h4, base).state;
    assert h5 == HeapState(none[0 := Span(base, 10)], b4[0 := Span(0, 0)]);
    var h6 := Free(h5, base + 20).state;
    assert h6 == HeapState(none[0 := Span(base, 10)][1 := Span(base + 20, 10)],
                           b4[0 := Span(0, 0)][2 := Span(0, 0)]) by {
      assert FirstAt(h5.blocks, base + 20, 1) == 2;
      assert FirstEmpty(h5.free, 0) == 1;
    }
    var h7 := Free(h6, base + 10).state;
    assert h7.free == none[0 := Span(base, 20)][1 := Span(base + 20, 10)] by {
      assert h6.blocks[0].addr == 0 && FirstAt(h6.blocks, base + 10, 0) == 1;
    }
    var h8 := Malloc(h7, 20).state;
    assert h8.free == none[0 := Span(base + 20, 0)][1 := Span(base + 20, 10)];
    assert Stale(h8.free, 0) by {
      assert h8.free[1].addr == h8.free[0].addr;
    }
    StalePassLosesAll(h8.free, base + 20, 10);
  }

  /** A pass over a table whose only bytes are in slot 1, while the empty slot 0 keeps their address,
      leaves no free byte at all. */
  lemma StalePassLosesAll(s: seq<Span>, x: nat, n: nat)
    requires |s| >= 2 && x > 0 && n > 0 && s[0] == Span(x, 0) && s[1] == Span(x, n)
    requires forall i :: 2 <= i < |s| ==> s[i] == Span(0, 0)
    ensures Pass(s, 0) == seq(|s|, _ => Span(0, 0)) && !SameBytes(s, Pass(s, 0))
  {
    var none := seq(|s|, _ => Span(0, 0));
    var t := none[0 := Span(0, n)];
    assert Absorb(s, 0, 0) == none[1 := Span(x, n)];
    assert Absorb(none[1 := Span(x, n)], 0, 1) == t;
    InnerSkips(t, 0, x, 2);
    assert Inner(s, 0, x, 0) == Inner(none[1 := Span(x, n)], 0, x, 1) == t;
    assert Absorb(t, 1, 0) == none[1 := Span(0, n)];
    assert Absorb(none[1 := Span(0, n)], 1, 1) == none;
    InnerOnEmpty(|s|, 1, 2);
    assert Inner(t, 1, 0, 0) == Inner(none[1 := Span(0, n)], 1, 0, 1) == none;
    PassOnEmpty(|s|, 2);
    EmptyTable(|s|, x);
    CoverAtLeast(x, s, 1);
  }

  lemma {:induction false} InnerSkips(s: seq<Span>, j: nat, end: nat, k: nat)
    requires j < |s| && k <= |s| && forall i :: k <= i < |s| ==> s[i].addr != end
    ensures Inner(s, j, end, k) == s
    decreases |s| - k
  {
    if k < |s| {
      InnerSkips(s, j, end, k + 1);
    }
  }

  lemma {:induction false} InnerOnEmpty(n: nat, j: nat, k: nat)
    requires j < n && k <= n
    ensures Inner(seq(n, _ => Span(0, 0)), j, 0, k) == seq(n, _ => Span(0, 0))
    decreases n - k
  {
    var none := seq(n, _ => Span(0, 0));
    if k < n {
      assert Absorb(none, j, k) == none;
      InnerOnEmpty(n, j, k + 1);
    }
  }

  lemma {:induction false} PassOnEmpty(n: nat, j: nat)
    requires j <= n
    ensures Pass(seq(n, _ => Span(0, 0)), j) == seq(n, _ => Span(0, 0))
    decreases n - j
  {
    if j < n {
      InnerOnEmpty(n, j, 0);
      PassOnEmpty(n, j + 1);
    }
  }
}
