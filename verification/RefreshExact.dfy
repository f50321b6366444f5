/** Exactly when a whole pass of refresh_freespace keeps the set of free bytes
    (kernel/memory/memory.c:208-224). */
module RefreshExact {
  import opened Spans
  import opened Heap
  import opened Coalesce

  /** Rounds before j clear entry i: some earlier entry, not cleared before its own round, ends where
      i starts. An empty entry that was not cleared before clears itself in its own round. */
  predicate Cleared(s: seq<Span>, i: nat, j: nat)
    requires i < |s| && j <= |s|
    decreases j
  {
    exists q :: 0 <= q < j && s[q].End() == s[i].addr && !Cleared(s, q, q)
  }

  /** Every empty entry that keeps the start address of one that holds bytes is cleared before its
      round comes. */
  predicate Safe(s: seq<Span>) {
    forall j :: 0 <= j < |s| && Stale(s, j) ==> Cleared(s, j, j)
  }

  lemma CleanIsSafe(s: seq<Span>)
    requires Clean(s)
    ensures Safe(s)
  {}

  // ----- the entries after a round -----

  /** What the inner loop does to one entry. */
  lemma {:induction false} InnerEntry(s: seq<Span>, j: nat, end: nat, k: nat, i: nat)
    requires j < |s| && k <= |s| && i < |s| && Proper(s) && Aim(s, j, end)
    ensures
      var r := Inner(s, j, end, k);
      if k <= i && s[i].addr == end then r[i] == Span(0, 0)
      else if i == j && s[j].size > 0 then r[j].addr == s[j].addr && r[j].size > 0
      else r[i] == s[i]
    decreases |s| - k
  {
    hide Proper, Cover;
    if k < |s| {
      if s[k].addr == end {
        AbsorbStep(s, j, end, k);
        InnerEntry(Absorb(s, j, k), j, end, k + 1, i);
      } else {
        InnerEntry(s, j, end, k + 1, i);
      }
    }
  }

  predicate Bounded(s: seq<Span>, limit: nat) {
    forall i :: 0 <= i < |s| ==> s[i].End() <= limit
  }

  lemma AbsorbTotals(s: seq<Span>, j: nat, end: nat, k: nat, limit: nat)
    requires j < |s| && k < |s| && s[k].addr == end && Proper(s) && Aim(s, j, end) && Bounded(s, limit)
    ensures Total(Absorb(s, j, k)) == Total(s) && Bounded(Absorb(s, j, k), limit)
  {
    hide Total, Cover, Proper;
    var bigger := Span(s[j].addr, s[j].size + s[k].size);
    TotalUpdate(s, j, bigger);
    TotalUpdate(s[j := bigger], k, Span(0, 0));
    if s[k].size > 0 {
      TouchesAtEnd(s, j, end, k);
    }
  }

  lemma {:induction false} InnerTotals(s: seq<Span>, j: nat, end: nat, k: nat, limit: nat)
    requires j < |s| && k <= |s| && Proper(s) && Aim(s, j, end) && Bounded(s, limit)
    ensures Total(Inner(s, j, end, k)) == Total(s) && Bounded(Inner(s, j, end, k), limit)
    decreases |s| - k
  {
    hide Proper, Aim, Total, Bounded, Absorb;
    if k < |s| {
      if s[k].addr == end {
        AbsorbStep(s, j, end, k);
        AbsorbTotals(s, j, end, k, limit);
        InnerTotals(Absorb(s, j, k), j, end, k + 1, limit);
      } else {
        InnerTotals(s, j, end, k + 1, limit);
      }
    }
  }

  /** Entry i of the table before round j, against the table s before the pass. */
  ghost predicate TrackEntry(s: seq<Span>, t: seq<Span>, j: nat, i: nat)
    requires i < |s| == |t| && j <= |s|
  {
    if Cleared(s, i, j) then t[i] == Span(0, 0)
    else
      && t[i].addr == s[i].addr
      && (t[i].size > 0 <==> s[i].size > 0)
      && (i >= j ==> t[i] == s[i])
  }

  /** The table t before round j of a pass over s in which no round went wrong so far. */
  ghost predicate Track(s: seq<Span>, t: seq<Span>, j: nat) {
    && |s| == |t| && j <= |s|
    && Proper(s) && Proper(t) && SameBytes(s, t)
    && (forall i :: 0 <= i < |s| ==> TrackEntry(s, t, j, i))
  }

  lemma TrackStart(s: seq<Span>)
    requires Proper(s)
    ensures Track(s, s, 0)
  {}

  /** Round j goes wrong exactly when j was stale before the pass and no earlier round cleared it: the
      round that clears an entry clears every entry with the same address. */
  lemma StaleBeforeRound(s: seq<Span>, t: seq<Span>, j: nat)
    requires Track(s, t, j) && j < |s|
    ensures Stale(t, j) <==> Stale(s, j) && !Cleared(s, j, j)
  {
    hide Cover, SameBytes;
    assert TrackEntry(s, t, j, j);
    if Stale(s, j) && !Cleared(s, j, j) {
      var k :| 0 <= k < |s| && s[k].size > 0 && s[k].addr == s[j].addr;
      assert !Cleared(s, k, j);
      assert TrackEntry(s, t, j, k);
    }
    if Stale(t, j) {
      var k :| 0 <= k < |t| && t[k].size > 0 && t[k].addr == t[j].addr;
      assert TrackEntry(s, t, j, k);
    }
  }

  lemma ClearedNext(s: seq<Span>, i: nat, j: nat)
    requires i < |s| && j < |s|
    ensures Cleared(s, i, j + 1) <==> Cleared(s, i, j) || (s[j].End() == s[i].addr && !Cleared(s, j, j))
  {
    if Cleared(s, i, j) {
      var q :| 0 <= q < j && s[q].End() == s[i].addr && !Cleared(s, q, q);
      assert 0 <= q < j + 1;
    }
  }

  lemma TrackEntryStep(s: seq<Span>, t: seq<Span>, j: nat, i: nat)
    requires Track(s, t, j) && j < |s| && i < |s| && Aim(t, j, t[j].End())
    ensures TrackEntry(s, Inner(t, j, t[j].End(), 0), j + 1, i)
  {
    assert TrackEntry(s, t, j, i) && TrackEntry(s, t, j, j);
    assert t[i].addr == 0 ==> t[i].size == 0;
    hide Proper, SameBytes;
    InnerEntry(t, j, t[j].End(), 0, i);
    ClearedNext(s, i, j);
  }

  lemma TrackStep(s: seq<Span>, t: seq<Span>, j: nat)
    requires Track(s, t, j) && j < |s| && !Stale(t, j)
    ensures Track(s, Inner(t, j, t[j].End(), 0), j + 1)
  {
    assert Aim(t, j, t[j].End());
    InnerLoop(t, j, t[j].End(), 0);
    var u, next := Inner(t, j, t[j].End(), 0), j + 1;
    hide Proper, Inner, TrackEntry, Cover, Count;
    forall i | 0 <= i < |s| ensures TrackEntry(s, u, next, i) {
      TrackEntryStep(s, t, j, i);
    }
  }

  /** A pass in which no round goes wrong. */
  lemma {:induction false} GoodPass(s: seq<Span>, t: seq<Span>, j: nat, limit: nat)
    requires Track(s, t, j) && Safe(s) && Bounded(t, limit)
    ensures Track(s, Pass(t, j), |s|) && Total(Pass(t, j)) == Total(t) && Bounded(Pass(t, j), limit)
    decreases |s| - j
  {
    hide Track, Inner, Total, Bounded, Stale, Cleared;
    TrackFacts(s, t, j);
    if j < |s| {
      StaleBeforeRound(s, t, j);
      TrackStep(s, t, j);
      GoodRound(t, j, limit);
      GoodPass(s, Inner(t, j, t[j].End(), 0), j + 1, limit);
    }
  }

  lemma TrackFacts(s: seq<Span>, t: seq<Span>, j: nat)
    requires Track(s, t, j)
    ensures |s| == |t| && j <= |s| && Proper(t) && SameBytes(s, t)
  {}

  lemma GoodRound(t: seq<Span>, j: nat, limit: nat)
    requires j < |t| && Proper(t) && !Stale(t, j) && Bounded(t, limit)
    ensures Total(Inner(t, j, t[j].End(), 0)) == Total(t) && Bounded(Inner(t, j, t[j].End(), 0), limit)
  {
    assert Aim(t, j, t[j].End());
    InnerTotals(t, j, t[j].End(), 0, limit);
  }

  // ----- bytes never come back -----

  /** Byte b belongs to an entry that does not start at address 0. */
  ghost predicate Held(s: seq<Span>, b: nat) {
    exists i :: 0 <= i < |s| && s[i].addr > 0 && In(b, s[i]) == 1
  }

  /** No two entries that hold bytes start at the same address, except at 0. */
  predicate DistinctStarts(s: seq<Span>) {
    forall i, k :: 0 <= i < |s| && 0 <= k < |s| && i != k && s[i].size > 0 && s[k].size > 0 && s[i].addr > 0 ==>
      s[i].addr != s[k].addr
  }

  lemma ProperStarts(s: seq<Span>)
    requires Proper(s)
    ensures DistinctStarts(s)
  {
    hide Cover;
    forall i, k | 0 <= i < |s| && 0 <= k < |s| && i != k && s[i].size > 0 && s[k].size > 0 && s[i].addr == s[k].addr
      ensures false
    {
      assert Cover(s[i].addr, s) <= 1;
      CoverTwice(s[i].addr, s, i, k);
    }
  }

  /** While another entry with bytes starts at `end`, entry j still ends there, or it is at address 0. */
  predicate AtEnd(s: seq<Span>, j: nat, end: nat)
    requires j < |s|
  {
    forall k :: 0 <= k < |s| && k != j && s[k].size > 0 && s[k].addr == end && s[j].addr > 0 ==> s[j].End() == end
  }

  lemma AbsorbNeverAdds(s: seq<Span>, j: nat, end: nat, k: nat)
    requires j < |s| && k < |s| && s[k].addr == end && DistinctStarts(s) && AtEnd(s, j, end)
    ensures DistinctStarts(Absorb(s, j, k)) && AtEnd(Absorb(s, j, k), j, end)
    ensures forall b: nat :: Held(Absorb(s, j, k), b) ==> Held(s, b)
  {
    var t := Absorb(s, j, k);
    forall b: nat | Held(t, b) ensures Held(s, b) {
      var i :| 0 <= i < |t| && t[i].addr > 0 && In(b, t[i]) == 1;
      assert i != k;
      if i == j && In(b, s[j]) == 0 {
        assert In(b, s[k]) == 1;
      } else {
        assert In(b, s[i]) == 1;
      }
    }
  }

  lemma {:induction false} InnerNeverAdds(s: seq<Span>, j: nat, end: nat, k: nat)
    requires j < |s| && k <= |s| && DistinctStarts(s) && AtEnd(s, j, end)
    ensures DistinctStarts(Inner(s, j, end, k))
    ensures forall b: nat :: Held(Inner(s, j, end, k), b) ==> Held(s, b)
    decreases |s| - k
  {
    hide DistinctStarts, AtEnd, Held, Absorb;
    if k < |s| {
      if s[k].addr == end {
        AbsorbNeverAdds(s, j, end, k);
        InnerNeverAdds(Absorb(s, j, k), j, end, k + 1);
      } else {
        InnerNeverAdds(s, j, end, k + 1);
      }
    }
  }

  /** Whatever the rounds do, a byte once gone from the entries above address 0 stays gone. */
  lemma {:induction false} PassNeverAdds(s: seq<Span>, j: nat)
    requires j <= |s| && DistinctStarts(s)
    ensures forall b: nat :: Held(Pass(s, j), b) ==> Held(s, b)
    decreases |s| - j
  {
    hide DistinctStarts, Held, Inner;
    if j < |s| {
      assert AtEnd(s, j, s[j].End());
      InnerNeverAdds(s, j, s[j].End(), 0);
      PassNeverAdds(Inner(s, j, s[j].End(), 0), j + 1);
    }
  }

  /** A round on a stale entry loses a byte for good. */
  lemma SpoiledRound(s: seq<Span>, t: seq<Span>, j: nat)
    requires Track(s, t, j) && j < |s| && Stale(t, j)
    ensures !SameBytes(s, Pass(t, j))
  {
    hide Cover, Inner, TrackEntry;
    var k :| 0 <= k < |t| && t[k].size > 0 && t[k].addr == t[j].addr;
    var b, u := t[k].End() - 1, Inner(t, j, t[j].End(), 0);
    StaleSpoils(t, j, k);
    ProperStarts(t);
    InnerNeverAdds(t, j, t[j].End(), 0);
    PassNeverAdds(u, j + 1);
    var final := Pass(t, j);
    assert final == Pass(u, j + 1);
    if SameBytes(s, final) {
      assert Cover(b, final) == 1 && Cover(0, final) == Cover(0, s);
      var i := Covered(b, final);
      if final[i].addr > 0 {
        assert Held(final, b);
        HeldIsCovered(u, b);
      } else {
        CoverAtLeast(0, final, i);
        NothingAtZero(s);
      }
      assert false;
    }
  }

  lemma HeldIsCovered(s: seq<Span>, b: nat)
    requires Held(s, b)
    ensures Cover(b, s) > 0
  {
    var i :| 0 <= i < |s| && s[i].addr > 0 && In(b, s[i]) == 1;
    CoverAtLeast(b, s, i);
  }

  lemma NothingAtZero(s: seq<Span>)
    requires Proper(s)
    ensures Cover(0, s) == 0
  {
    if Cover(0, s) > 0 {
      var i := Covered(0, s);
    }
  }

  lemma {:induction false} BadPass(s: seq<Span>, t: seq<Span>, j: nat, bad: nat)
    requires Track(s, t, j) && j <= bad < |s| && Stale(s, bad) && !Cleared(s, bad, bad)
    ensures !SameBytes(s, Pass(t, j))
    decreases |s| - j
  {
    StaleBeforeRound(s, t, j);
    if Stale(t, j) {
      SpoiledRound(s, t, j);
    } else {
      hide Track, Inner, SameBytes;
      TrackStep(s, t, j);
      BadPass(s, Inner(t, j, t[j].End(), 0), j + 1, bad);
    }
  }

  // ----- the exact condition -----

  /** A pass over a proper table keeps the set of free bytes if and only if every stale entry is
      cleared before its round, which depends only on the table before the pass. */
  lemma PassKeepsBytesIff(s: seq<Span>)
    requires Proper(s)
    ensures SameBytes(s, Pass(s, 0)) <==> Safe(s)
  {
    TrackStart(s);
    if Safe(s) {
      var limit := TableLimit(s);
      GoodPass(s, s, 0, limit);
    } else {
      var bad :| 0 <= bad < |s| && Stale(s, bad) && !Cleared(s, bad, bad);
      BadPass(s, s, 0, bad);
    }
  }

  lemma {:induction false} TableLimit(s: seq<Span>) returns (limit: nat)
    ensures Bounded(s, limit)
  {
    limit := 0;
    for i := 0 to |s|
      invariant forall k :: 0 <= k < i ==> s[k].End() <= limit
    {
      if s[i].End() > limit {
        limit := s[i].End();
      }
    }
  }

  lemma {:induction false} EmptyIsCleared(s: seq<Span>, i: nat, j: nat)
    requires i < j <= |s| && s[i].size == 0
    ensures Cleared(s, i, j)
  {
    if Cleared(s, i, i) {
      var q :| 0 <= q < i && s[q].End() == s[i].addr && !Cleared(s, q, q);
      assert 0 <= q < j;
    } else {
      assert s[i].End() == s[i].addr;
    }
  }

  /** A safe pass leaves a proper and clean table with the same bytes and sizes, so the next passes
      are safe as well. */
  lemma SafePass(s: seq<Span>, limit: nat)
    requires Proper(s) && Safe(s) && Bounded(s, limit)
    ensures SameBytes(s, Pass(s, 0)) && Proper(Pass(s, 0)) && Clean(Pass(s, 0))
    ensures Total(Pass(s, 0)) == Total(s) && Bounded(Pass(s, 0), limit)
  {
    hide Pass, Track, Proper, SameBytes, Clean, Total, Bounded;
    TrackStart(s);
    GoodPass(s, s, 0, limit);
    TrackFacts(s, Pass(s, 0), |s|);
    DoneIsClean(s, Pass(s, 0));
  }

  lemma DoneIsClean(s: seq<Span>, t: seq<Span>)
    requires Track(s, t, |s|)
    ensures Clean(t)
  {
    hide SameBytes, Cleared;
    forall i, k | 0 <= i < |t| && 0 <= k < |t| && t[i].size == 0 && t[k].size > 0 ensures t[i].addr != t[k].addr {
      assert TrackEntry(s, t, |s|, i);
      if s[i].size == 0 {
        EmptyIsCleared(s, i, |s|);
      }
    }
  }

  /** Repeated passes from a safe table reach full coalescing with the same free bytes. */
  lemma RefreshCoalesces(s: seq<Span>) returns (n: nat)
    requires Proper(s) && Safe(s)
    ensures SameBytes(s, Passes(Pass(s, 0), n)) && Coalesced(Passes(Pass(s, 0), n)) && n <= Count(Pass(s, 0))
  {
    var limit := TableLimit(s);
    SafePass(s, limit);
    n := RepeatedPassesCoalesce(Pass(s, 0));
  }

  // ----- on a heap -----

  /** One heap after refresh_freespace. */
  function Refreshed(h: HeapState): HeapState {
    HeapState(Pass(h.free, 0), h.blocks)
  }

  /** refresh_freespace keeps the heap invariant if and only if the free table is safe. */
  lemma RefreshKeepsInvIff(base: nat, limit: nat, h: HeapState, lost: seq<Span>)
    requires Inv(base, limit, h, lost)
    ensures Inv(base, limit, Refreshed(h), lost) <==> Safe(h.free)
  {
    hide Pass, Cover, Total, Safe;
    HeapIsProper(base, limit, h, lost);
    PassKeepsBytesIff(h.free);
    if Safe(h.free) {
      SafePass(h.free, limit);
      forall b: nat ensures Owners(Refreshed(h), lost, b) == Owners(h, lost, b) {}
    } else {
      var b: nat :| Cover(b, h.free) != Cover(b, Pass(h.free, 0));
      assert Owners(h, lost, b) != Owners(Refreshed(h), lost, b);
    }
  }
}
