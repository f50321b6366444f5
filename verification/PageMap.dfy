/** What a map_page call does to the tables, as relations between table states, and how those
    relations compose (kernel/arch/x86_64/memory/paging.c:7-40). */
module PageMap {
  import opened FrameBitmap
  import opened PageTree

  /** The frames that became tables between two states. */
  ghost function NewFrames(s: Tables, t: Tables): set<nat> {
    set n | n in t.tree && n !in s.tree :: t.tree[n]
  }

  /** Table n is one of the three below the PML4 that a walk for page w visits. */
  predicate OnPath(n: Node, w: nat)
    requires w < 0x10_0000_0000
  {
    1 <= Depth(n) <= 3 && n == Path(w, Depth(n))
  }

  /** Table n lies on the walk for page w, or on the walk for the address of a new table. */
  ghost predicate Wanted(s: Tables, t: Tables, w: nat, n: Node)
    requires w < 0x10_0000_0000
  {
    OnPath(n, w) || exists f :: f in NewFrames(s, t) && OnPath(n, Page(f))
  }

  /** Existing tables stay where they are; new ones are frames, and are wanted. */
  ghost predicate Extends(s: Tables, t: Tables, w: nat)
    requires w < 0x10_0000_0000
  {
    && (forall n :: n in s.tree ==> n in t.tree && t.tree[n] == s.tree[n])
    && (forall f :: f in NewFrames(s, t) ==> FrameOk(f))
    && (forall n :: n in t.tree && n !in s.tree ==> Wanted(s, t, w, n))
  }

  /** The entry of page v is as before, or v is the address of a new table mapped to itself. */
  ghost predicate Keeps(s: Tables, t: Tables, v: nat)
    requires v < 0x10_0000_0000
  {
    || Leaf(t, v) == Leaf(s, v)
    || (v * 4096 in NewFrames(s, t) && Leaf(t, v) == Entry(v * 4096))
  }

  /** Frame f is mapped under its own address. */
  ghost predicate SelfMapped(s: Tables, f: nat) {
    Leaf(s, Page(f)) == Entry(f)
  }

  /** A wanted table is missing: this is how a call ends that found no free frame. */
  ghost predicate Lacks(s: Tables, t: Tables, w: nat)
    requires w < 0x10_0000_0000
  {
    exists n :: n !in t.tree && Wanted(s, t, w, n)
  }

  /** Tables were added towards page w. If that succeeded, all of them are mapped to themselves. */
  ghost predicate Grows(s: Tables, t: Tables, w: nat, ok: bool)
    requires w < 0x10_0000_0000
  {
    && Extends(s, t, w)
    && (forall v :: 0 <= v < 0x10_0000_0000 ==> Keeps(s, t, v))
    && (ok ==> forall f :: f in NewFrames(s, t) ==> SelfMapped(t, f))
    && (!ok ==> Lacks(s, t, w))
  }

  /** The effect of a map_page call for page w. On success the page has the new entry, every new
      table is mapped to itself, and every other page has the entry it had before. */
  ghost predicate Maps(s: Tables, t: Tables, entry: nat, w: nat, ok: bool)
    requires w < 0x10_0000_0000
  {
    && Extends(s, t, w)
    && (forall v :: 0 <= v < 0x10_0000_0000 && v != w ==> Keeps(s, t, v))
    && (ok ==> Leaf(t, w) == entry)
    && (ok ==> forall f :: f in NewFrames(s, t) && Page(f) != w ==> SelfMapped(t, f))
    && (!ok ==> Keeps(s, t, w) && Lacks(s, t, w))
  }

  // ----- frames drawn from the bitmap -----

  /** The used and free frames of a bitmap, and the free ones in the order they are handed out. */
  datatype Ledger = Ledger(used: set<nat>, free: set<nat>, queue: seq<nat>)

  ghost function Elems(q: seq<nat>): set<nat> {
    set f | f in q
  }

  /** The drawn frames are the first of the queue; they were free and are used now, and nothing else
      changed. */
  ghost predicate Draws(before: Ledger, after: Ledger, drawn: set<nat>) {
    && drawn <= before.free
    && after.used == before.used + drawn
    && after.free == before.free - drawn
    && |drawn| <= |before.queue|
    && drawn == Elems(before.queue[..|drawn|])
    && after.queue == before.queue[|drawn|..]
  }

  lemma DrawsNothing(l: Ledger, s: Tables)
    ensures NewFrames(s, s) == {} && Draws(l, l, NewFrames(s, s))
  {
    assert NewFrames(s, s) == {};
    assert l.queue[0..] == l.queue;
  }

  lemma DrawsHead(l: Ledger, l': Ledger, f: nat)
    requires f in l.free && l'.used == l.used + {f} && l'.free == l.free - {f} && l.queue == [f] + l'.queue
    ensures Draws(l, l', {f})
  {
    assert l.queue[..1] == [f] && l.queue[1..] == l'.queue;
  }

  lemma QueueEmpty(l: Ledger)
    requires forall f :: f in l.queue <==> f in l.free
    ensures l.free == {} ==> l.queue == []
  {
    assert l.queue != [] ==> l.queue[0] in l.free;
  }

  /** The first j elements are the first x and the next j - x. */
  lemma PrefixElems(q: seq<nat>, x: nat, j: nat)
    requires x <= j <= |q|
    ensures Elems(q[..j]) == Elems(q[..x]) + Elems(q[x..][..j - x])
    ensures q[x..][j - x..] == q[j..]
  {
    assert q[..j] == q[..x] + q[x..][..j - x];
  }

  lemma DrawsTransitive(a: Ledger, b: Ledger, c: Ledger, x: set<nat>, y: set<nat>, z: set<nat>)
    requires Draws(a, b, x) && Draws(b, c, y) && z == x + y
    ensures Draws(a, c, z) && |z| == |x| + |y|
  {
    hide Elems;
    DisjointSize(x, y, a.free);
    PrefixElems(a.queue, |x|, |x| + |y|);
  }

  lemma DisjointSize(x: set<nat>, y: set<nat>, free: set<nat>)
    requires x <= free && y <= free - x
    ensures |x + y| == |x| + |y|
  {
    assert x * y == {};
  }

  /** The tables form a tree, every table below the PML4 is a used frame, and the PML4 itself is
      not one of the frames the bitmap manages. */
  ghost predicate Sound(root: nat, s: Tables, l: Ledger) {
    && IsTree(root, s)
    && l.used !! l.free
    && root !in l.used && root !in l.free
    && (forall n :: n in s.tree && n != Root ==> s.tree[n] in l.used)
  }

  lemma FreeIsNoTable(root: nat, s: Tables, l: Ledger, f: nat)
    requires Sound(root, s, l) && f in l.free
    ensures forall m :: m in s.tree ==> s.tree[m] != f
  {}

  lemma DrawKeepsSound(root: nat, s: Tables, l: Ledger, l': Ledger, f: nat)
    requires Sound(root, s, l) && Draws(l, l', {f})
    ensures Sound(root, s, l')
  {}

  /** Hanging up a frame just drawn keeps the tables sound. */
  lemma HungUp(root: nat, s: Tables, l: Ledger, l': Ledger, n: Node, i: nat, f: nat)
    requires Sound(root, s, l) && Draws(l, l', {f}) && FrameOk(f)
    requires n in s.tree && Depth(n) < 3 && i < 512 && Child(n, i) !in s.tree
    ensures TableOk(s, n) && IsTree(root, s) && forall m :: m in s.tree ==> s.tree[m] != f
    ensures Sound(root, Link(s, n, i, f), l')
  {
    FreeIsNoTable(root, s, l, f);
    LinkKeepsTree(root, s, n, i, f);
  }

  lemma FrameIsPage(f: nat)
    requires FrameOk(f)
    ensures Page(f) * 4096 == f
  {}

  lemma NewFramesTransitive(s: Tables, t: Tables, u: Tables, w: nat, x: nat)
    requires w < 0x10_0000_0000 && x < 0x10_0000_0000
    requires Extends(s, t, w) && Extends(t, u, x)
    ensures NewFrames(s, u) == NewFrames(s, t) + NewFrames(t, u)
  {
    forall f | f in NewFrames(s, t) ensures f in NewFrames(s, u) {
      var n :| n in t.tree && n !in s.tree && t.tree[n] == f;
      assert n in u.tree && u.tree[n] == f;
    }
    forall f | f in NewFrames(t, u) ensures f in NewFrames(s, u) {
      var n :| n in u.tree && n !in t.tree && u.tree[n] == f;
      assert n !in s.tree;
    }
    forall f | f in NewFrames(s, u) ensures f in NewFrames(s, t) + NewFrames(t, u) {
      var n :| n in u.tree && n !in s.tree && u.tree[n] == f;
      if n in t.tree {
        assert f == t.tree[n];
      }
    }
  }

  lemma GrowsReflexive(s: Tables, w: nat)
    requires w < 0x10_0000_0000
    ensures Grows(s, s, w, true)
  {
    assert NewFrames(s, s) == {};
  }

  lemma GrowsTransitive(s: Tables, t: Tables, u: Tables, w: nat, ok: bool)
    requires w < 0x10_0000_0000
    requires Grows(s, t, w, true) && Grows(t, u, w, ok)
    ensures Grows(s, u, w, ok)
  {
    NewFramesTransitive(s, t, u, w, w);
    forall v | 0 <= v < 0x10_0000_0000 ensures Keeps(s, u, v) {
      assert Keeps(s, t, v) && Keeps(t, u, v);
    }
    forall f | ok && f in NewFrames(s, u) ensures SelfMapped(u, f) {
      FrameIsPage(f);
      assert Keeps(t, u, Page(f));
    }
    forall n | n in u.tree && n !in s.tree ensures Wanted(s, u, w, n) {
      if n in t.tree {
        assert Wanted(s, t, w, n);
      } else {
        assert Wanted(t, u, w, n);
      }
    }
    if !ok {
      var n :| n !in u.tree && Wanted(t, u, w, n);
      assert Wanted(s, u, w, n);
    }
  }

  /** Hanging up frame f and then mapping f to itself adds tables towards page w: the state in
      between, where f is a table but not yet mapped, is the one the nested call starts from. */
  lemma LinkThenMap(root: nat, s: Tables, n: Node, i: nat, f: nat, u: Tables, w: nat, ok: bool)
    requires w < 0x10_0000_0000
    requires IsTree(root, s) && n in s.tree && Depth(n) < 3 && i < 512 && Child(n, i) !in s.tree
    requires Child(n, i) == Path(w, Depth(n) + 1)
    requires FrameOk(f) && forall m :: m in s.tree ==> s.tree[m] != f
    requires TableOk(s, n) && Maps(Link(s, n, i, f), u, Entry(f), Page(f), ok)
    ensures Grows(s, u, w, ok)
    ensures NewFrames(s, u) == {f} + NewFrames(Link(s, n, i, f), u)
    ensures n in u.tree && Child(n, i) in u.tree && u.tree[n] == s.tree[n]
  {
    var t := Link(s, n, i, f);
    LinkExtends(s, n, i, f, w);
    NewFramesTransitive(s, t, u, w, Page(f));
    FrameIsPage(f);
    forall v | 0 <= v < 0x10_0000_0000 ensures Keeps(s, u, v) {
      LinkKeepsLeaves(root, s, n, i, f, v);
      assert v != Page(f) ==> Keeps(t, u, v);
    }
    forall g | ok && g in NewFrames(s, u) ensures SelfMapped(u, g) {
      FrameIsPage(g);
    }
    forall m | m in u.tree && m !in s.tree ensures Wanted(s, u, w, m) {
      if m != Child(n, i) {
        assert Wanted(t, u, Page(f), m);
      }
    }
    if !ok {
      var m :| m !in u.tree && Wanted(t, u, Page(f), m);
      assert Wanted(s, u, w, m);
    }
  }

  lemma LinkExtends(s: Tables, n: Node, i: nat, f: nat, w: nat)
    requires w < 0x10_0000_0000
    requires n in s.tree && s.tree[n] in s.mem && s.tree[n] != f && i < |s.mem[s.tree[n]]|
    requires Depth(n) < 3 && Child(n, i) !in s.tree && Child(n, i) == Path(w, Depth(n) + 1)
    requires FrameOk(f)
    ensures Extends(s, Link(s, n, i, f), w)
    ensures NewFrames(s, Link(s, n, i, f)) == {f}
  {
    var t := Link(s, n, i, f);
    assert Child(n, i) in t.tree && t.tree[Child(n, i)] == f;
    assert forall m :: m in t.tree && m !in s.tree ==> m == Child(n, i);
  }

  /** Writing the last-level entry completes the call. */
  lemma GrowsThenSet(root: nat, s: Tables, t: Tables, w: nat, entry: nat)
    requires w < 0x10_0000_0000
    requires Grows(s, t, w, true) && IsTree(root, t) && Path(w, 3) in t.tree
    ensures TableOk(t, Path(w, 3)) && Maps(s, SetLeaf(t, w, entry), entry, w, true)
    ensures NewFrames(s, SetLeaf(t, w, entry)) == NewFrames(s, t)
  {
    SetLeafKeepsTree(root, t, w, entry);
    var u := SetLeaf(t, w, entry);
    forall v | 0 <= v < 0x10_0000_0000 && v != w ensures Keeps(s, u, v) {
      SetLeafKeepsLeaves(root, t, w, entry, v);
      assert Keeps(s, t, v);
    }
    forall f | f in NewFrames(s, u) && Page(f) != w ensures SelfMapped(u, f) {
      SetLeafKeepsLeaves(root, t, w, entry, Page(f));
      assert SelfMapped(t, f);
    }
    forall n | n in u.tree && n !in s.tree ensures Wanted(s, u, w, n) {
      assert Wanted(s, t, w, n);
    }
  }

  // ----- the frames a call clears -----

  /** memset on a frame just drawn, with the tables at that moment. */
  datatype Clearing = Clearing(tables: Tables, frame: nat)

  /** The frame was free when the call started, and its own address has the entry it had then. */
  ghost predicate AsAtStart(s: Tables, l: Ledger, c: Clearing) {
    c.frame in l.free && FrameOk(c.frame) && Leaf(c.tables, Page(c.frame)) == Leaf(s, Page(c.frame))
  }

  ghost function ClearedFrames(cs: seq<Clearing>): set<nat> {
    set c | c in cs :: c.frame
  }

  lemma ClearedAppend(cs: seq<Clearing>, ds: seq<Clearing>)
    ensures ClearedFrames(cs + ds) == ClearedFrames(cs) + ClearedFrames(ds)
    ensures forall c :: c in cs + ds <==> c in cs || c in ds
  {
    assert forall c :: c in cs + ds <==> c in cs || c in ds;
  }

  /** What was cleared between two states: the new tables, each in a state in which the entry under its
      own address was that of the start. */
  ghost predicate Clears(s: Tables, l: Ledger, t: Tables, cs: seq<Clearing>) {
    && (forall c :: c in cs ==> AsAtStart(s, l, c))
    && NewFrames(s, t) == ClearedFrames(cs)
  }

  lemma ClearsNothing(s: Tables, l: Ledger)
    ensures Clears(s, l, s, [])
  {
    assert NewFrames(s, s) == {};
  }

  lemma ClearedOnce(s: Tables, l: Ledger, t: Tables, u: Tables, cs: seq<Clearing>)
    requires Clears(s, l, t, cs) && NewFrames(s, u) == NewFrames(s, t)
    ensures Clears(s, l, u, cs)
  {}

  lemma AsBefore(s: Tables, l: Ledger, t: Tables, l': Ledger, w: nat, c: Clearing)
    requires w < 0x10_0000_0000 && Grows(s, t, w, true) && Draws(l, l', NewFrames(s, t)) && AsAtStart(t, l', c)
    ensures AsAtStart(s, l, c)
  {
    hide Leaf, Wanted, Entry, Page, FrameOk;
    FrameIsPage(c.frame);
    assert Keeps(s, t, Page(c.frame));
  }

  lemma GrowsAddsFrames(s: Tables, t: Tables, u: Tables, w: nat, ok: bool)
    requires w < 0x10_0000_0000 && Grows(s, t, w, true) && Grows(t, u, w, ok)
    ensures NewFrames(s, u) == NewFrames(s, t) + NewFrames(t, u)
  {
    NewFramesTransitive(s, t, u, w, w);
  }

  /** Two steps of a call, one after the other. */
  lemma ClearsCompose(s: Tables, l: Ledger, t: Tables, l': Ledger, u: Tables, w: nat, cs: seq<Clearing>,
                      ds: seq<Clearing>, ok: bool)
    requires w < 0x10_0000_0000 && Grows(s, t, w, true) && Grows(t, u, w, ok) && Draws(l, l', NewFrames(s, t))
    requires Clears(s, l, t, cs) && Clears(t, l', u, ds)
    ensures Clears(s, l, u, cs + ds)
  {
    hide Grows, Draws, AsAtStart, NewFrames, ClearedFrames;
    GrowsAddsFrames(s, t, u, w, ok);
    ClearedAppend(cs, ds);
    forall c | c in ds ensures AsAtStart(s, l, c) {
      AsBefore(s, l, t, l', w, c);
    }
  }

  /** Clearing a frame, hanging it up and mapping it to itself. */
  lemma ClearsLink(root: nat, s: Tables, l: Ledger, l': Ledger, n: Node, i: nat, f: nat, u: Tables, cs: seq<Clearing>)
    requires IsTree(root, s) && n in s.tree && Depth(n) < 3 && i < 512 && Child(n, i) !in s.tree && TableOk(s, n)
    requires FrameOk(f) && Draws(l, l', {f}) && forall m :: m in s.tree ==> s.tree[m] != f
    requires Clears(Link(s, n, i, f), l', u, cs) && NewFrames(s, u) == {f} + NewFrames(Link(s, n, i, f), u)
    ensures Clears(s, l, u, [Clearing(s, f)] + cs)
  {
    hide IsTree, NewFrames, Leaf, Page, FrameOk, LinkOk;
    var t := Link(s, n, i, f);
    forall c | c in cs ensures AsAtStart(s, l, c) {
      LinkKeepsLeaves(root, s, n, i, f, Page(c.frame));
    }
    hide AsAtStart, Draws;
    ClearedAppend([Clearing(s, f)], cs);
  }

  // ----- the facts a walk uses, one at a time -----

  lemma SoundRoot(root: nat, s: Tables, l: Ledger)
    requires Sound(root, s, l)
    ensures Root in s.tree && s.tree[Root] == root && TableOk(s, Root)
  {}

  lemma SoundLink(root: nat, s: Tables, l: Ledger, n: Node, i: nat)
    requires Sound(root, s, l) && n in s.tree && Depth(n) < 3 && i < 512
    ensures TableOk(s, n) && LinkOk(s, n, i)
  {
    assert TableOk(s, n);
  }

  lemma DrawsShrinks(l: Ledger, l': Ledger, drawn: set<nat>)
    requires Draws(l, l', drawn)
    ensures l'.free <= l.free
    ensures drawn != {} ==> l'.free < l.free
  {
    if drawn != {} {
      var f :| f in drawn;
      assert f in l.free && f !in l'.free;
    }
  }

  /** A call whose walk could not be completed. */
  lemma FailedWalk(s: Tables, t: Tables, entry: nat, w: nat)
    requires w < 0x10_0000_0000 && Grows(s, t, w, false)
    ensures Maps(s, t, entry, w, false)
  {}

  lemma NoFrameLeft(s: Tables, n: Node, i: nat, w: nat)
    requires w < 0x10_0000_0000 && Depth(n) < 3
    requires Child(n, i) !in s.tree && Child(n, i) == Path(w, Depth(n) + 1)
    ensures Grows(s, s, w, false)
  {
    GrowsReflexive(s, w);
    assert Wanted(s, s, w, Child(n, i));
  }

  lemma SetLeafKeepsSound(root: nat, s: Tables, l: Ledger, w: nat, entry: nat)
    requires Sound(root, s, l) && w < 0x10_0000_0000 && Path(w, 3) in s.tree
    ensures TableOk(s, Path(w, 3)) && Sound(root, SetLeaf(s, w, entry), l)
  {
    SetLeafKeepsTree(root, s, w, entry);
  }

  lemma SoundIsTree(root: nat, s: Tables, l: Ledger)
    requires Sound(root, s, l)
    ensures IsTree(root, s)
  {}
}
