/** How many frames a map_page call needs, and exactly when it succeeds
    (kernel/arch/x86_64/memory/paging.c:15-36, kernel/memory/memory.c:139-155). */
module PageDemand {
  import opened FrameBitmap
  import opened PageTree
  import opened PageMap

  // ----- how many frames a call needs -----

  function PathNodes(w: nat): set<Node>
    requires w < 0x10_0000_0000
  {
    {Path(w, 1), Path(w, 2), Path(w, 3)}
  }

  /** The tables missing on the walk for page w and on the walks for the addresses of frames. */
  ghost function Missing(s: Tables, w: nat, frames: set<nat>): set<Node>
    requires w < 0x10_0000_0000
  {
    PathNodes(w) + (set f, n | f in frames && n in PathNodes(Page(f)) :: n) - s.tree.Keys
  }

  ghost function NewNodes(s: Tables, t: Tables): set<Node> {
    t.tree.Keys - s.tree.Keys
  }

  lemma {:induction false} ImageSize(nodes: set<Node>, tree: map<Node, nat>)
    requires nodes <= tree.Keys
    requires forall m, n :: m in nodes && n in nodes && tree[m] == tree[n] ==> m == n
    ensures |set n | n in nodes :: tree[n]| == |nodes|
  {
    if nodes != {} {
      var m :| m in nodes;
      var rest := nodes - {m};
      ImageSize(rest, tree);
      assert (set n | n in nodes :: tree[n]) == (set n | n in rest :: tree[n]) + {tree[m]};
    }
  }

  lemma WantedIsMissing(s: Tables, t: Tables, w: nat, n: Node)
    requires w < 0x10_0000_0000 && Wanted(s, t, w, n) && n !in s.tree
    ensures n in Missing(s, w, NewFrames(s, t))
  {
    if !OnPath(n, w) {
      var f :| f in NewFrames(s, t) && OnPath(n, Page(f));
      assert n in PathNodes(Page(f));
    }
  }

  /** A call draws one frame for each table it adds, and adds only tables missing on the walks for
      its page and for the frames it draws. */
  lemma FramesDrawn(root: nat, s: Tables, t: Tables, entry: nat, w: nat, ok: bool)
    requires w < 0x10_0000_0000 && IsTree(root, t) && Maps(s, t, entry, w, ok)
    ensures |NewFrames(s, t)| == |NewNodes(s, t)|
    ensures NewNodes(s, t) <= Missing(s, w, NewFrames(s, t))
    ensures !ok ==> NewNodes(s, t) < Missing(s, w, NewFrames(s, t))
  {
    NewTablesCount(root, s, t);
    hide IsTree, Keeps, SelfMapped, NewFrames, Missing, Wanted, Leaf;
    forall n | n in NewNodes(s, t) ensures n in Missing(s, w, NewFrames(s, t)) {
      WantedIsMissing(s, t, w, n);
    }
    if !ok {
      var n :| n !in t.tree && Wanted(s, t, w, n);
      WantedIsMissing(s, t, w, n);
    }
  }

  lemma NewTablesCount(root: nat, s: Tables, t: Tables)
    requires IsTree(root, t)
    ensures |NewFrames(s, t)| == |NewNodes(s, t)|
  {
    hide TableOk;
    ImageSize(NewNodes(s, t), t.tree);
    assert NewFrames(s, t) == set n | n in NewNodes(s, t) :: t.tree[n];
  }

  lemma {:induction false} SubsetSize<T>(a: set<T>, b: set<T>)
    requires a <= b
    ensures |a| <= |b|
    ensures a < b ==> |a| < |b|
  {
    assert |b| == |a| + |b - a| by {
      assert b == a + (b - a);
    }
    if a < b {
      var x :| x in b && x !in a;
      assert x in b - a;
    }
  }

  lemma PathNodesSize(w: nat)
    requires w < 0x10_0000_0000
    ensures |PathNodes(w)| <= 3
  {
    hide Path;
  }

  /** When the walks for the frames a call draws exist already, it draws at most three. */
  lemma AtMostThreeFrames(root: nat, s: Tables, t: Tables, entry: nat, w: nat, ok: bool)
    requires w < 0x10_0000_0000 && IsTree(root, t) && Maps(s, t, entry, w, ok)
    requires forall f :: f in NewFrames(s, t) ==> PathNodes(Page(f)) <= s.tree.Keys
    ensures |NewFrames(s, t)| <= 3
  {
    FramesDrawn(root, s, t, entry, w, ok);
    PathNodesSize(w);
    hide Maps, IsTree, PathNodes;
    assert NewNodes(s, t) <= PathNodes(w);
    SubsetSize(NewNodes(s, t), PathNodes(w));
  }

  lemma AllDrawn(l: Ledger, l': Ledger, drawn: set<nat>)
    requires Draws(l, l', drawn) && l'.free == {}
    ensures drawn == l.free
  {
    forall f | f in l.free ensures f in drawn {
      assert f !in l'.free;
    }
  }

  /** A call succeeds whenever at least as many frames are free as tables are missing on the walks
      for its page and for the free frames. */
  lemma EnoughFrames(root: nat, s: Tables, t: Tables, l: Ledger, l': Ledger, entry: nat, w: nat, ok: bool)
    requires w < 0x10_0000_0000 && IsTree(root, t) && Maps(s, t, entry, w, ok)
    requires Draws(l, l', NewFrames(s, t)) && (!ok ==> l'.free == {})
    requires |Missing(s, w, l.free)| <= |l.free|
    ensures ok
  {
    hide IsTree, Maps, NewFrames, Missing, NewNodes;
    if !ok {
      FramesDrawn(root, s, t, entry, w, ok);
      AllDrawn(l, l', NewFrames(s, t));
      SubsetSize(NewNodes(s, t), Missing(s, w, l.free));
    }
  }

  // ----- the demand of a call -----

  /** With fewer than n frames of the queue the call cannot be done: for every j below n more than j
      tables are missing on the walks for page w and for the first j frames. */
  ghost predicate Needs(s: Tables, w: nat, q: seq<nat>, n: nat)
    requires w < 0x10_0000_0000
  {
    n <= |q| && forall j :: 0 <= j < n ==> |Missing(s, w, Elems(q[..j]))| > j
  }

  lemma NeedsNothing(s: Tables, w: nat, q: seq<nat>)
    requires w < 0x10_0000_0000
    ensures Needs(s, w, q, 0)
  {}

  lemma PartsFit<T>(a: set<T>, b: set<T>, c: set<T>)
    requires a <= c && b <= c && a !! b
    ensures |a| + |b| <= |c|
  {
    assert |a + b| == |a| + |b|;
    SubsetSize(a + b, c);
  }

  lemma ExtendsWanted(root: nat, s: Tables, t: Tables, w: nat)
    requires w < 0x10_0000_0000 && IsTree(root, t) && Extends(s, t, w)
    ensures |NewFrames(s, t)| == |NewNodes(s, t)| && NewNodes(s, t) <= Missing(s, w, NewFrames(s, t))
  {
    NewTablesCount(root, s, t);
    hide IsTree, NewFrames, Missing, Wanted;
    forall n | n in NewNodes(s, t) ensures n in Missing(s, w, NewFrames(s, t)) {
      WantedIsMissing(s, t, w, n);
    }
  }

  lemma MissingGrows(s: Tables, w: nat, f: set<nat>, g: set<nat>)
    requires w < 0x10_0000_0000 && f <= g
    ensures Missing(s, w, f) <= Missing(s, w, g)
  {
    hide PathNodes;
  }

  lemma MissingLater(s: Tables, t: Tables, w: nat, f: set<nat>, g: set<nat>)
    requires w < 0x10_0000_0000 && f <= g && s.tree.Keys <= t.tree.Keys
    ensures Missing(t, w, f) <= Missing(s, w, g)
    ensures Missing(t, w, f) !! t.tree.Keys
  {
    hide PathNodes;
  }

  /** Two steps towards the same page: what the second needs comes on top of what the first built. */
  lemma NeedsCompose(root: nat, s: Tables, t: Tables, w: nat, l: Ledger, l': Ledger, n: nat)
    requires w < 0x10_0000_0000 && IsTree(root, t) && Extends(s, t, w) && Draws(l, l', NewFrames(s, t))
    requires Needs(s, w, l.queue, |NewFrames(s, t)|) && Needs(t, w, l'.queue, n)
    ensures Needs(s, w, l.queue, |NewFrames(s, t)| + n)
  {
    hide IsTree, Missing, Wanted;
    var q, x := l.queue, |NewFrames(s, t)|;
    ExtendsWanted(root, s, t, w);
    hide NewFrames, Elems;
    forall j | 0 <= j < x + n ensures |Missing(s, w, Elems(q[..j]))| > j {
      if j >= x {
        var f, g := Elems(l'.queue[..j - x]), Elems(q[..j]);
        PrefixElems(q, x, j);
        MissingGrows(s, w, NewFrames(s, t), g);
        MissingLater(s, t, w, f, g);
        PartsFit(NewNodes(s, t), Missing(t, w, f), Missing(s, w, g));
      }
    }
  }

  /** Hanging up the first frame of the queue and then mapping it to itself. */
  lemma NeedsLink(s: Tables, n: Node, i: nat, w: nat, l: Ledger, l': Ledger, f: nat, m: nat)
    requires w < 0x10_0000_0000 && FrameOk(f)
    requires n in s.tree && s.tree[n] in s.mem && s.tree[n] != f && i < |s.mem[s.tree[n]]|
    requires Depth(n) < 3 && Child(n, i) !in s.tree && Child(n, i) == Path(w, Depth(n) + 1)
    requires Draws(l, l', {f}) && Needs(Link(s, n, i, f), Page(f), l'.queue, m)
    ensures Needs(s, w, l.queue, 1 + m)
  {
    hide Needs, Missing, Elems, Draws, FrameOk, Page;
    assert Child(n, i) in PathNodes(w) && Link(s, n, i, f).tree.Keys == s.tree.Keys + {Child(n, i)};
    HeadDrawn(l, l', f);
    NeedsNested(s, Link(s, n, i, f), Child(n, i), w, l.queue, f, m);
  }

  lemma HeadDrawn(l: Ledger, l': Ledger, f: nat)
    requires Draws(l, l', {f})
    ensures l.queue != [] && l.queue[0] == f && l'.queue == l.queue[1..]
  {
    assert |{f}| == 1 && l.queue[0] in l.queue[..1];
  }

  lemma NeedsNested(s: Tables, t: Tables, c: Node, w: nat, q: seq<nat>, f: nat, m: nat)
    requires w < 0x10_0000_0000 && c in PathNodes(w) && c !in s.tree && s.tree.Keys + {c} <= t.tree.Keys
    requires q != [] && q[0] == f && Needs(t, Page(f), q[1..], m)
    ensures Needs(s, w, q, 1 + m)
  {
    hide Missing, Page, PathNodes;
    forall j | 0 <= j < 1 + m ensures |Missing(s, w, Elems(q[..j]))| > j {
      if j > 0 {
        PrefixElems(q, 1, j);
        assert q[0] in q[..1];
        NestedMissing(s, t, c, w, f, Elems(q[1..][..j - 1]), Elems(q[..j]));
      } else {
        MissingNode(s, c, w, Elems(q[..j]));
      }
    }
  }

  lemma MissingNode(s: Tables, c: Node, w: nat, g: set<nat>)
    requires w < 0x10_0000_0000 && c in PathNodes(w) && c !in s.tree
    ensures c in Missing(s, w, g) && |Missing(s, w, g)| > 0
  {
    hide PathNodes;
    assert c in Missing(s, w, g);
  }

  lemma NestedMissing(s: Tables, t: Tables, c: Node, w: nat, f: nat, f': set<nat>, g: set<nat>)
    requires w < 0x10_0000_0000 && c in PathNodes(w) && c !in s.tree
    requires f in g && f' <= g && s.tree.Keys + {c} <= t.tree.Keys
    ensures |Missing(t, Page(f), f')| < |Missing(s, w, g)|
  {
    hide PathNodes, Page;
    MissingNode(s, c, w, g);
    assert c !in Missing(t, Page(f), f');
    assert Missing(t, Page(f), f') < Missing(s, w, g);
    SubsetSize(Missing(t, Page(f), f'), Missing(s, w, g));
  }

  /** One level of a call: what hanging up a frame and mapping it to itself draws and needs. */
  lemma LinkStep(s: Tables, n: Node, i: nat, w: nat, l: Ledger, l': Ledger, l'': Ledger, f: nat, u: Tables)
    requires w < 0x10_0000_0000 && FrameOk(f)
    requires n in s.tree && s.tree[n] in s.mem && s.tree[n] != f && i < |s.mem[s.tree[n]]|
    requires Depth(n) < 3 && Child(n, i) !in s.tree && Child(n, i) == Path(w, Depth(n) + 1)
    requires Draws(l, l', {f}) && Draws(l', l'', NewFrames(Link(s, n, i, f), u))
    requires NewFrames(s, u) == {f} + NewFrames(Link(s, n, i, f), u)
    requires Needs(Link(s, n, i, f), Page(f), l'.queue, |NewFrames(Link(s, n, i, f), u)|)
    ensures Draws(l, l'', NewFrames(s, u)) && Needs(s, w, l.queue, |NewFrames(s, u)|)
  {
    hide Draws, Needs, NewFrames, Link, Path, Page, FrameOk;
    var t := Link(s, n, i, f);
    DrawsTransitive(l, l', l'', {f}, NewFrames(t, u), NewFrames(s, u));
    NeedsLink(s, n, i, w, l, l', f, |NewFrames(t, u)|);
  }

  lemma StepsCompose(root: nat, s: Tables, l: Ledger, t: Tables, l': Ledger, u: Tables, l'': Ledger, w: nat, ok: bool)
    requires w < 0x10_0000_0000 && Sound(root, t, l')
    requires Grows(s, t, w, true) && Grows(t, u, w, ok)
    requires Draws(l, l', NewFrames(s, t)) && Draws(l', l'', NewFrames(t, u))
    requires Needs(s, w, l.queue, |NewFrames(s, t)|) && Needs(t, w, l'.queue, |NewFrames(t, u)|)
    ensures Grows(s, u, w, ok) && Draws(l, l'', NewFrames(s, u))
    ensures Needs(s, w, l.queue, |NewFrames(s, u)|)
  {
    GrowsTransitive(s, t, u, w, ok);
    NewFramesTransitive(s, t, u, w, w);
    hide IsTree, Needs, Keeps, Wanted, Draws;
    DrawsTransitive(l, l', l'', NewFrames(s, t), NewFrames(t, u), NewFrames(s, u));
    NeedsCompose(root, s, t, w, l, l', |NewFrames(t, u)|);
  }

  // ----- exactly when a call succeeds -----

  /** The first k frames of the queue are enough. */
  ghost predicate Suffices(s: Tables, w: nat, q: seq<nat>, k: nat)
    requires w < 0x10_0000_0000
  {
    k <= |q| && |Missing(s, w, Elems(q[..k]))| <= k
  }

  lemma LeafHasPath(root: nat, t: Tables, w: nat)
    requires w < 0x10_0000_0000 && IsTree(root, t) && Leaf(t, w) != 0
    ensures PathNodes(w) <= t.tree.Keys
  {
    PathClosed(root, t, w, 1);
    PathClosed(root, t, w, 2);
  }

  /** After a successful call nothing is missing on the walks for its page and its frames. */
  lemma NothingMissing(root: nat, s: Tables, t: Tables, phys: nat, w: nat)
    requires w < 0x10_0000_0000 && IsTree(root, t) && Maps(s, t, Entry(phys), w, true)
    ensures Missing(s, w, NewFrames(s, t)) <= NewNodes(s, t)
  {
    LeafHasPath(root, t, w);
    forall f | f in NewFrames(s, t) ensures PathNodes(Page(f)) <= t.tree.Keys {
      if Page(f) != w {
        assert SelfMapped(t, f);
        LeafHasPath(root, t, Page(f));
      }
    }
    hide PathNodes, NewFrames, IsTree, Maps;
  }

  /** A call succeeds if and only if some number of frames at the head of the queue is enough, and it
      draws the least such number. */
  lemma SucceedsIff(root: nat, s: Tables, t: Tables, l: Ledger, l': Ledger, phys: nat, w: nat, ok: bool)
    requires w < 0x10_0000_0000 && IsTree(root, t) && Maps(s, t, Entry(phys), w, ok)
    requires Draws(l, l', NewFrames(s, t)) && (!ok ==> l'.queue == [])
    requires Needs(s, w, l.queue, |NewFrames(s, t)|)
    ensures ok <==> exists k: nat :: Suffices(s, w, l.queue, k)
    ensures ok ==> Suffices(s, w, l.queue, |NewFrames(s, t)|)
    ensures forall k: nat :: k < |NewFrames(s, t)| ==> !Suffices(s, w, l.queue, k)
  {
    hide IsTree, Maps, Missing, NewNodes, NewFrames, Draws;
    LeastDraw(s, w, l.queue, |NewFrames(s, t)|);
    if ok {
      EnoughDrawn(root, s, t, l, l', phys, w);
    } else {
      NeverEnough(root, s, t, l, l', phys, w);
    }
  }

  lemma LeastDraw(s: Tables, w: nat, q: seq<nat>, n: nat)
    requires w < 0x10_0000_0000 && Needs(s, w, q, n)
    ensures forall k: nat :: k < n ==> !Suffices(s, w, q, k)
  {
    hide Missing;
  }

  lemma EnoughDrawn(root: nat, s: Tables, t: Tables, l: Ledger, l': Ledger, phys: nat, w: nat)
    requires w < 0x10_0000_0000 && IsTree(root, t) && Maps(s, t, Entry(phys), w, true)
    requires Draws(l, l', NewFrames(s, t))
    ensures Suffices(s, w, l.queue, |NewFrames(s, t)|)
  {
    hide IsTree, Maps, Missing, NewNodes, NewFrames, Elems;
    FramesDrawn(root, s, t, Entry(phys), w, true);
    NothingMissing(root, s, t, phys, w);
    SubsetSize(Missing(s, w, NewFrames(s, t)), NewNodes(s, t));
  }

  lemma NeverEnough(root: nat, s: Tables, t: Tables, l: Ledger, l': Ledger, phys: nat, w: nat)
    requires w < 0x10_0000_0000 && IsTree(root, t) && Maps(s, t, Entry(phys), w, false)
    requires Draws(l, l', NewFrames(s, t)) && l'.queue == []
    requires Needs(s, w, l.queue, |NewFrames(s, t)|)
    ensures forall k: nat :: !Suffices(s, w, l.queue, k)
  {
    hide IsTree, Maps, Missing, NewNodes, NewFrames, Elems;
    FramesDrawn(root, s, t, Entry(phys), w, false);
    SubsetSize(NewNodes(s, t), Missing(s, w, NewFrames(s, t)));
    assert |l.queue| == |NewFrames(s, t)|;
    LeastDraw(s, w, l.queue, |l.queue|);
  }

  /** The first call after the PML4 was cleared fails when fewer than three frames are free. */
  lemma FreshCallNeedsThree(root: nat, s: Tables, w: nat, q: seq<nat>)
    requires w < 0x10_0000_0000 && s.tree == map[Root := root] && |q| < 3
    ensures !exists k: nat :: Suffices(s, w, q, k)
  {
    forall k: nat | k <= |q| ensures |Missing(s, w, Elems(q[..k]))| >= 3 {
      assert Path(w, 1) != Path(w, 2) && Path(w, 2) != Path(w, 3) && Path(w, 1) != Path(w, 3);
      assert |PathNodes(w)| == 3;
      assert PathNodes(w) <= Missing(s, w, Elems(q[..k]));
      SubsetSize(PathNodes(w), Missing(s, w, Elems(q[..k])));
    }
  }
}
