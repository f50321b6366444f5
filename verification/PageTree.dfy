/** The four-level page tables as values (kernel/arch/x86_64/memory/paging.c, kernel/include/globals.h).

    Table memory maps the physical address of a table to its 512 entries. Beside it a ghost tree
    records which table hangs where: Root is the PML4, and Child(n, i) is the table that entry i
    of table n points to. Depth 1 nodes are PDPTs, depth 2 PDs and depth 3 PTs. */
module PageTree {
  import opened Words

  // ----- table entries -----

  /** entry & FLAG_PRESENT */
  predicate Present(entry: nat) {
    entry % 2 == 1
  }

  /** x & ADDR_MASK, where ADDR_MASK is 0x000ffffffffff000: bits 12 to 51. */
  function Address(x: nat): nat {
    x % 0x10_0000_0000_0000 / 4096 * 4096
  }

  /** phys & ADDR_MASK | FLAGS, with FLAGS == 7. */
  function Entry(phys: nat): nat {
    Address(phys) + 7
  }

  lemma EntryFields(phys: nat)
    ensures Present(Entry(phys)) && Address(Entry(phys)) == Address(phys)
    ensures phys % 4096 == 0 && phys < 0x10_0000_0000_0000 ==> Address(phys) == phys
  {
    var k := phys % 0x10_0000_0000_0000 / 4096;
    assert k < 0x100_0000_0000 && Entry(phys) == 4096 * k + 7;
    assert (4096 * k + 7) / 4096 == k && (4096 * k + 7) % 2 == 1;
  }

  /** A table after memset(page, 0, PAGE_SIZE). */
  function Cleared(): seq<nat> {
    seq(512, _ => 0)
  }

  /** table->entry[i] = entry */
  function Store(table: seq<nat>, i: nat, entry: nat): seq<nat>
    requires i < |table|
  {
    table[i := entry]
  }

  // What the source writes with &, | and >> is what the functions above compute.

  lemma Powers()
    ensures Pow2(1) == 2 && Pow2(9) == 0x200 && Pow2(12) == 0x1000 && Pow2(21) == 0x20_0000
    ensures Pow2(30) == 0x4000_0000 && Pow2(39) == 0x80_0000_0000 && Pow2(40) == 0x100_0000_0000
  {
    assert Pow2(9) == 0x200 && Pow2(12) == 0x1000;
    assert Pow2(16) == 0x1_0000 && Pow2(21) == 0x20_0000;
    assert Pow2(25) == 0x200_0000 && Pow2(30) == 0x4000_0000;
    assert Pow2(35) == 0x8_0000_0000 && Pow2(39) == 0x80_0000_0000;
  }

  lemma AddressIsMask(x: nat)
    ensures And(x, 0xf_ffff_ffff_f000) == Address(x)
  {
    hide And, Shr, Pow2;
    Powers();
    HighMask(x, 0xff_ffff_ffff, 12);
    ShiftDivides(x, 12);
    LowMask(x / 4096, 40);
  }

  lemma EntryIsMaskAndFlags(phys: nat)
    ensures Or(And(phys, 0xf_ffff_ffff_f000), 7) == Entry(phys)
  {
    hide And, Or, Pow2;
    Powers();
    AddressIsMask(phys);
    LowFlags(phys % 0x10_0000_0000_0000 / 4096, 7, 12);
  }

  lemma PresentIsFlag(entry: nat)
    ensures And(entry, 1) != 0 <==> Present(entry)
  {
    hide And;
    LowMask(entry, 1);
  }

  lemma OffsetIsMask(virt: nat)
    ensures And(virt, 0xFFF) == virt % 4096
  {
    hide And, Pow2;
    Powers();
    LowMask(virt, 12);
  }

  // ----- virtual addresses -----

  /** The page of a virtual address: bits 12 to 47. */
  function Page(virt: nat): (w: nat)
    ensures w < 0x10_0000_0000
  {
    virt / 4096 % 0x10_0000_0000
  }

  /** The index a page uses at each level. */
  function Index(w: nat, level: nat): (i: nat)
    requires w < 0x10_0000_0000 && level < 4
    ensures i < 512
  {
    if level == 0 then w / 0x800_0000
    else if level == 1 then w / 0x4_0000 % 512
    else if level == 2 then w / 0x200 % 512
    else w % 512
  }

  lemma Digits(w: nat)
    requires w < 0x10_0000_0000
    ensures w == Index(w, 0) * 0x800_0000 + Index(w, 1) * 0x4_0000 + Index(w, 2) * 0x200 + Index(w, 3)
  {
    var a := w / 0x200;
    var b := a / 0x200;
    assert w / 0x4_0000 == b;
    assert w / 0x800_0000 == b / 0x200;
  }

  lemma IndexOfAddress(virt: nat)
    ensures virt / 0x80_0000_0000 % 512 == Index(Page(virt), 0)
    ensures virt / 0x4000_0000 % 512 == Index(Page(virt), 1)
    ensures virt / 0x20_0000 % 512 == Index(Page(virt), 2)
    ensures virt / 0x1000 % 512 == Index(Page(virt), 3)
  {
    var w, high, low := Page(virt), virt / 0x1_0000_0000_0000, virt % 4096;
    Digits(w);
    var a, b, c, d := Index(w, 0), Index(w, 1), Index(w, 2), Index(w, 3);
    PageOffset(virt);
    TopIndex(high, a, b, c, d, low);
  }

  /** The indices as the source computes them. */
  lemma IndexIsShift(virt: nat)
    ensures And(Shr(virt, 39), 0x1FF) == Index(Page(virt), 0)
    ensures And(Shr(virt, 30), 0x1FF) == Index(Page(virt), 1)
    ensures And(Shr(virt, 21), 0x1FF) == Index(Page(virt), 2)
    ensures And(Shr(virt, 12), 0x1FF) == Index(Page(virt), 3)
  {
    hide And, Shr, Pow2, Index, Page;
    Powers();
    IndexOfAddress(virt);
    ShiftDivides(virt, 39);
    ShiftDivides(virt, 30);
    ShiftDivides(virt, 21);
    ShiftDivides(virt, 12);
    LowMask(Shr(virt, 39), 9);
    LowMask(Shr(virt, 30), 9);
    LowMask(Shr(virt, 21), 9);
    LowMask(Shr(virt, 12), 9);
  }

  lemma PageOffset(virt: nat)
    ensures virt == virt / 0x1_0000_0000_0000 * 0x1_0000_0000_0000 + Page(virt) * 4096 + virt % 4096
  {
    assert virt / 4096 / 0x10_0000_0000 == virt / 0x1_0000_0000_0000;
  }

  lemma TopIndex(high: nat, a: nat, b: nat, c: nat, d: nat, low: nat)
    requires a < 512 && b < 512 && c < 512 && d < 512 && low < 4096
    ensures
      var virt := high * 0x1_0000_0000_0000 + a * 0x80_0000_0000 + b * 0x4000_0000 + c * 0x20_0000 + d * 0x1000 + low;
      && virt / 0x80_0000_0000 % 512 == a
      && virt / 0x4000_0000 % 512 == b
      && virt / 0x20_0000 % 512 == c
      && virt / 0x1000 % 512 == d
  {
    var virt := high * 0x1_0000_0000_0000 + a * 0x80_0000_0000 + b * 0x4000_0000 + c * 0x20_0000 + d * 0x1000 + low;
    Digit39(high, a, b * 0x4000_0000 + c * 0x20_0000 + d * 0x1000 + low);
    Digit30(high * 512 + a, b, c * 0x20_0000 + d * 0x1000 + low);
    Digit21((high * 512 + a) * 512 + b, c, d * 0x1000 + low);
    Digit12(((high * 512 + a) * 512 + b) * 512 + c, d, low);
  }

  lemma Digit39(high: nat, i: nat, low: nat)
    requires i < 512 && low < 0x80_0000_0000
    ensures (high * 0x1_0000_0000_0000 + i * 0x80_0000_0000 + low) / 0x80_0000_0000 % 512 == i
  {
    assert (high * 0x1_0000_0000_0000 + i * 0x80_0000_0000 + low) / 0x80_0000_0000 == high * 512 + i;
  }

  lemma Digit30(high: nat, i: nat, low: nat)
    requires i < 512 && low < 0x4000_0000
    ensures (high * 0x80_0000_0000 + i * 0x4000_0000 + low) / 0x4000_0000 % 512 == i
  {
    assert (high * 0x80_0000_0000 + i * 0x4000_0000 + low) / 0x4000_0000 == high * 512 + i;
  }

  lemma Digit21(high: nat, i: nat, low: nat)
    requires i < 512 && low < 0x20_0000
    ensures (high * 0x4000_0000 + i * 0x20_0000 + low) / 0x20_0000 % 512 == i
  {
    assert (high * 0x4000_0000 + i * 0x20_0000 + low) / 0x20_0000 == high * 512 + i;
  }

  lemma Digit12(high: nat, i: nat, low: nat)
    requires i < 512 && low < 0x1000
    ensures (high * 0x20_0000 + i * 0x1000 + low) / 0x1000 % 512 == i
  {
    assert (high * 0x20_0000 + i * 0x1000 + low) / 0x1000 == high * 512 + i;
  }

  /** Four indices determine the page. */
  lemma IndicesDeterminePage(v: nat, w: nat)
    requires v < 0x10_0000_0000 && w < 0x10_0000_0000
    requires forall level :: 0 <= level < 4 ==> Index(v, level) == Index(w, level)
    ensures v == w
  {
    Digits(v);
    Digits(w);
    assert Index(v, 0) == Index(w, 0) && Index(v, 1) == Index(w, 1);
    assert Index(v, 2) == Index(w, 2) && Index(v, 3) == Index(w, 3);
  }

  // ----- the tree of tables -----

  datatype Node = Root | Child(up: Node, i: nat)

  function Depth(n: Node): nat {
    if n.Root? then 0 else 1 + Depth(n.up)
  }

  /** The table a walk for page w visits at a depth. */
  function Path(w: nat, d: nat): (n: Node)
    requires w < 0x10_0000_0000 && d <= 3
    ensures Depth(n) == d
  {
    if d == 0 then Root else Child(Path(w, d - 1), Index(w, d - 1))
  }

  /** Two pages share their page table and slot only if they are the same page. */
  lemma SlotsDeterminePage(v: nat, w: nat)
    requires v < 0x10_0000_0000 && w < 0x10_0000_0000
    requires Path(v, 3) == Path(w, 3) && Index(v, 3) == Index(w, 3)
    ensures v == w
  {
    assert Path(v, 2) == Path(w, 2) && Path(v, 1) == Path(w, 1);
    IndicesDeterminePage(v, w);
  }

  /** Table memory, and the tree it represents. */
  datatype Tables = Tables(mem: map<nat, seq<nat>>, tree: map<Node, nat>)

  /** One table: it has 512 entries, its parent is in the tree, and above the last level an entry is
      the address of the child the tree has there with the three flags set, or 0 if there is none. */
  predicate TableOk(s: Tables, n: Node)
    requires n in s.tree
  {
    && Depth(n) <= 3
    && (n.Child? ==> n.up in s.tree && n.i < 512)
    && s.tree[n] in s.mem && |s.mem[s.tree[n]]| == 512
    && (Depth(n) < 3 ==> forall i :: 0 <= i < 512 ==> LinkOk(s, n, i))
  }

  predicate LinkOk(s: Tables, n: Node, i: nat)
    requires n in s.tree && s.tree[n] in s.mem && i < |s.mem[s.tree[n]]|
  {
    var entry := s.mem[s.tree[n]][i];
    && (Present(entry) <==> Child(n, i) in s.tree)
    && (Child(n, i) in s.tree ==> Address(entry) == s.tree[Child(n, i)])
    && entry == if Child(n, i) in s.tree then Or(And(s.tree[Child(n, i)], 0xf_ffff_ffff_f000), 7) else 0
  }

  /** In a tree every table below the PML4 hangs in its parent as a present, writable entry for user
      mode, and the other entries above the last level are 0. */
  lemma UpperEntries(root: nat, s: Tables, n: Node, i: nat)
    requires IsTree(root, s)
    ensures n in s.tree && n != Root ==>
              && n.up in s.tree && s.tree[n.up] in s.mem && n.i < |s.mem[s.tree[n.up]]|
              && s.mem[s.tree[n.up]][n.i] == Or(And(s.tree[n], 0xf_ffff_ffff_f000), 7)
    ensures n in s.tree && Depth(n) < 3 && i < 512 && Child(n, i) !in s.tree ==>
              s.tree[n] in s.mem && i < |s.mem[s.tree[n]]| && s.mem[s.tree[n]][i] == 0
  {
    hide And, Or, Present, Address;
    if n in s.tree {
      assert TableOk(s, n);
      if n.Child? {
        assert TableOk(s, n.up);
        assert LinkOk(s, n.up, n.i);
      }
      if Depth(n) < 3 && i < 512 {
        assert LinkOk(s, n, i);
      }
    }
  }

  /** The tables form a tree: no table is reached by two paths or at two levels. */
  ghost predicate IsTree(root: nat, s: Tables) {
    && Root in s.tree && s.tree[Root] == root
    && (forall n :: n in s.tree ==> TableOk(s, n))
    && (forall m, n :: m in s.tree && n in s.tree && s.tree[m] == s.tree[n] ==> m == n)
  }

  lemma {:induction false} PathClosed(root: nat, s: Tables, w: nat, d: nat)
    requires IsTree(root, s) && w < 0x10_0000_0000 && d <= 3
    requires Path(w, 3) in s.tree
    ensures Path(w, d) in s.tree
    decreases 3 - d
  {
    if d < 3 {
      PathClosed(root, s, w, d + 1);
      assert TableOk(s, Path(w, d + 1));
    }
  }

  /** The last-level entry of a page; 0 where a table on the way is missing. */
  ghost function Leaf(s: Tables, w: nat): nat
    requires w < 0x10_0000_0000
  {
    var t := Path(w, 3);
    if t in s.tree && s.tree[t] in s.mem && |s.mem[s.tree[t]]| == 512
    then s.mem[s.tree[t]][Index(w, 3)]
    else 0
  }

  // ----- the two ways map_page changes the tables -----

  /** A cleared frame f is hung under entry i of table n. */
  ghost function Link(s: Tables, n: Node, i: nat, f: nat): Tables
    requires n in s.tree && s.tree[n] in s.mem && s.tree[n] != f && i < |s.mem[s.tree[n]]|
  {
    Tables(s.mem[f := Cleared()][s.tree[n] := Store(s.mem[s.tree[n]], i, Entry(f))], s.tree[Child(n, i) := f])
  }

  lemma LinkKeepsTree(root: nat, s: Tables, n: Node, i: nat, f: nat)
    requires IsTree(root, s) && n in s.tree && Depth(n) < 3 && i < 512
    requires Child(n, i) !in s.tree
    requires f % 4096 == 0 && f < 0x10_0000_0000_0000
    requires forall m :: m in s.tree ==> s.tree[m] != f
    ensures TableOk(s, n) && IsTree(root, Link(s, n, i, f))
  {
    hide TableOk, Entry, Cleared, Store;
    NewTableOk(root, s, n, i, f);
    LinkDefined(s, n, i, f);
    var s' := Link(s, n, i, f);
    forall m | m in s.tree ensures TableOk(s', m) {
      OldTableOk(root, s, n, i, f, m);
    }
  }

  lemma LinkDefined(s: Tables, n: Node, i: nat, f: nat)
    requires n in s.tree && TableOk(s, n) && i < 512 && s.tree[n] != f
    ensures s.tree[n] in s.mem && i < |s.mem[s.tree[n]]|
  {}

  lemma OldTableOk(root: nat, s: Tables, n: Node, i: nat, f: nat, m: Node)
    requires IsTree(root, s) && n in s.tree && Depth(n) < 3 && i < 512 && Child(n, i) !in s.tree
    requires f % 4096 == 0 && f < 0x10_0000_0000_0000 && forall m :: m in s.tree ==> s.tree[m] != f
    requires m in s.tree
    ensures TableOk(s, n) && TableOk(Link(s, n, i, f), m)
  {
    hide LinkOk, Entry;
    assert TableOk(s, n) && TableOk(s, m);
    forall k | 0 <= k < 512 && Depth(m) < 3 ensures LinkOk(Link(s, n, i, f), m, k) {
      OldLinkOk(root, s, n, i, f, m, k);
    }
  }

  lemma OldLinkOk(root: nat, s: Tables, n: Node, i: nat, f: nat, m: Node, k: nat)
    requires IsTree(root, s) && n in s.tree && Depth(n) < 3 && i < 512 && Child(n, i) !in s.tree
    requires f % 4096 == 0 && f < 0x10_0000_0000_0000 && forall m :: m in s.tree ==> s.tree[m] != f
    requires m in s.tree && Depth(m) < 3 && k < 512
    ensures TableOk(s, n) && TableOk(s, m) && LinkOk(Link(s, n, i, f), m, k)
  {
    hide Address, Entry, Present, And, Or;
    assert TableOk(s, n) && TableOk(s, m) && LinkOk(s, m, k);
    EntryFields(f);
    EntryIsMaskAndFlags(f);
    var t := Link(s, n, i, f);
    if m == n {
      assert t.mem[t.tree[m]] == Store(s.mem[s.tree[n]], i, Entry(f));
    } else {
      assert t.mem[t.tree[m]] == s.mem[s.tree[m]];
    }
  }

  /** The new table is cleared and has no tables below it. */
  lemma NewTableOk(root: nat, s: Tables, n: Node, i: nat, f: nat)
    requires IsTree(root, s) && n in s.tree && Depth(n) < 3 && i < 512 && Child(n, i) !in s.tree
    requires forall m :: m in s.tree ==> s.tree[m] != f
    ensures TableOk(s, n) && TableOk(Link(s, n, i, f), Child(n, i))
  {
    hide And, Or, Entry;
    assert TableOk(s, n);
    var c, s' := Child(n, i), Link(s, n, i, f);
    forall k | 0 <= k < 512 && Depth(c) < 3 ensures LinkOk(s', c, k) {
      assert Child(c, k) !in s.tree;
    }
  }

  lemma LinkKeepsLeaves(root: nat, s: Tables, n: Node, i: nat, f: nat, v: nat)
    requires IsTree(root, s) && n in s.tree && Depth(n) < 3 && i < 512
    requires Child(n, i) !in s.tree
    requires forall m :: m in s.tree ==> s.tree[m] != f
    requires v < 0x10_0000_0000
    ensures TableOk(s, n) && Leaf(Link(s, n, i, f), v) == Leaf(s, v)
  {
    hide Index, LinkOk, Entry, And, Or;
    assert TableOk(s, n);
    var t := Path(v, 3);
    if t in s.tree {
      assert TableOk(s, t);
    }
  }

  /** The last-level entry of page w is written. */
  ghost function SetLeaf(s: Tables, w: nat, entry: nat): Tables
    requires w < 0x10_0000_0000
    requires Path(w, 3) in s.tree && s.tree[Path(w, 3)] in s.mem && |s.mem[s.tree[Path(w, 3)]]| == 512
  {
    var t := s.tree[Path(w, 3)];
    s.(mem := s.mem[t := Store(s.mem[t], Index(w, 3), entry)])
  }

  lemma SetLeafKeepsTree(root: nat, s: Tables, w: nat, entry: nat)
    requires IsTree(root, s) && w < 0x10_0000_0000 && Path(w, 3) in s.tree
    ensures TableOk(s, Path(w, 3)) && IsTree(root, SetLeaf(s, w, entry))
    ensures Leaf(SetLeaf(s, w, entry), w) == entry
  {
    hide And, Or, Present, Address;
    assert TableOk(s, Path(w, 3));
    var s' := SetLeaf(s, w, entry);
    forall m | m in s'.tree ensures TableOk(s', m) {
      assert TableOk(s, m);
      forall k | 0 <= k < 512 && Depth(m) < 3 ensures LinkOk(s', m, k) {
        assert LinkOk(s, m, k);
      }
    }
  }

  lemma SetLeafKeepsLeaves(root: nat, s: Tables, w: nat, entry: nat, v: nat)
    requires IsTree(root, s) && w < 0x10_0000_0000 && Path(w, 3) in s.tree
    requires v < 0x10_0000_0000 && v != w
    ensures TableOk(s, Path(w, 3)) && Leaf(SetLeaf(s, w, entry), v) == Leaf(s, v)
  {
    hide LinkOk;
    assert TableOk(s, Path(w, 3));
    var t := Path(v, 3);
    if t in s.tree {
      assert TableOk(s, t);
      if t == Path(w, 3) && Index(v, 3) == Index(w, 3) {
        SlotsDeterminePage(v, w);
      }
    }
  }
}
