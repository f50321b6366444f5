/** init_paging as the sequence of its map_page calls (kernel/arch/x86_64/memory/paging.c:66-113): which
    pages of the kernel heap and which free frames are mapped when it returns. */
module InitPaging {
  import opened FrameBitmap
  import opened PageTree
  import opened PageMap
  import opened Paging
  import opened PageRuns
  import opened HeapMap
  import opened HeapPaging
  import opened HeapFrames
  import Spans
  import HeapTables
  import Heap
  import PageDemand

  /** What the boot loader hands over; `pages` is the number of bits of the frame bitmap, `entries` that
      of freemap entries of 16 bytes. */
  datatype Boot = Boot(kernelPaddr: nat, kernelVaddr: nat, kernelSize: nat, stackPaddr: nat, fbAddr: nat, fbSize: nat,
                       bitmap: nat, pages: nat, freemap: nat, entries: nat)
  {
    /** The addresses are those of pages the boot loader allocated, and the kernel image ends below the
        kernel heap. */
    predicate Sane() {
      && FrameOk(stackPaddr) && FrameOk(freemap) && FrameOk(bitmap) && bitmap + 4096 < 0x1_0000_0000_0000
      && 0x10_0000_0000 <= kernelVaddr && kernelVaddr + kernelSize <= 0x18_0000_0000
      && fbSize <= 0x7000_0000_0000
      && 0 < pages <= 0x10_0000_0000
      && (freemap + Pages(entries * 16) * 4096 <= bitmap || bitmap + 4096 <= freemap)
    }

    /** The page has an address that init_paging maps to something else. */
    predicate Claimed(w: nat) {
      || kernelVaddr / 4096 <= w < kernelVaddr / 4096 + Pages(kernelSize)
      || 0x180_0000 <= w < 0x200_0000
      || 0x800_0000 <= w < 0x800_0000 + Pages(fbSize)
    }
  }

  function Pages(bytes: nat): nat {
    (bytes + 4095) / 4096
  }

  /** A loop that maps n pages. */
  function MapRange(phys: nat, virt: nat, n: nat): seq<Call> {
    seq(n, (i: nat) => MapCall(phys + i * 4096, virt + i * 4096))
  }

  /** pmem_bmap_pages, which init_globals computes with one page for every 8 * 4096 * 4096 bits. */
  function BitmapPages(pages: nat): nat {
    (pages + 0x7FF_FFFF) / 0x800_0000
  }

  /** The bitmap loop runs while an address is less than BitmapPages bytes past the start. */
  function InitCalls(b: Boot): seq<Call> {
    MapRange(b.kernelPaddr, b.kernelVaddr, Pages(b.kernelSize)) +
    [MapCall(b.stackPaddr, 0x20_0000_0000 - 4096)] +
    MapRange(b.fbAddr, 0x80_0000_0000, Pages(b.fbSize)) +
    MapRange(b.bitmap, 0x18_0000_1000, Pages(BitmapPages(b.pages))) +
    [MapCall(b.freemap, 0x18_0000_0000)]
  }

  // ----- the pages the calls are about -----

  predicate Targets(calls: seq<Call>, w: nat, phys: nat) {
    exists c :: && c in calls && c.MapCall? && c.phys == phys && phys % 4096 == 0
                && c.virt % 4096 == 0 && Page(c.virt) == w
  }

  lemma TargetsAppend(a: seq<Call>, b: seq<Call>, w: nat, phys: nat)
    ensures Targets(a + b, w, phys) <==> Targets(a, w, phys) || Targets(b, w, phys)
  {
    hide Page;
    assert forall c :: c in a + b <==> c in a || c in b;
  }

  lemma TargetsOne(p: nat, virt: nat, w: nat, phys: nat)
    requires virt % 4096 == 0 && virt < 0x1_0000_0000_0000 && p % 4096 == 0
    ensures Targets([MapCall(p, virt)], w, phys) <==> w == virt / 4096 && phys == p
  {
    var c := MapCall(p, virt);
    assert c in [c];
    assert Page(virt) == virt / 4096;
  }

  lemma PageInRange(virt: nat, i: nat, n: nat)
    requires virt + n * 4096 <= 0x1_0000_0000_0000 && i < n
    ensures Page(virt + i * 4096) == virt / 4096 + i
  {
    assert (virt + i * 4096) / 4096 == virt / 4096 + i;
  }

  lemma SameOffsets(p: nat, virt: nat, i: nat)
    ensures (p + i * 4096) % 4096 == p % 4096 && (virt + i * 4096) % 4096 == virt % 4096
  {}

  /** Page w is one of n pages from virt on, and phys the frame as far behind p. */
  predicate RangeTarget(p: nat, virt: nat, n: nat, w: nat, phys: nat) {
    && p % 4096 == 0 && virt % 4096 == 0
    && virt / 4096 <= w < virt / 4096 + n && phys == p + (w - virt / 4096) * 4096
  }

  lemma TargetsRange(p: nat, virt: nat, n: nat, w: nat, phys: nat)
    requires virt + n * 4096 <= 0x1_0000_0000_0000
    ensures Targets(MapRange(p, virt, n), w, phys) <==> RangeTarget(p, virt, n, w, phys)
  {
    hide Page;
    var calls := MapRange(p, virt, n);
    if Targets(calls, w, phys) {
      var c :| c in calls && c.MapCall? && c.phys == phys && c.virt % 4096 == 0 && Page(c.virt) == w;
      var i :| 0 <= i < |calls| && calls[i] == c;
      PageInRange(virt, i, n);
      SameOffsets(p, virt, i);
    }
    if RangeTarget(p, virt, n, w, phys) {
      TargetInRange(p, virt, n, w - virt / 4096);
    }
  }

  lemma TargetInRange(p: nat, virt: nat, n: nat, i: nat)
    requires virt + n * 4096 <= 0x1_0000_0000_0000 && virt % 4096 == 0 && p % 4096 == 0 && i < n
    ensures Targets(MapRange(p, virt, n), virt / 4096 + i, p + i * 4096)
  {
    hide Page;
    var c := MapCall(p + i * 4096, virt + i * 4096);
    assert MapRange(p, virt, n)[i] == c;
    PageInRange(virt, i, n);
  }

  /** Which pages of the kernel heap the calls of init_paging are about, and with which frames. */
  predicate HeapTarget(b: Boot, w: nat, phys: nat) {
    || (w == 0x180_0000 && phys == b.freemap)
    || (w == 0x180_0001 && phys == b.bitmap)
    || (w == 0x1FF_FFFF && phys == b.stackPaddr)
  }

  /** Which pages init_paging is about, and with which frames: the kernel image, the frame buffer, and
      three pages of the kernel heap. */
  predicate PageTarget(b: Boot, w: nat, phys: nat) {
    || RangeTarget(b.kernelPaddr, b.kernelVaddr, Pages(b.kernelSize), w, phys)
    || RangeTarget(b.fbAddr, 0x80_0000_0000, Pages(b.fbSize), w, phys)
    || HeapTarget(b, w, phys)
  }

  lemma OneBitmapPage(pages: nat)
    requires 0 < pages <= 0x10_0000_0000
    ensures Pages(BitmapPages(pages)) == 1
  {}

  lemma InitTargets(b: Boot, w: nat, phys: nat)
    requires b.Sane()
    ensures Targets(InitCalls(b), w, phys) <==> PageTarget(b, w, phys)
    ensures 0x180_0000 <= w < 0x200_0000 ==> (Targets(InitCalls(b), w, phys) <==> HeapTarget(b, w, phys))
    ensures !b.Claimed(w) ==> !Targets(InitCalls(b), w, phys)
  {
    var kernel := MapRange(b.kernelPaddr, b.kernelVaddr, Pages(b.kernelSize));
    var fb := MapRange(b.fbAddr, 0x80_0000_0000, Pages(b.fbSize));
    var bitmap := MapRange(b.bitmap, 0x18_0000_1000, Pages(BitmapPages(b.pages)));
    var stack, freemap := [MapCall(b.stackPaddr, 0x20_0000_0000 - 4096)], [MapCall(b.freemap, 0x18_0000_0000)];
    OneBitmapPage(b.pages);
    TargetsRange(b.kernelPaddr, b.kernelVaddr, Pages(b.kernelSize), w, phys);
    TargetsRange(b.fbAddr, 0x80_0000_0000, Pages(b.fbSize), w, phys);
    TargetsRange(b.bitmap, 0x18_0000_1000, 1, w, phys);
    TargetsOne(b.stackPaddr, 0x20_0000_0000 - 4096, w, phys);
    TargetsOne(b.freemap, 0x18_0000_0000, w, phys);
    hide Targets, MapRange, BitmapPages;
    TargetsAppend(kernel + stack + fb + bitmap, freemap, w, phys);
    TargetsAppend(kernel + stack + fb, bitmap, w, phys);
    TargetsAppend(kernel + stack, fb, w, phys);
    TargetsAppend(kernel, stack, w, phys);
  }

  // ----- the tables afterwards -----

  /** No frame has an address that init_paging maps elsewhere; with less than 64 GB of memory this always
      holds. */
  predicate FramesApart(b: Boot, l: Ledger) {
    forall f :: f in l.used + l.free ==> FrameOk(f) && !b.Claimed(f / 4096)
  }

  lemma LowFramesAreApart(b: Boot, l: Ledger)
    requires b.Sane() && forall f :: f in l.used + l.free ==> FrameOk(f) && f < 0x10_0000_0000
    ensures FramesApart(b, l)
  {}

  /** The run of calls that init_paging is. */
  ghost predicate IsInit(root: nat, b: Boot, ops: seq<Op>, ms: seq<Machine>) {
    && b.Sane() && |ms| == |ops| + 1 && IsRun(root, ops, ms) && FramesApart(b, ms[0].frames)
    && |ops| == |InitCalls(b)|
    && (forall i :: 0 <= i < |ops| ==> Records(InitCalls(b)[i], ops[i]))
  }

  lemma OpTargets(root: nat, b: Boot, ops: seq<Op>, ms: seq<Machine>, i: nat)
    requires IsInit(root, b, ops, ms) && i < |ops| && Aligned(ops[i])
    ensures Targets(InitCalls(b), Page(ops[i].virt), ops[i].phys)
  {
    hide InitCalls, Page, IsRun, Boot.Sane;
    assert InitCalls(b)[i] in InitCalls(b);
  }

  lemma OnlyMapCalls(b: Boot, c: Call)
    requires c in InitCalls(b)
    ensures c.MapCall?
  {}

  lemma TargetMapped(root: nat, b: Boot, ops: seq<Op>, ms: seq<Machine>, w: nat, phys: nat)
    requires IsInit(root, b, ops, ms) && Targets(InitCalls(b), w, phys)
    ensures MappedByRun(ops, w)
  {
    hide InitCalls, Page, IsRun, Boot.Sane;
    var c :| && c in InitCalls(b) && c.MapCall? && c.phys == phys && phys % 4096 == 0
             && c.virt % 4096 == 0 && Page(c.virt) == w;
    var i :| 0 <= i < |ops| && InitCalls(b)[i] == c;
    assert Records(InitCalls(b)[i], ops[i]);
  }

  lemma InitIsPolite(root: nat, b: Boot, ops: seq<Op>, ms: seq<Machine>)
    requires IsInit(root, b, ops, ms)
    ensures Polite(ops, ms[0].frames.used + ms[0].frames.free)
  {
    hide InitCalls, Page, IsRun, Boot.Sane, Entry;
    forall i | 0 <= i < |ops| && Aligned(ops[i])
      ensures Page(ops[i].virt) * 4096 !in ms[0].frames.used + ms[0].frames.free
    {
      assert Page(ops[i].virt) * 4096 / 4096 == Page(ops[i].virt);
      OpTargets(root, b, ops, ms, i);
      InitTargets(b, Page(ops[i].virt), ops[i].phys);
    }
  }

  /** The entry of every page that is no table: that of the one call for it, if there is one. */
  lemma PageEntries(root: nat, b: Boot, ops: seq<Op>, ms: seq<Machine>, w: nat)
    requires IsInit(root, b, ops, ms) && w < 0x10_0000_0000 && !IsTable(ms[|ops|].tables, w * 4096)
    ensures
      var t := ms[|ops|].tables;
      && (Mapped(t, w) <==> exists phys :: PageTarget(b, w, phys))
      && (Mapped(t, w) ==> exists phys :: PageTarget(b, w, phys) && Leaf(t, w) == Entry(phys))
  {
    hide InitCalls, Page, IsRun, Boot.Sane, Entry, Present, Address, Leaf, PageTarget, HeapTarget;
    var t := ms[|ops|].tables;
    InitIsPolite(root, b, ops, ms);
    RunImplementsFlatMap(root, ops, ms, w);
    LastEntryPresent(ops, w);
    if Mapped(t, w) {
      var i := LastEntryFrom(ops, w);
      OpTargets(root, b, ops, ms, i);
      InitTargets(b, w, ops[i].phys);
    }
    if phys :| PageTarget(b, w, phys) {
      InitTargets(b, w, phys);
      TargetMapped(root, b, ops, ms, w, phys);
    }
  }

  /** The entries of the kernel heap's pages. */
  lemma HeapEntries(root: nat, b: Boot, ops: seq<Op>, ms: seq<Machine>, w: nat)
    requires IsInit(root, b, ops, ms) && 0x180_0000 <= w < 0x200_0000
    ensures
      var t := ms[|ops|].tables;
      && (Mapped(t, w) <==> w == 0x180_0000 || w == 0x180_0001 || w == 0x1FF_FFFF)
      && (Mapped(t, w) ==> exists phys :: HeapTarget(b, w, phys) && FrameOf(t, w) == phys)
  {
    hide InitCalls, Page, IsRun, Boot.Sane, Entry, Present, Address, Leaf, PageTarget;
    var t := ms[|ops|].tables;
    NoClaimedTable(root, b, ops, ms, w);
    PageEntries(root, b, ops, ms, w);
    forall phys ensures PageTarget(b, w, phys) <==> HeapTarget(b, w, phys) {
      InitTargets(b, w, phys);
    }
    SomeTarget(b, w);
    if Mapped(t, w) {
      var phys :| PageTarget(b, w, phys) && Leaf(t, w) == Entry(phys);
      TargetAddress(b, w, phys);
    }
  }

  lemma SomeTarget(b: Boot, w: nat)
    ensures (exists phys :: HeapTarget(b, w, phys)) <==> w == 0x180_0000 || w == 0x180_0001 || w == 0x1FF_FFFF
  {
    assert w == 0x180_0000 ==> HeapTarget(b, w, b.freemap);
    assert w == 0x180_0001 ==> HeapTarget(b, w, b.bitmap);
    assert w == 0x1FF_FFFF ==> HeapTarget(b, w, b.stackPaddr);
  }

  lemma TargetAddress(b: Boot, w: nat, phys: nat)
    requires b.Sane() && HeapTarget(b, w, phys)
    ensures phys != 0 && Address(Entry(phys)) == phys
  {
    EntryFields(phys);
  }

  lemma NoClaimedTable(root: nat, b: Boot, ops: seq<Op>, ms: seq<Machine>, w: nat)
    requires IsInit(root, b, ops, ms) && b.Claimed(w)
    ensures !IsTable(ms[|ops|].tables, w * 4096)
  {
    hide InitCalls, IsRun, Boot.Sane, Boot.Claimed;
    FramesStay(root, ops, ms, |ops|);
    assert w * 4096 / 4096 == w;
  }

  function Plus(virt: nat, q: nat): nat {
    virt + q
  }

  /** Every one of the bytes from virt on resolves to the byte as far behind phys. */
  ghost predicate BytesMapped(t: Tables, virt: nat, phys: nat, bytes: nat) {
    forall q: nat :: q < bytes ==> Lookup(t, Plus(virt, q)) == phys + q
  }

  lemma ByteInRange(virt: nat, phys: nat, q: nat)
    requires virt % 4096 == 0 && phys % 4096 == 0 && virt + q < 0x1_0000_0000_0000
    ensures Page(virt + q) == virt / 4096 + q / 4096 && (virt + q) % 4096 == q % 4096
    ensures (phys + q / 4096 * 4096) % 4096 == 0 && phys + q / 4096 * 4096 + q % 4096 == phys + q
  {
    assert (virt + q) / 4096 == virt / 4096 + q / 4096;
  }

  /** What the entry of a page says about one of its bytes. */
  lemma EntryResolves(t: Tables, virt: nat, phys: nat, q: nat)
    requires virt % 4096 == 0 && phys % 4096 == 0 && virt + q < 0x1_0000_0000_0000
    requires phys + q / 4096 * 4096 < 0x10_0000_0000_0000
    requires Leaf(t, virt / 4096 + q / 4096) == Entry(phys + q / 4096 * 4096)
    ensures Lookup(t, virt + q) == phys + q
  {
    ByteInRange(virt, phys, q);
    EntryFields(phys + q / 4096 * 4096);
    hide Leaf, Entry, Address, Present, Page;
  }

  /** A range that init_paging maps: every byte of it resolves. */
  lemma RangeResolves(root: nat, b: Boot, ops: seq<Op>, ms: seq<Machine>, virt: nat, phys: nat, n: nat)
    requires IsInit(root, b, ops, ms) && virt % 4096 == 0 && phys % 4096 == 0
    requires virt + n * 4096 <= 0x1_0000_0000_0000 && phys + n * 4096 <= 0x10_0000_0000_0000
    requires forall w: nat, f :: virt / 4096 <= w < virt / 4096 + n ==>
               (PageTarget(b, w, f) <==> f == phys + (w - virt / 4096) * 4096)
    requires forall w: nat :: virt / 4096 <= w < virt / 4096 + n ==> b.Claimed(w)
    ensures BytesMapped(ms[|ops|].tables, virt, phys, n * 4096)
  {
    hide IsRun, InitCalls, PageTarget, Leaf, Entry, IsTable, Mapped, Boot.Claimed, Lookup;
    var t := ms[|ops|].tables;
    forall q: nat | q < n * 4096 ensures Lookup(t, Plus(virt, q)) == phys + q {
      var w := virt / 4096 + q / 4096;
      NoClaimedTable(root, b, ops, ms, w);
      PageEntries(root, b, ops, ms, w);
      assert PageTarget(b, w, phys + (w - virt / 4096) * 4096);
      EntryResolves(t, virt, phys, q);
    }
  }

  /** The pages init_paging maps. */
  predicate Covered(b: Boot, w: nat) {
    || (b.kernelPaddr % 4096 == 0 && b.kernelVaddr % 4096 == 0 &&
        b.kernelVaddr / 4096 <= w < b.kernelVaddr / 4096 + (b.kernelSize + 4095) / 4096)
    || (b.fbAddr % 4096 == 0 && 0x800_0000 <= w < 0x800_0000 + (b.fbSize + 4095) / 4096)
    || w == 0x180_0000 || w == 0x180_0001 || w == 0x1FF_FFFF
  }

  /** What init_paging is for: the kernel image, the frame buffer and the stack resolve to their memory, and
      every page that is neither one of these, nor one of the first two of the heap, nor a table, is not
      mapped. */
  ghost predicate ImageMapped(t: Tables, b: Boot) {
    && (b.kernelPaddr % 4096 == 0 && b.kernelVaddr % 4096 == 0 &&
        b.kernelPaddr + (b.kernelSize + 4095) / 4096 * 4096 <= 0x10_0000_0000_0000 ==>
          BytesMapped(t, b.kernelVaddr, b.kernelPaddr, (b.kernelSize + 4095) / 4096 * 4096))
    && (b.fbAddr % 4096 == 0 && b.fbAddr + (b.fbSize + 4095) / 4096 * 4096 <= 0x10_0000_0000_0000 ==>
          BytesMapped(t, 0x80_0000_0000, b.fbAddr, (b.fbSize + 4095) / 4096 * 4096))
    && BytesMapped(t, 0x1F_FFFF_F000, b.stackPaddr, 4096)
    && (forall w :: 0 <= w < 0x10_0000_0000 && !Covered(b, w) && !IsTable(t, w * 4096) ==> !Mapped(t, w))
  }

  lemma InitImage(root: nat, b: Boot, ops: seq<Op>, ms: seq<Machine>)
    requires IsInit(root, b, ops, ms)
    ensures ImageMapped(ms[|ops|].tables, b)
  {
    hide IsRun, InitCalls, Mapped, BytesMapped, IsTable, FramesApart;
    var t := ms[|ops|].tables;
    if b.kernelPaddr % 4096 == 0 && b.kernelVaddr % 4096 == 0 &&
       b.kernelPaddr + Pages(b.kernelSize) * 4096 <= 0x10_0000_0000_0000 {
      RangeResolves(root, b, ops, ms, b.kernelVaddr, b.kernelPaddr, Pages(b.kernelSize));
    }
    if b.fbAddr % 4096 == 0 && b.fbAddr + Pages(b.fbSize) * 4096 <= 0x10_0000_0000_0000 {
      RangeResolves(root, b, ops, ms, 0x80_0000_0000, b.fbAddr, Pages(b.fbSize));
    }
    RangeResolves(root, b, ops, ms, 0x1F_FFFF_F000, b.stackPaddr, 1);
    forall w | 0 <= w < 0x10_0000_0000 && !Covered(b, w) && !IsTable(t, w * 4096) ensures !Mapped(t, w) {
      PageEntries(root, b, ops, ms, w);
    }
  }

  /** The page of the bitmap word that holds bit k, after pmem_bmap was moved to the second heap page. */
  function WordPage(k: nat): nat {
    (0x18_0000_1000 + k / 32 * 4) / 4096
  }

  /** Every bitmap word the allocator can touch is mapped. */
  ghost predicate BitmapMapped(t: Tables, pages: nat)
    requires pages <= 0x10_0000_0000
  {
    forall k: nat :: k < pages ==> WordPage(k) < 0x10_0000_0000 && Mapped(t, WordPage(k))
  }

  /** Only one page of the bitmap is mapped, so that all of it is exactly if it has one page. */
  lemma BitmapMappedIff(t: Tables, pages: nat)
    requires AsInitPagingLeaves(t) && pages <= 0x10_0000_0000
    ensures BitmapMapped(t, pages) <==> pages <= 32768
  {
    hide Mapped;
    assert WordPage(32768) == 0x180_0002;
    if pages <= 32768 {
      forall k: nat | k < pages ensures WordPage(k) == 0x180_0001 {}
    } else {
      assert !Mapped(t, WordPage(32768));
    }
  }

  lemma InitHeap(root: nat, b: Boot, ops: seq<Op>, ms: seq<Machine>)
    requires IsInit(root, b, ops, ms)
    ensures AsInitPagingLeaves(ms[|ops|].tables) && Backed(ms[|ops|].tables, 0x180_0000, 0x200_0000)
    ensures FrameOf(ms[|ops|].tables, 0x180_0000) == b.freemap && FrameOf(ms[|ops|].tables, 0x180_0001) == b.bitmap
    ensures Outside(ms[|ops|].frames.used + ms[|ops|].frames.free, 0x180_0000, 0x200_0000)
  {
    hide InitCalls, IsRun, FrameOf, Mapped;
    var t := ms[|ops|].tables;
    forall w | 0x180_0000 <= w < 0x200_0000
      ensures Mapped(t, w) <==> w == 0x180_0000 || w == 0x180_0001 || w == 0x1FF_FFFF
      ensures Mapped(t, w) ==> FrameOf(t, w) != 0
    {
      HeapEntries(root, b, ops, ms, w);
    }
    HeapEntries(root, b, ops, ms, 0x180_0000);
    HeapEntries(root, b, ops, ms, 0x180_0001);
    FramesStay(root, ops, ms, |ops|);
  }

  /** The boot loader takes the pages of the bitmap from memory it has already listed as free. If its
      first frame is in the freemap, it is free when init_paging starts, and afterwards it is free or a
      table: the heap page that maps it has no frame of its own. */
  lemma BitmapFrameIsLost(root: nat, b: Boot, ops: seq<Op>, ms: seq<Machine>)
    requires IsInit(root, b, ops, ms) && b.bitmap in ms[0].frames.free
    ensures b.bitmap in ms[|ops|].frames.free || !NoTables(ms[|ops|].tables, {b.bitmap})
    ensures !HeapMapped(ms[|ops|].tables, ms[|ops|].frames, 0x180_0000, 0x200_0000)
  {
    hide InitCalls, IsRun, FrameOf, Mapped, Boot.Sane;
    var m := ms[|ops|];
    InitHeap(root, b, ops, ms);
    forall i | 0 <= i < |ops| ensures ops[i].Map? {
      OnlyMapCalls(b, InitCalls(b)[i]);
    }
    if b.bitmap !in m.frames.free {
      DrawnAreTables(root, ops, ms, |ops|, b.bitmap);
    }
    assert Mapped(m.tables, 0x180_0001) && !Backing(m.tables, m.frames, FrameOf(m.tables, 0x180_0001));
  }

  lemma FrameNotMapped(root: nat, b: Boot, ops: seq<Op>, ms: seq<Machine>, f: nat)
    requires IsInit(root, b, ops, ms) && f in ms[0].frames.used + ms[0].frames.free
    ensures !MappedByRun(ops, Page(f))
  {
    hide InitCalls, IsRun, Boot.Sane;
    if MappedByRun(ops, Page(f)) {
      var i :| 0 <= i < |ops| && Aligned(ops[i]) && Page(ops[i].virt) == Page(f);
      OpTargets(root, b, ops, ms, i);
      InitTargets(b, Page(f), ops[i].phys);
      assert false;
    }
  }

  /** In the first map_page call after init_paging, every frame that is cleared for a new table, at any
      depth of the recursion, is not mapped when it is cleared. */
  lemma ClearedFrameUnmapped(root: nat, b: Boot, ops: seq<Op>, ms: seq<Machine>, c: Clearing)
    requires IsInit(root, b, ops, ms) && ms[0].frames.used !! ms[0].frames.free
    requires AsAtStart(ms[|ops|].tables, ms[|ops|].frames, c)
    ensures !Mapped(c.tables, Page(c.frame))
  {
    hide InitCalls, IsRun, Boot.Sane, Leaf;
    InitIsPolite(root, b, ops, ms);
    FramesStay(root, ops, ms, |ops|);
    FrameNotMapped(root, b, ops, ms, c.frame);
    ClearedFrameMappedIff(root, ops, ms, c);
  }

  // ----- the freemap -----

  /** Where the kernel reads freemap entry i after the pointer was moved to the first heap page. */
  function EntryPlace(i: nat): nat {
    0x18_0000_0000 + 16 * i
  }

  /** Every freemap entry the allocator reads is the boot loader's. */
  ghost predicate FreemapMapped(t: Tables, b: Boot) {
    forall i: nat :: i < b.entries ==> Lookup(t, EntryPlace(i)) == b.freemap + 16 * i
  }

  lemma EntryInPage(i: nat)
    ensures i < 256 ==> Page(EntryPlace(i)) == 0x180_0000 && EntryPlace(i) % 4096 == 16 * i
    ensures Page(EntryPlace(256)) == 0x180_0001 && EntryPlace(256) % 4096 == 0
  {}

  /** One page of the freemap is mapped, and behind it lies the bitmap: the entries are right exactly if
      there are at most 256. */
  lemma FreemapMappedIff(t: Tables, b: Boot)
    requires b.Sane() && Mapped(t, 0x180_0000) && Mapped(t, 0x180_0001)
    requires FrameOf(t, 0x180_0000) == b.freemap && FrameOf(t, 0x180_0001) == b.bitmap
    ensures FreemapMapped(t, b) <==> b.entries <= 256
  {
    hide Leaf, Page, EntryPlace, Present, Address;
    EntryInPage(256);
    if b.entries <= 256 {
      forall i: nat | i < b.entries ensures Lookup(t, EntryPlace(i)) == b.freemap + 16 * i {
        EntryInPage(i);
      }
    } else {
      assert Pages(b.entries * 16) >= 2;
      assert Lookup(t, EntryPlace(256)) == b.bitmap;
    }
  }

  /** init_paging, on a PML4 just cleared. */
  method InitPaging(space: AddressSpace, b: Boot) returns (ok: bool, ghost ops: seq<Op>, ghost ms: seq<Machine>)
    requires space.Valid() && space.tree == map[Root := space.root]
    requires forall w :: 0 <= w < 0x10_0000_0000 ==> Leaf(space.State(), w) == 0
    requires b.Sane() && FramesApart(b, space.Frames())
    modifies space, space.frames.words
    ensures space.Valid()
    ensures ok ==>
              && AsInitPagingLeaves(space.State()) && Backed(space.State(), 0x180_0000, 0x200_0000)
              && Outside(space.Frames().used + space.Frames().free, 0x180_0000, 0x200_0000)
              && (BitmapMapped(space.State(), b.pages) <==> b.pages <= 32768)
              && (FreemapMapped(space.State(), b) <==> b.entries <= 256)
              && ImageMapped(space.State(), b)
              && FrameOf(space.State(), 0x180_0000) == b.freemap && FrameOf(space.State(), 0x180_0001) == b.bitmap
    ensures ok && b.bitmap in old(space.Frames()).free ==>
              && !HeapMapped(space.State(), space.Frames(), 0x180_0000, 0x200_0000)
              && (b.bitmap in space.Frames().free || !NoTables(space.State(), {b.bitmap}))
    ensures ok ==>
              && IsInit(space.root, b, ops, ms) && ms[0] == old(Machine(space.State(), space.Frames()))
              && ms[|ops|] == Machine(space.State(), space.Frames())
    ensures !ok ==> space.Frames().free == {}
  {
    hide InitCalls, Step, HeapMapped, Backed, Outside, UsedFrames, FreeFrames, FreeQueue, Sound, Leaf, NoTables,
         FrameOf, Mapped, FreemapMapped, BitmapMapped, ImageMapped;
    ghost var l := space.Frames();
    ok, ops, ms := Execute(space, InitCalls(b));
    if ok {
      assert IsInit(space.root, b, ops, ms);
      InitHeap(space.root, b, ops, ms);
      BitmapMappedIff(space.State(), b.pages);
      FreemapMappedIff(space.State(), b);
      InitImage(space.root, b, ops, ms);
      if b.bitmap in l.free {
        BitmapFrameIsLost(space.root, b, ops, ms);
      }
    }
  }

  /** init_paging and then requests of 100 and 9000 bytes: the second block does not resolve. */
  method StartAndAllocate(space: AddressSpace, b: Boot) returns (ok: bool, y: nat)
    requires space.Valid() && space.tree == map[Root := space.root]
    requires forall w :: 0 <= w < 0x10_0000_0000 ==> Leaf(space.State(), w) == 0
    requires b.Sane() && FramesApart(b, space.Frames())
    modifies space, space.frames.words
    ensures ok ==> y == 0x18_0000_0064 && !BlockMapped(space.State(), Spans.Span(y, 9000))
    ensures !ok ==> space.Frames().free == {}
  {
    hide InitCalls, HeapMapped, Backed, Outside, UsedFrames, FreeFrames, FreeQueue, Sound, Leaf, AsInitPagingLeaves,
         BitmapMapped, BlockMapped, Boot.Sane, IsInit, FreemapMapped, ImageMapped, NoTables, FrameOf;
    y := 0;
    ghost var ops, ms;
    ok, ops, ms := InitPaging(space, b);
    if ok {
      ok, y := UnresolvedBlock(space);
    }
  }

  /** init_paging and then a map_page call: none of the frames it clears for new tables is mapped when it
      does so. */
  method StartAndMap(space: AddressSpace, b: Boot, phys: nat, virt: nat) returns (ok: bool, ghost cs: seq<Clearing>)
    requires space.Valid() && space.tree == map[Root := space.root]
    requires forall w :: 0 <= w < 0x10_0000_0000 ==> Leaf(space.State(), w) == 0
    requires b.Sane() && FramesApart(b, space.Frames())
    modifies space, space.frames.words
    ensures ok ==> forall c :: c in cs ==> !Mapped(c.tables, Page(c.frame))
    ensures !ok ==> space.Frames().free == {}
  {
    hide InitCalls, HeapMapped, Backed, Outside, UsedFrames, FreeFrames, FreeQueue, Sound, Leaf, AsInitPagingLeaves,
         BitmapMapped, Boot.Sane, IsInit, FreemapMapped, ImageMapped, NoTables, FrameOf, Mapped, AsAtStart, Maps, Draws,
         PageDemand.Needs;
    space.frames.Partition();
    cs := [];
    ghost var ops, ms;
    ok, ops, ms := InitPaging(space, b);
    if ok {
      ok, cs := space.MapPage(phys, virt);
      forall c | c in cs ensures !Mapped(c.tables, Page(c.frame)) {
        ClearedFrameUnmapped(space.root, b, ops, ms, c);
      }
    }
  }

  /** init_paging, requests of 4096 and 8192 bytes and a free of the second block: the frame of the bitmap
      is free and still mapped, and if init_paging had drawn it for a table, a table of the tree is free. */
  method StartAndFree(space: AddressSpace, b: Boot) returns (ok: bool, ghost ops: seq<Op>, ghost ms: seq<Machine>)
    requires space.Valid() && space.tree == map[Root := space.root]
    requires forall w :: 0 <= w < 0x10_0000_0000 ==> Leaf(space.State(), w) == 0
    requires b.Sane() && FramesApart(b, space.Frames()) && b.bitmap in space.Frames().free
    requires |space.frames.freemap| <= space.frames.mmDescs
    modifies space, space.frames.words
    ensures space.frames.Valid()
    ensures ok ==>
              && IsInit(space.root, b, ops, ms) && ms[0] == old(Machine(space.State(), space.Frames()))
              && Mapped(space.State(), 0x180_0001) && FrameOf(space.State(), 0x180_0001) == b.bitmap
              && b.bitmap in space.Frames().free
              && (b.bitmap !in ms[|ops|].frames.free ==> !space.Valid())
    ensures !ok ==> space.Frames().free == {}
  {
    hide InitCalls, HeapMapped, Backed, Outside, UsedFrames, FreeFrames, FreeQueue, Sound, Leaf,
         BitmapMapped, Boot.Sane, IsRun, FreemapMapped, ImageMapped, NoTables, FrameOf, Mapped, Heap.Inv;
    space.frames.Partition();
    ok, ops, ms := InitPaging(space, b);
    if ok {
      space.frames.Partition();
      var heap := new HeapTables.Table(0x18_0000_0000, 0x20_0000_0000, 0x200);
      assert |heap.State().blocks| == 0x200;
      ok := FreeSecondBlock(heap, space);
    }
  }
}
