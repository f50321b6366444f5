/** Loading the kernel image (bootloader/boot.c:79-113, bootloader/boot.h:23-36). */
module ElfLoader {
  import opened Words

  const PT_LOAD: nat := 1
  const KERNEL_VADDR: nat := 0x10_0000_0000
  const ELF_MAGIC: nat := 0x464C_457F

  /** A program header. */
  datatype Segment = Segment(ptype: nat, offset: nat, vaddr: nat, filesz: nat, memsz: nat) {
    predicate Loads() {
      ptype == PT_LOAD
    }

    /** A segment without memory writes nothing. */
    predicate Writes() {
      Loads() && memsz > 0
    }

    function End(): nat {
      vaddr + memsz
    }
  }

  /** The segment's file bytes exist, and no address of it exceeds 64 bits. */
  predicate Sane(s: Segment, file: seq<byte>) {
    s.Loads() ==>
      && s.filesz <= s.memsz && (s.filesz > 0 ==> s.offset + s.filesz <= |file|)
      && s.End() < 0x1_0000_0000_0000_0000
  }

  predicate Apart(s: Segment, t: Segment) {
    s.End() <= t.vaddr || t.End() <= s.vaddr
  }

  /** The segments that write do not overlap in memory. */
  predicate AllApart(segs: seq<Segment>) {
    forall i, j :: 0 <= i < j < |segs| && segs[i].Writes() && segs[j].Writes() ==> Apart(segs[i], segs[j])
  }

  // ----- how much memory the segments need -----

  function Highest(segs: seq<Segment>): (r: nat)
    ensures forall i :: 0 <= i < |segs| && segs[i].Loads() ==> segs[i].End() <= r
    ensures r == 0 || exists i :: 0 <= i < |segs| && segs[i].Loads() && segs[i].End() == r
  {
    if segs == [] then 0
    else
      var k := |segs| - 1;
      var r := Highest(segs[..k]);
      assert forall i :: 0 <= i < k ==> segs[..k][i] == segs[i];
      if segs[k].Loads() && segs[k].End() > r then segs[k].End() else r
  }

  function Lowest(segs: seq<Segment>): (r: nat)
    ensures forall i :: 0 <= i < |segs| && segs[i].Loads() ==> r <= segs[i].vaddr
    ensures r == 0xFFFF_FFFF_FFFF_FFFF || exists i :: 0 <= i < |segs| && segs[i].Loads() && segs[i].vaddr == r
    ensures r <= 0xFFFF_FFFF_FFFF_FFFF
  {
    if segs == [] then 0xFFFF_FFFF_FFFF_FFFF
    else
      var k := |segs| - 1;
      var r := Lowest(segs[..k]);
      assert forall i :: 0 <= i < k ==> segs[..k][i] == segs[i];
      if segs[k].Loads() && segs[k].vaddr < r then segs[k].vaddr else r
  }

  /** The subtraction is done in 64 bits; without a loadable segment it wraps around to 1. */
  function MemorySize(segs: seq<Segment>): nat {
    Difference(Highest(segs), Lowest(segs))
  }

  /** high - low in 64 bits. */
  function Difference(high: nat, low: nat): nat
    requires low <= 0xFFFF_FFFF_FFFF_FFFF
  {
    (high + 0x1_0000_0000_0000_0000 - low) % 0x1_0000_0000_0000_0000
  }

  /** The span of the loadable addresses: from the start of one loadable segment to the end of one, and no
      two of them are further apart. */
  predicate IsSpan(segs: seq<Segment>, size: nat) {
    && (exists i, j :: 0 <= i < |segs| && 0 <= j < |segs| && segs[i].Loads() && segs[j].Loads() &&
                       size == segs[i].vaddr + segs[i].memsz - segs[j].vaddr)
    && (forall k, m :: 0 <= k < |segs| && 0 <= m < |segs| && segs[k].Loads() && segs[m].Loads() ==>
                         segs[k].vaddr + segs[k].memsz - segs[m].vaddr <= size)
  }

  lemma MemorySizeIsSpan(segs: seq<Segment>, file: seq<byte>)
    requires forall i :: 0 <= i < |segs| ==> Sane(segs[i], file)
    ensures (exists i :: 0 <= i < |segs| && segs[i].Loads()) ==> IsSpan(segs, MemorySize(segs))
    ensures (forall i :: 0 <= i < |segs| ==> !segs[i].Loads()) ==> MemorySize(segs) == 1
  {
    hide Highest, Lowest;
    if n :| 0 <= n < |segs| && segs[n].Loads() {
      assert Sane(segs[n], file);
      var high, low := Highest(segs), Lowest(segs);
      assert low <= segs[n].vaddr <= segs[n].End() <= high;
      LowestLoads(segs, file, n);
      HighestLoads(segs, file, n);
      var i :| 0 <= i < |segs| && segs[i].Loads() && segs[i].End() == high;
      var j :| 0 <= j < |segs| && segs[j].Loads() && segs[j].vaddr == low;
      assert Sane(segs[i], file);
      assert MemorySize(segs) == high - low;
    }
  }

  lemma LowestLoads(segs: seq<Segment>, file: seq<byte>, n: nat)
    requires n < |segs| && segs[n].Loads() && Sane(segs[n], file)
    ensures exists j :: 0 <= j < |segs| && segs[j].Loads() && segs[j].vaddr == Lowest(segs)
  {
    hide Lowest;
    if Lowest(segs) == 0xFFFF_FFFF_FFFF_FFFF {
      assert segs[n].vaddr == Lowest(segs);
    }
  }

  lemma HighestLoads(segs: seq<Segment>, file: seq<byte>, n: nat)
    requires n < |segs| && segs[n].Loads() && Sane(segs[n], file)
    ensures exists i :: 0 <= i < |segs| && segs[i].Loads() && segs[i].End() == Highest(segs)
  {
    hide Highest;
    if Highest(segs) == 0 {
      assert segs[n].End() == Highest(segs);
    }
  }

  /** The loop that finds the amount of memory to allocate. */
  method Measure(segs: seq<Segment>, ghost file: seq<byte>) returns (size: nat)
    requires forall i :: 0 <= i < |segs| ==> Sane(segs[i], file)
    ensures size == MemorySize(segs)
    ensures (exists i :: 0 <= i < |segs| && segs[i].Loads()) ==> IsSpan(segs, size)
    ensures (forall i :: 0 <= i < |segs| ==> !segs[i].Loads()) ==> size == 1
  {
    hide Difference, IsSpan;
    MemorySizeIsSpan(segs, file);
    var high, low := 0, 0xFFFF_FFFF_FFFF_FFFF;
    for i := 0 to |segs|
      invariant high == Highest(segs[..i]) && low == Lowest(segs[..i])
    {
      assert segs[..i + 1][..i] == segs[..i];
      assert Sane(segs[i], file);
      if segs[i].Loads() {
        if segs[i].End() > high {
          high := segs[i].End();
        }
        if segs[i].vaddr < low {
          low := segs[i].vaddr;
        }
      }
    }
    assert segs[..|segs|] == segs;
    size := Difference(high, low);
  }

  // ----- loading -----

  /** The segment's place in the allocated image. */
  predicate Fits(s: Segment, n: nat) {
    s.Writes() ==> KERNEL_VADDR <= s.vaddr && s.End() - KERNEL_VADDR <= n
  }

  /** The bytes that are allocated. */
  function AllocatedSize(segs: seq<Segment>): nat {
    (MemorySize(segs) + 4095) / 4096 * 4096
  }

  /** The segments that write. */
  function Writing(segs: seq<Segment>): (r: seq<Segment>)
    ensures forall s :: s in r <==> s in segs && s.Writes()
  {
    if segs == [] then []
    else
      var k := |segs| - 1;
      assert segs == segs[..k] + [segs[k]];
      Writing(segs[..k]) + (if segs[k].Writes() then [segs[k]] else [])
  }

  /** The range of the addresses written to lies in the allocated pages. */
  predicate RangeFits(segs: seq<Segment>) {
    KERNEL_VADDR <= Lowest(Writing(segs)) && Highest(Writing(segs)) <= KERNEL_VADDR + AllocatedSize(segs)
  }

  /** Copying the file bytes or clearing the memory behind them writes to address a. */
  predicate WritesTo(segs: seq<Segment>, a: nat) {
    exists s :: s in segs && s.Loads() &&
                (s.vaddr <= a < s.vaddr + s.filesz || s.vaddr + s.filesz <= a < s.vaddr + s.memsz)
  }

  /** Exactly when every write of the loading loop lands in the allocated pages. */
  lemma WritesFitIff(segs: seq<Segment>, file: seq<byte>)
    requires forall i :: 0 <= i < |segs| ==> Sane(segs[i], file)
    ensures RangeFits(segs) <==>
            forall a: nat :: WritesTo(segs, a) ==> KERNEL_VADDR <= a < KERNEL_VADDR + AllocatedSize(segs)
  {
    hide AllocatedSize, Highest, Lowest;
    SegmentsFitIff(segs);
    var n := AllocatedSize(segs);
    if RangeFits(segs) {
      forall a: nat | WritesTo(segs, a) ensures KERNEL_VADDR <= a < KERNEL_VADDR + n {
        var s :| s in segs && s.Loads() &&
                 (s.vaddr <= a < s.vaddr + s.filesz || s.vaddr + s.filesz <= a < s.vaddr + s.memsz);
        var i :| 0 <= i < |segs| && segs[i] == s;
        assert Sane(segs[i], file) && Fits(segs[i], n);
      }
    } else {
      var i :| 0 <= i < |segs| && !Fits(segs[i], n);
      var s := segs[i];
      assert Sane(segs[i], file);
      assert WritesTo(segs, s.vaddr) && WritesTo(segs, s.End() - 1);
    }
  }

  lemma SegmentsFitIff(segs: seq<Segment>)
    ensures RangeFits(segs) <==> forall i :: 0 <= i < |segs| ==> Fits(segs[i], AllocatedSize(segs))
  {
    hide AllocatedSize, Writing;
    var w := Writing(segs);
    assert forall i :: 0 <= i < |segs| ==> segs[i] in segs;
    assert forall i :: 0 <= i < |w| ==> w[i] in w;
    if RangeFits(segs) {
      forall i | 0 <= i < |segs| && segs[i].Writes() ensures Fits(segs[i], AllocatedSize(segs)) {
        var k :| 0 <= k < |w| && w[k] == segs[i];
      }
    } else {
      var k :| 0 <= k < |w| && (w[k].vaddr < KERNEL_VADDR || w[k].End() > KERNEL_VADDR + AllocatedSize(segs));
      var i :| 0 <= i < |segs| && segs[i] == w[k];
      assert !Fits(segs[i], AllocatedSize(segs));
    }
  }

  /** Empty segments do not count towards the range. */
  lemma EmptySegmentFits()
    ensures RangeFits([Segment(PT_LOAD, 0, 0x1000, 0, 0), Segment(PT_LOAD, 0, KERNEL_VADDR, 10, 10)])
  {
    var segs := [Segment(PT_LOAD, 0, 0x1000, 0, 0), Segment(PT_LOAD, 0, KERNEL_VADDR, 10, 10)];
    assert segs[..1][..0] == [] && segs[..1] == [segs[0]];
    assert Highest(segs[..1]) == 0x1000 && Lowest(segs[..1]) == 0x1000;
    assert MemorySize(segs) == KERNEL_VADDR + 10 - 0x1000;
    SegmentsFitIff(segs);
  }

  /** An image whose lowest segment starts at the kernel base always fits. */
  lemma LinkedAtBaseFits(segs: seq<Segment>, file: seq<byte>)
    requires forall k :: 0 <= k < |segs| ==> Sane(segs[k], file)
    requires Lowest(segs) == KERNEL_VADDR
    ensures RangeFits(segs)
  {
    hide Highest, Lowest, Difference, RangeFits;
    var i :| 0 <= i < |segs| && segs[i].Loads() && segs[i].vaddr == Lowest(segs);
    assert KERNEL_VADDR <= segs[i].End() <= Highest(segs) < 0x1_0000_0000_0000_0000;
    RoundsUp(Highest(segs), KERNEL_VADDR);
    AllInside(segs);
  }

  lemma AllInside(segs: seq<Segment>)
    requires KERNEL_VADDR <= Lowest(segs) && Highest(segs) <= KERNEL_VADDR + AllocatedSize(segs)
    ensures RangeFits(segs)
  {
    hide AllocatedSize, RangeFits, Highest, Lowest;
    SegmentsFitIff(segs);
  }

  lemma RoundsUp(high: nat, low: nat)
    requires low <= high < 0x1_0000_0000_0000_0000
    ensures high <= low + (Difference(high, low) + 4095) / 4096 * 4096
  {
    assert Difference(high, low) == high - low;
  }

  /** Image byte q belongs to the segment. */
  predicate Holds(s: Segment, q: nat) {
    s.Loads() && s.vaddr <= q + KERNEL_VADDR < s.End()
  }

  /** What image byte q should be: a byte of the file, or zero past the file bytes. */
  function SegmentByte(s: Segment, file: seq<byte>, q: nat): byte
    requires Holds(s, q) && Sane(s, file)
  {
    var k := q + KERNEL_VADDR - s.vaddr;
    if k < s.filesz then file[s.offset + k] else 0
  }

  /** The image holds the segment. */
  ghost predicate Loaded(image: seq<byte>, s: Segment, file: seq<byte>)
    requires Sane(s, file)
  {
    forall q :: 0 <= q < |image| && Holds(s, q) ==> image[q] == SegmentByte(s, file, q)
  }

  /** Byte k of a segment that fits is its byte k in the file, or 0 past the file's bytes. */
  lemma LoadedByte(image: seq<byte>, s: Segment, file: seq<byte>, k: nat)
    requires s.ptype == 1 && Sane(s, file) && Loaded(image, s, file) && k < s.memsz
    requires 0x10_0000_0000 <= s.vaddr && s.vaddr + s.memsz <= 0x10_0000_0000 + |image|
    ensures image[s.vaddr - 0x10_0000_0000 + k] == if k < s.filesz then file[s.offset + k] else 0
  {
    assert Holds(s, s.vaddr - 0x10_0000_0000 + k);
  }

  /** memcpy of the file bytes, then memzero of the rest. */
  method LoadSegment(s: Segment, file: seq<byte>, image: array<byte>)
    requires s.Loads() && Fits(s, image.Length) && Sane(s, file)
    modifies image
    ensures Loaded(image[..], s, file)
    ensures forall q :: 0 <= q < image.Length && !Holds(s, q) ==> image[q] == old(image[q])
  {
    var at: int := s.vaddr - KERNEL_VADDR;
    for k := 0 to s.filesz
      invariant forall q :: 0 <= at <= q < at + k ==> image[q] == SegmentByte(s, file, q)
      invariant forall q :: 0 <= q < image.Length && (q < at || at + k <= q) ==> image[q] == old(image[q])
    {
      image[at + k] := file[s.offset + k];
    }
    for k := s.filesz to s.memsz
      invariant forall q :: 0 <= at <= q < at + k ==> image[q] == SegmentByte(s, file, q)
      invariant forall q :: 0 <= q < image.Length && (q < at || at + k <= q) ==> image[q] == old(image[q])
    {
      image[at + k] := 0;
    }
  }

  /** The loading loop: afterwards the image holds every loadable segment, and bytes of no segment
      are untouched. */
  method Load(segs: seq<Segment>, file: seq<byte>, image: array<byte>)
    requires forall i :: 0 <= i < |segs| ==> Sane(segs[i], file) && Fits(segs[i], image.Length)
    requires AllApart(segs)
    modifies image
    ensures forall i :: 0 <= i < |segs| ==> Loaded(image[..], segs[i], file)
    ensures forall q :: 0 <= q < image.Length && (forall i :: 0 <= i < |segs| ==> !Holds(segs[i], q)) ==>
              image[q] == old(image[q])
  {
    for i := 0 to |segs|
      invariant forall j :: 0 <= j < i ==> Loaded(image[..], segs[j], file)
      invariant forall q :: 0 <= q < image.Length && (forall j :: 0 <= j < i ==> !Holds(segs[j], q)) ==>
                  image[q] == old(image[q])
    {
      if segs[i].Loads() {
        ghost var before := image[..];
        LoadSegment(segs[i], file, image);
        forall j | 0 <= j < i ensures Loaded(image[..], segs[j], file) {
          LoadedStays(before, image[..], segs[j], segs[i], file);
        }
      }
    }
  }

  lemma LoadedStays(before: seq<byte>, after: seq<byte>, s: Segment, t: Segment, file: seq<byte>)
    requires |before| == |after| && Sane(s, file) && Loaded(before, s, file)
    requires s.Writes() && t.Writes() ==> Apart(s, t)
    requires forall q :: 0 <= q < |before| && !Holds(t, q) ==> after[q] == before[q]
    ensures Loaded(after, s, file)
  {}

  /** The ELF part of boot: measure, allocate whole pages, load. */
  method LoadKernel(magic: nat, segs: seq<Segment>, file: seq<byte>) returns (ok: bool, image: array<byte>)
    requires forall i :: 0 <= i < |segs| ==> Sane(segs[i], file)
    requires AllApart(segs)
    requires RangeFits(segs)
    ensures fresh(image)
    ensures ok <==> magic == 0x464C_457F
    ensures ok ==> image.Length == AllocatedSize(segs) && image.Length % 4096 == 0
    ensures ok && (exists i :: 0 <= i < |segs| && segs[i].Loads()) ==>
              exists size: nat :: IsSpan(segs, size) && size <= image.Length < size + 4096
    ensures ok ==> forall i :: 0 <= i < |segs| ==>
              Fits(segs[i], image.Length) && Loaded(image[..], segs[i], file)
  {
    hide MemorySize, RangeFits, Loaded, Fits, Sane, AllApart, IsSpan;
    SegmentsFitIff(segs);
    if magic != ELF_MAGIC {
      image := new byte[0];
      return false, image;
    }
    var size := Measure(segs, file);
    image := new byte[(size + 4095) / 4096 * 4096];
    Load(segs, file, image);
    assert size <= image.Length < size + 4096;
    ok := true;
  }
}
