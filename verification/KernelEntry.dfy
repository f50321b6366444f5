/** The frame bitmap as the kernel finds it: which frames it will hand out, and when
    (bootloader/boot.c:125-174, kernel/memory/memory.c:132-159). */
module KernelEntry {
  import opened Words
  import opened FrameBitmap
  import opened MemoryMap

  /** The bitmap pages as the 32-bit words the kernel reads. */
  function WordsOf(bytes: seq<byte>): (words: seq<u32>)
    ensures |words| == |bytes| / 4
  {
    seq(|bytes| / 4, h requires 0 <= h < |bytes| / 4 => WordOf(bytes, h))
  }

  lemma {:induction false} AllInQueue(fs: seq<nat>, words: seq<u32>, i: nat)
    requires i <= |fs| <= 32 * |words| && forall k :: i <= k < |fs| ==> !Bit(words, k)
    ensures FreeQueue(fs, words, i) == fs[i..]
    decreases |fs| - i
  {
    hide Bit;
    if i < |fs| {
      AllInQueue(fs, words, i + 1);
      assert fs[i..] == [fs[i]] + fs[i + 1..];
    }
  }

  /** The address is a page of one of the regions. */
  predicate InRegions(regions: seq<Region>, f: nat) {
    exists i :: 0 <= i < |regions| && InRegion(regions[i], f)
  }

  predicate InRegion(r: Region, f: nat) {
    f % 4096 == 0 && r.addr <= f < r.addr + r.blocks * 4096
  }

  lemma PageOfRegion(r: Region, j: nat)
    requires RegionOk(r) && j < r.blocks
    ensures InRegion(r, r.addr + j * 4096)
  {}

  lemma PlaceInRegion(r: Region, f: nat)
    requires RegionOk(r) && InRegion(r, f)
    ensures (f - r.addr) / 4096 < r.blocks && f == r.addr + (f - r.addr) / 4096 * 4096
  {}

  lemma ListedIff(regions: seq<Region>, f: nat)
    requires WellFormed(regions)
    ensures f in FrameList(regions) <==> InRegions(regions, f)
  {
    hide FrameList, Offset;
    if f in FrameList(regions) {
      var k :| 0 <= k < |FrameList(regions)| && FrameList(regions)[k] == f;
      var i, j := Locate(regions, k);
      PageOfRegion(regions[i], j);
    }
    if InRegions(regions, f) {
      var i :| 0 <= i < |regions| && InRegion(regions[i], f);
      var j := (f - regions[i].addr) / 4096;
      PlaceInRegion(regions[i], f);
      FrameAt(regions, i, j);
    }
  }

  /** At kernel entry every frame of the freemap is free, in order: a frame the boot loader took after it
      read the map for the last time is handed out again exactly if it lies in a region of the freemap. */
  lemma EntryQueue(regions: seq<Region>, bytes: seq<byte>, f: nat)
    requires WellFormed(regions) && |bytes| == (TotalBlocks(regions) + 32767) / 32768 * 4096
    requires forall i :: 0 <= i < (TotalBlocks(regions) + 7) / 8 && i < |bytes| ==> bytes[i] == 0
    ensures |FrameList(regions)| <= 32 * |WordsOf(bytes)|
    ensures FreeQueue(FrameList(regions), WordsOf(bytes), 0) == FrameList(regions)
    ensures f in FreeQueue(FrameList(regions), WordsOf(bytes), 0) <==> InRegions(regions, f)
  {
    hide FrameList, TotalBlocks, WordsOf, Bit, FreeQueue, InRegions, WellFormed;
    var fs, words := FrameList(regions), WordsOf(bytes);
    BitsAreFrames(regions);
    forall k | 0 <= k < |fs| ensures k < 32 * |words| && !Bit(words, k) {
      BitIsClear(regions, bytes, k);
    }
    AllInQueue(fs, words, 0);
    ListedIff(regions, f);
  }

  lemma BitIsClear(regions: seq<Region>, bytes: seq<byte>, k: nat)
    requires |bytes| == (TotalBlocks(regions) + 32767) / 32768 * 4096 && k < |FrameList(regions)|
    requires forall i :: 0 <= i < (TotalBlocks(regions) + 7) / 8 && i < |bytes| ==> bytes[i] == 0
    ensures k < 32 * |WordsOf(bytes)| && !Bit(WordsOf(bytes), k)
  {
    hide FrameList, TotalBlocks, WordOf, TestBit, Bit, WordsOf;
    ClearedBitmapIsFree(regions, bytes, k);
    WordsBit(bytes, k);
  }

  lemma WordsBit(bytes: seq<byte>, k: nat)
    requires 4 * (k / 32) + 4 <= |bytes|
    ensures k < 32 * |WordsOf(bytes)| && Bit(WordsOf(bytes), k) == TestBit(WordOf(bytes, k / 32), k % 32)
  {
    hide WordOf, TestBit;
    assert k / 32 < |bytes| / 4;
  }

  /** n + 1 phys_page_alloc calls: the last one returns the frame at place n of the queue. */
  method Allocate(frames: Bitmap, n: nat) returns (frame: nat)
    requires frames.Valid() && n < |frames.Queue()|
    modifies frames.words
    ensures frames.Valid()
    ensures frame == old(frames.Queue())[n] && frames.Queue() == old(frames.Queue())[n + 1..]
  {
    hide FreeQueue, FrameList, UsedFrames, FreeFrames, WellFormed;
    ghost var queue := frames.Queue();
    frame := 0;
    for i := 0 to n + 1
      invariant frames.Valid() && frames.Queue() == queue[i..]
      invariant i > 0 ==> frame == queue[i - 1]
    {
      frames.Partition();
      assert frames.Queue()[0] in frames.Queue();
      frame := frames.Alloc();
    }
  }

  /** From kernel entry on, page j of region i is handed out by the call whose number is its place in
      the regions, whoever uses it: the bitmap, the kernel's stack and the boot loader's page tables are
      allocated after the map was last read, so the kernel gets their pages too. */
  method AllocateFromEntry(frames: Bitmap, ghost bytes: seq<byte>, i: nat, j: nat) returns (frame: nat)
    requires frames.Valid() && frames.words[..] == WordsOf(bytes)
    requires |bytes| == (TotalBlocks(frames.freemap) + 32767) / 32768 * 4096
    requires forall k :: 0 <= k < (TotalBlocks(frames.freemap) + 7) / 8 && k < |bytes| ==> bytes[k] == 0
    requires i < |frames.freemap| && j < frames.freemap[i].blocks
    modifies frames.words
    ensures frames.Valid() && frame == frames.freemap[i].addr + j * 4096
  {
    hide WordsOf, FrameList, Offset, TotalBlocks, InRegions;
    EntryQueue(frames.freemap, bytes, 0);
    FrameAt(frames.freemap, i, j);
    frame := Allocate(frames, Offset(frames.freemap, i) + j);
  }
}
