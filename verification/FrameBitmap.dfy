/** The physical frame allocator (kernel/memory/memory.c).

    The kernel is handed a list of memory regions, the freemap, and a bitmap of 32-bit words.
    Bit k of the bitmap belongs to the k-th page frame met when the regions are walked in order.
    The module shows that the pair refines a plain set of outstanding frames. */
module FrameBitmap {
  import opened Words

  // Pages have 4096 bytes and bitmap words 32 bits; both are written as literals so that index
  // arithmetic stays linear. Virtual addresses have 48 significant bits, so frames must lie below
  // 2^48 to be reachable under their own address.

  datatype Region = Region(addr: nat, blocks: nat)

  function RegionFrames(r: Region): (fs: seq<nat>)
    ensures |fs| == r.blocks
    ensures forall j :: 0 <= j < r.blocks ==> fs[j] == r.addr + j * 4096
  {
    seq(r.blocks, (j: nat) => r.addr + j * 4096)
  }

  /** The frames of a freemap in bitmap order. */
  function FrameList(regions: seq<Region>): seq<nat> {
    if regions == [] then [] else FrameList(regions[..|regions| - 1]) + RegionFrames(regions[|regions| - 1])
  }

  predicate RegionOk(r: Region) {
    && r.addr % 4096 == 0
    && 0 < r.addr
    && r.addr + r.blocks * 4096 <= 0x1_0000_0000_0000
  }

  predicate Apart(r: Region, s: Region) {
    r.addr + r.blocks * 4096 <= s.addr || s.addr + s.blocks * 4096 <= r.addr
  }

  /** Aligned, pairwise disjoint regions that do not hold frame 0, which doubles as "none". */
  predicate WellFormed(regions: seq<Region>) {
    && (forall i :: 0 <= i < |regions| ==> RegionOk(regions[i]))
    && (forall i, j :: 0 <= i < j < |regions| ==> Apart(regions[i], regions[j]))
  }

  /** Position of the first frame of region i in the frame list. */
  function Offset(regions: seq<Region>, i: nat): nat
    requires i <= |regions|
  {
    |FrameList(regions[..i])|
  }

  lemma {:induction false} FrameAt(regions: seq<Region>, i: nat, j: nat)
    requires i < |regions| && j < regions[i].blocks
    ensures Offset(regions, i) + j < |FrameList(regions)|
    ensures FrameList(regions)[Offset(regions, i) + j] == regions[i].addr + j * 4096
  {
    var init := regions[..|regions| - 1];
    if i < |init| {
      FrameAt(init, i, j);
      assert init[..i] == regions[..i];
    }
  }

  lemma OffsetStep(regions: seq<Region>, i: nat)
    requires i < |regions|
    ensures Offset(regions, i + 1) == Offset(regions, i) + regions[i].blocks <= |FrameList(regions)|
  {
    assert regions[..i + 1][..i] == regions[..i];
    OffsetMonotone(regions, i + 1);
  }

  lemma {:induction false} OffsetMonotone(regions: seq<Region>, i: nat)
    requires i <= |regions|
    ensures Offset(regions, i) <= |FrameList(regions)|
  {
    if i == |regions| {
      assert regions[..i] == regions;
    } else {
      var init := regions[..|regions| - 1];
      OffsetMonotone(init, i);
      assert init[..i] == regions[..i];
    }
  }

  lemma OffsetEnds(regions: seq<Region>)
    ensures Offset(regions, 0) == 0
    ensures Offset(regions, |regions|) == |FrameList(regions)|
  {
    assert regions[..|regions|] == regions;
  }

  /** Every position of the frame list is inside some region. */
  lemma {:induction false} Locate(regions: seq<Region>, k: nat) returns (i: nat, j: nat)
    requires k < |FrameList(regions)|
    ensures i < |regions| && j < regions[i].blocks && k == Offset(regions, i) + j
    ensures FrameList(regions)[k] == regions[i].addr + j * 4096
  {
    var init := regions[..|regions| - 1];
    if k < |FrameList(init)| {
      i, j := Locate(init, k);
      assert init[..i] == regions[..i];
    } else {
      i, j := |init|, k - |FrameList(init)|;
    }
    FrameAt(regions, i, j);
  }

  predicate Distinct(fs: seq<nat>) {
    forall k, l :: 0 <= k < l < |fs| ==> fs[k] != fs[l]
  }

  predicate FrameOk(f: nat) {
    0 < f < 0x1_0000_0000_0000 && f % 4096 == 0
  }

  /** In a well-formed freemap no frame is listed twice, and every frame is a usable address. */
  lemma FramesDistinct(regions: seq<Region>)
    requires WellFormed(regions)
    ensures Distinct(FrameList(regions))
    ensures forall k :: 0 <= k < |FrameList(regions)| ==> FrameOk(FrameList(regions)[k])
  {
    var fs := FrameList(regions);
    forall k | 0 <= k < |fs| ensures FrameOk(fs[k]) {
      var i, j := Locate(regions, k);
      assert RegionOk(regions[i]);
    }
    forall k, l | 0 <= k < l < |fs| ensures fs[k] != fs[l] {
      var i, j := Locate(regions, k);
      var m, n := Locate(regions, l);
      if i != m {
        assert Apart(regions[i], regions[m]) || Apart(regions[m], regions[i]);
      }
    }
  }

  // ----- 32-bit words -----

  type u32 = w: int | 0 <= w < 0x1_0000_0000

  /** w & (1 << b): the low bit after b right shifts. */
  predicate TestBit(w: nat, b: nat) {
    if b == 0 then w % 2 == 1 else TestBit(w / 2, b - 1)
  }

  /** w | (1 << b) or w & ~(1 << b). */
  function SwitchBit(w: nat, b: nat, on: bool): nat {
    if b == 0 then w / 2 * 2 + (if on then 1 else 0) else SwitchBit(w / 2, b - 1, on) * 2 + w % 2
  }

  lemma {:induction false} SwitchThenTest(w: nat, b: nat, on: bool, c: nat)
    ensures TestBit(SwitchBit(w, b, on), c) == if b == c then on else TestBit(w, c)
  {
    if b != 0 && c != 0 {
      SwitchThenTest(w / 2, b - 1, on, c - 1);
    }
  }

  /** What &, | and >> do to each bit. */
  lemma {:induction false} OperatorBits(x: nat, y: nat, b: nat)
    ensures TestBit(And(x, y), b) <==> TestBit(x, b) && TestBit(y, b)
    ensures TestBit(Or(x, y), b) <==> TestBit(x, b) || TestBit(y, b)
  {
    if b > 0 {
      OperatorBits(x / 2, y / 2, b - 1);
      assert And(x, y) / 2 == And(x / 2, y / 2) && Or(x, y) / 2 == Or(x / 2, y / 2);
    }
  }

  lemma {:induction false} ShiftBits(x: nat, n: nat, b: nat)
    ensures TestBit(Shr(x, n), b) <==> TestBit(x, b + n)
  {
    if n > 0 {
      ShiftBits(x / 2, n - 1, b);
    }
  }

  /** w & (1 << b) */
  lemma {:induction false} TestIsMask(w: nat, b: nat)
    ensures And(w, Pow2(b)) != 0 <==> TestBit(w, b)
  {
    if b == 0 {
      LowMask(w, 1);
    } else {
      TestIsMask(w / 2, b - 1);
      EvenMask(w, Pow2(b - 1));
    }
  }

  /** w | (1 << b) */
  lemma {:induction false} SetIsOr(w: nat, b: nat)
    ensures Or(w, Pow2(b)) == SwitchBit(w, b, true)
  {
    OrZero(w / 2);
    if b > 0 {
      SetIsOr(w / 2, b - 1);
    }
  }

  lemma ClearFirst(w: nat, p: nat, n: nat)
    requires p == Pow2(n) && w / 2 < p
    ensures And(w, 2 * p - 2) == w / 2 * 2
  {
    hide And, Pow2;
    LowMask(w / 2, n);
    SmallRemainder(w / 2, p);
    EvenMask(w, p - 1);
  }

  lemma SmallRemainder(x: nat, p: nat)
    requires x < p
    ensures x % p == x
  {}

  lemma PowGrows(b: nat, n: nat)
    requires b < n
    ensures Pow2(b) < Pow2(n)
  {}

  /** w & ~(1 << b), where the complement has n bits. */
  lemma {:induction false} ClearIsAnd(w: nat, b: nat, n: nat)
    requires b < n && w < Pow2(n)
    ensures Pow2(b) < Pow2(n) && And(w, Pow2(n) - 1 - Pow2(b)) == SwitchBit(w, b, false)
  {
    PowGrows(b, n);
    var p := Pow2(n - 1);
    assert Pow2(n) == 2 * p;
    if b == 0 {
      ClearFirst(w, p, n - 1);
    } else {
      var q := Pow2(b - 1);
      assert Pow2(b) == 2 * q;
      hide And, Pow2;
      ClearIsAnd(w / 2, b - 1, n - 1);
      OddMask(w, p - 1 - q);
      assert 2 * (p - 1 - q) + 1 == 2 * p - 1 - 2 * q;
    }
  }

  lemma {:induction false} SwitchFits(w: nat, b: nat, on: bool, n: nat)
    requires b < n && w < Pow2(n)
    ensures SwitchBit(w, b, on) < Pow2(n)
  {
    assert Pow2(n) == 2 * Pow2(n - 1) && w / 2 < Pow2(n - 1);
    hide Pow2;
    if b != 0 {
      SwitchFits(w / 2, b - 1, on, n - 1);
    }
  }

  /** Switching one of the 32 bits of a word yields a word. */
  function Switch(w: u32, b: nat, on: bool): u32
    requires b < 32
  {
    assert Pow2(10) == 1024;
    assert Pow2(20) == 0x10_0000;
    assert Pow2(30) == 0x4000_0000;
    SwitchFits(w, b, on, 32);
    SwitchBit(w, b, on)
  }

  /** Bit k of a bitmap. */
  predicate Bit(words: seq<u32>, k: nat)
    requires k < 32 * |words|
  {
    TestBit(words[k / 32], k % 32)
  }

  /** The first n bits are set. */
  predicate Full(words: seq<u32>, n: nat)
    requires n <= 32 * |words|
  {
    forall l :: 0 <= l < n ==> Bit(words, l)
  }

  lemma FullStep(words: seq<u32>, h: nat, b: nat)
    requires b < 32 && h < |words| && Full(words, h * 32 + b) && TestBit(words[h], b)
    ensures Full(words, h * 32 + b + 1)
  {
    assert (h * 32 + b) / 32 == h && (h * 32 + b) % 32 == b;
  }

  lemma FullHasNoFree(fs: seq<nat>, words: seq<u32>)
    requires |fs| <= 32 * |words| && Full(words, |fs|)
    ensures FreeFrames(fs, words) == {}
  {}

  /** The two bitmaps agree on every bit but k. */
  predicate OnlyBit(before: seq<u32>, after: seq<u32>, k: nat)
  {
    && |before| == |after|
    && (forall l :: 0 <= l < 32 * |after| && l != k ==> Bit(before, l) == Bit(after, l))
  }

  lemma BitUpdate(words: seq<u32>, h: nat, b: nat, on: bool)
    requires h < |words| && b < 32
    ensures OnlyBit(words, words[h := Switch(words[h], b, on)], h * 32 + b)
    ensures Bit(words[h := Switch(words[h], b, on)], h * 32 + b) == on
  {
    var after := words[h := Switch(words[h], b, on)];
    forall l | 0 <= l < 32 * |words|
      ensures Bit(after, l) == if l == h * 32 + b then on else Bit(words, l)
    {
      SwitchThenTest(words[h], b, on, l % 32);
    }
  }

  /** The frames whose bit is set. */
  ghost function UsedFrames(fs: seq<nat>, words: seq<u32>): set<nat>
    requires |fs| <= 32 * |words|
  {
    set k | 0 <= k < |fs| && Bit(words, k) :: fs[k]
  }

  ghost function FreeFrames(fs: seq<nat>, words: seq<u32>): set<nat>
    requires |fs| <= 32 * |words|
  {
    set k | 0 <= k < |fs| && !Bit(words, k) :: fs[k]
  }

  /** The free frames from position i on, in the order in which they will be handed out. */
  ghost function FreeQueue(fs: seq<nat>, words: seq<u32>, i: nat): seq<nat>
    requires i <= |fs| <= 32 * |words|
    decreases |fs| - i
  {
    if i == |fs| then [] else (if Bit(words, i) then [] else [fs[i]]) + FreeQueue(fs, words, i + 1)
  }

  /** The queue lists exactly the free frames. */
  lemma {:induction false} QueueIsFree(fs: seq<nat>, words: seq<u32>, i: nat)
    requires i <= |fs| <= 32 * |words|
    ensures forall f :: f in FreeQueue(fs, words, i) <==> exists k :: i <= k < |fs| && !Bit(words, k) && fs[k] == f
    decreases |fs| - i
  {
    hide Bit;
    if i < |fs| {
      QueueIsFree(fs, words, i + 1);
    }
  }

  lemma {:induction false} QueueSkipsUsed(fs: seq<nat>, words: seq<u32>, i: nat, k: nat)
    requires i <= k <= |fs| <= 32 * |words| && forall l :: i <= l < k ==> Bit(words, l)
    ensures FreeQueue(fs, words, i) == FreeQueue(fs, words, k)
    decreases k - i
  {
    hide Bit;
    if i < k {
      QueueSkipsUsed(fs, words, i + 1, k);
    }
  }

  lemma SameBit(before: seq<u32>, after: seq<u32>, k: nat, l: nat)
    requires OnlyBit(before, after, k) && l != k && l < 32 * |before|
    ensures |before| == |after| && Bit(before, l) == Bit(after, l)
  {}

  lemma {:induction false} QueueAfter(fs: seq<nat>, before: seq<u32>, after: seq<u32>, k: nat, i: nat)
    requires k < i <= |fs| <= 32 * |before| && |after| == |before| && OnlyBit(before, after, k)
    ensures FreeQueue(fs, after, i) == FreeQueue(fs, before, i)
    decreases |fs| - i
  {
    hide Bit, OnlyBit, FreeQueue;
    QueueStep(fs, before, i);
    QueueStep(fs, after, i);
    if i < |fs| {
      SameBit(before, after, k, i);
      QueueAfter(fs, before, after, k, i + 1);
    }
  }

  lemma QueueStep(fs: seq<nat>, words: seq<u32>, i: nat)
    requires i <= |fs| <= 32 * |words|
    ensures i == |fs| ==> FreeQueue(fs, words, i) == []
    ensures i < |fs| ==>
              FreeQueue(fs, words, i) == (if Bit(words, i) then [] else [fs[i]]) + FreeQueue(fs, words, i + 1)
  {
    hide Bit;
  }

  /** Setting the first clear bit takes the head of the queue. */
  lemma QueueHead(fs: seq<nat>, before: seq<u32>, after: seq<u32>, k: nat)
    requires k < |fs| <= 32 * |before| && OnlyBit(before, after, k) && Bit(after, k)
    requires !Bit(before, k) && Full(before, k)
    ensures FreeQueue(fs, before, 0) == [fs[k]] + FreeQueue(fs, after, 0)
  {
    hide Bit;
    QueueSkipsUsed(fs, before, 0, k);
    QueueSkipsUsed(fs, after, 0, k + 1);
    QueueAfter(fs, before, after, k, k + 1);
  }

  lemma SetsFollowBit(fs: seq<nat>, before: seq<u32>, after: seq<u32>, k: nat)
    requires Distinct(fs) && k < |fs| <= 32 * |before| && OnlyBit(before, after, k)
    ensures Bit(after, k) ==>
              && UsedFrames(fs, after) == UsedFrames(fs, before) + {fs[k]}
              && FreeFrames(fs, after) == FreeFrames(fs, before) - {fs[k]}
    ensures !Bit(after, k) ==>
              && UsedFrames(fs, after) == UsedFrames(fs, before) - {fs[k]}
              && FreeFrames(fs, after) == FreeFrames(fs, before) + {fs[k]}
  {
    hide Bit, FrameOk;
  }

  /** What phys_page_alloc does to the bitmap. With a free frame left, the clear bit with the
      lowest index is set, no other bit changes and its frame is the result; otherwise the result
      is 0 and nothing changes. Seen as sets, the result moves from the free to the used frames; seen
      as a queue, it is taken from the head. */
  ghost predicate Allocates(fs: seq<nat>, before: seq<u32>, after: seq<u32>, frame: nat)
    requires |fs| <= 32 * |before|
  {
    && |after| == |before|
    && (frame == 0 <==> FreeFrames(fs, before) == {})
    && (frame == 0 ==> after == before)
    && (frame != 0 ==>
          && (exists k: nat | k < |fs| && fs[k] == frame ::
                && !Bit(before, k)
                && (forall l :: 0 <= l < k ==> Bit(before, l))
                && OnlyBit(before, after, k))
          && frame in FreeFrames(fs, before)
          && UsedFrames(fs, after) == UsedFrames(fs, before) + {frame}
          && FreeFrames(fs, after) == FreeFrames(fs, before) - {frame}
          && FreeQueue(fs, before, 0) == [frame] + FreeQueue(fs, after, 0))
  }

  lemma TakeFrame(fs: seq<nat>, words: seq<u32>, h: nat, b: nat)
    requires Distinct(fs) && b < 32 && h * 32 + b < |fs| <= 32 * |words|
    requires fs[h * 32 + b] != 0
    requires !TestBit(words[h], b)
    requires Full(words, h * 32 + b)
    ensures Allocates(fs, words, words[h := Switch(words[h], b, true)], fs[h * 32 + b])
  {
    var k := h * 32 + b;
    BitUpdate(words, h, b, true);
    assert k / 32 == h && k % 32 == b;
    assert !Bit(words, k);
    SetsFollowBit(fs, words, words[h := Switch(words[h], b, true)], k);
    QueueHead(fs, words, words[h := Switch(words[h], b, true)], k);
    assert fs[k] in FreeFrames(fs, words);
    hide Bit, TestBit, Switch, UsedFrames, FreeFrames, FreeQueue;
  }

  /** What phys_page_free does: the bit of a freemap frame is cleared, and nothing else changes. */
  ghost predicate Releases(fs: seq<nat>, before: seq<u32>, after: seq<u32>, frame: nat)
    requires |fs| <= 32 * |before|
  {
    && |after| == |before|
    && (frame !in fs ==> after == before)
    && (frame in fs ==> exists k: nat | k < |fs| && fs[k] == frame ::
                          OnlyBit(before, after, k) && !Bit(after, k))
    && UsedFrames(fs, after) == UsedFrames(fs, before) - {frame}
    && FreeFrames(fs, after) == FreeFrames(fs, before) + (if frame in fs then {frame} else {})
  }

  lemma GiveFrame(fs: seq<nat>, words: seq<u32>, h: nat, b: nat)
    requires Distinct(fs) && b < 32 && h * 32 + b < |fs| <= 32 * |words|
    ensures Releases(fs, words, words[h := Switch(words[h], b, false)], fs[h * 32 + b])
  {
    BitUpdate(words, h, b, false);
    SetsFollowBit(fs, words, words[h := Switch(words[h], b, false)], h * 32 + b);
    hide Bit, Switch, UsedFrames, FreeFrames;
  }

  lemma UsedAndFree(fs: seq<nat>, words: seq<u32>)
    requires Distinct(fs) && |fs| <= 32 * |words|
    ensures UsedFrames(fs, words) !! FreeFrames(fs, words)
    ensures UsedFrames(fs, words) + FreeFrames(fs, words) == set k | 0 <= k < |fs| :: fs[k]
  {}

  // ----- runs -----

  /** A phys_page_alloc call with its result, or a phys_page_free call. */
  datatype Event = Took(frame: nat) | Gave(frame: nat)

  /** bitmaps[i] is the bitmap before event i. */
  ghost predicate BitmapRun(fs: seq<nat>, events: seq<Event>, bitmaps: seq<seq<u32>>) {
    && |bitmaps| == |events| + 1
    && (forall i :: 0 <= i < |bitmaps| ==> |fs| <= 32 * |bitmaps[i]|)
    && (forall i :: 0 <= i < |events| ==>
          match events[i]
          case Took(f) => Allocates(fs, bitmaps[i], bitmaps[i + 1], f)
          case Gave(f) => Releases(fs, bitmaps[i], bitmaps[i + 1], f))
  }

  /** Over any interleaving of calls, no frame is handed out twice without being given back in
      between: outstanding frames are pairwise different. */
  lemma OutstandingFramesDiffer(fs: seq<nat>, events: seq<Event>, bitmaps: seq<seq<u32>>, i: nat, j: nat)
    requires Distinct(fs) && BitmapRun(fs, events, bitmaps)
    requires i < j < |events| && events[i].Took? && events[i].frame != 0 && events[j] == events[i]
    ensures exists k :: i < k < j && events[k] == Gave(events[i].frame)
  {
    var f := events[i].frame;
    assert Allocates(fs, bitmaps[j], bitmaps[j + 1], f);
    UsedAndFree(fs, bitmaps[j]);
    assert f !in UsedFrames(fs, bitmaps[j]);
    if forall k :: i < k < j ==> events[k] != Gave(f) {
      StaysUsed(fs, events, bitmaps, i, j);
      assert false;
    }
  }

  lemma {:induction false} StaysUsed(fs: seq<nat>, events: seq<Event>, bitmaps: seq<seq<u32>>, i: nat, j: nat)
    requires Distinct(fs) && BitmapRun(fs, events, bitmaps)
    requires i < j <= |events| && events[i].Took? && events[i].frame != 0
    requires forall k :: i < k < j ==> events[k] != Gave(events[i].frame)
    ensures events[i].frame in UsedFrames(fs, bitmaps[j])
  {
    if i + 1 < j {
      StaysUsed(fs, events, bitmaps, i, j - 1);
    }
  }

  class Bitmap {
    const freemap: seq<Region>
    /** Number of memory-map descriptors; at least as many as freemap entries. */
    const mmDescs: nat
    const words: array<u32>

    ghost predicate Valid()
      reads words
    {
      WellFormed(freemap) && |FrameList(freemap)| <= 32 * words.Length
    }

    ghost function All(): set<nat> {
      set k | 0 <= k < |FrameList(freemap)| :: FrameList(freemap)[k]
    }

    ghost function Used(): set<nat>
      requires Valid()
      reads words
    {
      UsedFrames(FrameList(freemap), words[..])
    }

    ghost function Free(): set<nat>
      requires Valid()
      reads words
    {
      FreeFrames(FrameList(freemap), words[..])
    }

    /** The free frames in the order in which Alloc hands them out. */
    ghost function Queue(): seq<nat>
      requires Valid()
      reads words
    {
      FreeQueue(FrameList(freemap), words[..], 0)
    }

    lemma Partition()
      requires Valid()
      ensures Used() !! Free() && Used() + Free() == All()
      ensures forall f :: f in All() ==> FrameOk(f)
      ensures forall f :: f in Queue() <==> f in Free()
    {
      QueueIsFree(FrameList(freemap), words[..], 0);
      FramesDistinct(freemap);
      UsedAndFree(FrameList(freemap), words[..]);
    }

    constructor (freemap: seq<Region>, mmDescs: nat, words: array<u32>)
      requires WellFormed(freemap) && |FrameList(freemap)| <= 32 * words.Length
      ensures Valid() && this.freemap == freemap && this.mmDescs == mmDescs && this.words == words
    {
      this.freemap, this.mmDescs, this.words := freemap, mmDescs, words;
    }

    /** The inner loop of phys_page_alloc: looks for a clear bit among the frames of region i,
        whose first bit is bit `bit` of word h. */
    method AllocInRegion(i: nat, h0: nat, bit0: nat) returns (frame: nat, h: nat, bit: nat)
      requires Valid() && i < |freemap|
      requires bit0 < 32 && h0 * 32 + bit0 == Offset(freemap, i) <= |FrameList(freemap)|
      requires Full(words[..], h0 * 32 + bit0)
      modifies words
      ensures frame != 0 ==> Allocates(FrameList(freemap), old(words[..]), words[..], frame)
      ensures frame == 0 ==>
                && words[..] == old(words[..])
                && bit < 32 && h * 32 + bit == Offset(freemap, i + 1) <= |FrameList(freemap)|
                && Full(words[..], h * 32 + bit)
    {
      hide Bit, TestBit, Switch, Full, Allocates, Releases, Offset, FrameList, WellFormed;
      ghost var fs, w, off := FrameList(freemap), words[..], Offset(freemap, i);
      FramesDistinct(freemap);
      OffsetStep(freemap, i);
      h, bit := h0, bit0;
      var addr := freemap[i].addr;
      var pages := freemap[i].blocks;
      for j := 0 to pages
        invariant bit < 32 && h * 32 + bit == off + j <= |fs|
        invariant addr == freemap[i].addr + j * 4096
        invariant words[..] == w && Full(w, h * 32 + bit)
      {
        FrameAt(freemap, i, j);
        if TestBit(words[h], bit) {
          FullStep(w, h, bit);
          addr := addr + 4096;
          bit := bit + 1;
          if bit >= 32 {
            bit := 0;
            h := h + 1;
          }
        } else {
          TakeFrame(fs, w, h, bit);
          words[h] := Switch(words[h], bit, true);
          assert words[..] == w[h := Switch(w[h], bit, true)];
          return addr, h, bit;
        }
      }
      frame := 0;
    }

    /** phys_page_alloc */
    method Alloc() returns (frame: nat)
      requires Valid()
      modifies words
      ensures Allocates(FrameList(freemap), old(words[..]), words[..], frame)
    {
      OffsetEnds(freemap);
      var h, bit := 0, 0;
      for i := 0 to |freemap|
        invariant bit < 32 && h * 32 + bit == Offset(freemap, i) <= |FrameList(freemap)|
        invariant words[..] == old(words[..]) && Full(words[..], h * 32 + bit)
      {
        frame, h, bit := AllocInRegion(i, h, bit);
        if frame != 0 {
          return;
        }
      }
      FullHasNoFree(FrameList(freemap), words[..]);
      return 0;
    }

    /** The inner loop of phys_page_free: clears the bit of `addr` if it is a frame of region i. */
    method ReleaseInRegion(addr: nat, i: nat, h0: nat, bit0: nat) returns (done: bool, h: nat, bit: nat)
      requires Valid() && i < |freemap|
      requires bit0 < 32 && h0 * 32 + bit0 == Offset(freemap, i) <= |FrameList(freemap)|
      requires addr !in FrameList(freemap)[..h0 * 32 + bit0]
      modifies words
      ensures done ==> addr in FrameList(freemap) && Releases(FrameList(freemap), old(words[..]), words[..], addr)
      ensures !done ==>
                && words[..] == old(words[..])
                && bit < 32 && h * 32 + bit == Offset(freemap, i + 1) <= |FrameList(freemap)|
                && addr !in FrameList(freemap)[..h * 32 + bit]
    {
      hide Bit, TestBit, Switch, Full, Allocates, Releases, Offset, FrameList, WellFormed;
      ghost var fs, w, off := FrameList(freemap), words[..], Offset(freemap, i);
      FramesDistinct(freemap);
      OffsetStep(freemap, i);
      h, bit := h0, bit0;
      var ptr := freemap[i].addr;
      var pages := freemap[i].blocks;
      for j := 0 to pages
        invariant bit < 32 && h * 32 + bit == off + j <= |fs|
        invariant ptr == freemap[i].addr + j * 4096
        invariant words[..] == w && addr !in fs[..h * 32 + bit]
      {
        FrameAt(freemap, i, j);
        if ptr == addr {
          GiveFrame(fs, w, h, bit);
          words[h] := Switch(words[h], bit, false);
          assert words[..] == w[h := Switch(w[h], bit, false)];
          return true, h, bit;
        }
        assert fs[..h * 32 + bit + 1] == fs[..h * 32 + bit] + [ptr];
        bit := bit + 1;
        if bit >= 32 {
          bit := 0;
          h := h + 1;
        }
        ptr := ptr + 4096;
      }
      done := false;
    }

    /** phys_page_free. The walk runs over mm_descs entries of the freemap, so for an aligned
        address outside the freemap it stays inside the table only when there are no more
        descriptors than freemap entries. */
    method Release(addr: nat)
      requires Valid()
      requires addr % 4096 != 0 || addr in FrameList(freemap) || mmDescs <= |freemap|
      requires |freemap| <= mmDescs
      modifies words
      ensures Releases(FrameList(freemap), old(words[..]), words[..], addr)
    {
      FramesDistinct(freemap);
      OffsetEnds(freemap);
      if addr % 4096 != 0 {
        return;
      }
      ghost var fs := FrameList(freemap);
      assert fs[..|fs|] == fs;
      var h, bit := 0, 0;
      for i := 0 to mmDescs
        invariant i <= |freemap|
        invariant bit < 32 && h * 32 + bit == Offset(freemap, i) <= |fs|
        invariant words[..] == old(words[..]) && addr !in fs[..h * 32 + bit]
      {
        var done;
        done, h, bit := ReleaseInRegion(addr, i, h, bit);
        if done {
          return;
        }
      }
    }
  }
}
