/** Preparing the memory map for the kernel (bootloader/boot.c:32-45, 116-134, 164-171): shrinking the
    descriptors in place, filtering the freemap, and sizing the frame bitmap. */
module MemoryMap {
  import opened Words
  import opened FrameBitmap
  import opened Descriptors

  // ----- shrinking the descriptors -----

  lemma Step(i: nat, n: nat, stride: nat)
    requires i < n
    ensures (i + 1) * stride == i * stride + stride <= n * stride
  {
    Scale(i + 1, n, stride);
  }

  /** Where descriptor i starts. */
  function At(i: nat, stride: nat): nat {
    i * stride
  }

  /** The first 40 bytes of n descriptors, one after the other. */
  function Shrunk(buf: seq<byte>, stride: nat, n: nat): (r: seq<byte>)
    requires stride >= 40 && n * stride <= |buf|
    ensures |r| == 40 * n
  {
    if n == 0 then []
    else
      Step(n - 1, n, stride);
      Shrunk(buf, stride, n - 1) + buf[(n - 1) * stride..(n - 1) * stride + 40]
  }

  /** Entry i of the shrunk map is the first 40 bytes of descriptor i. */
  lemma {:induction false} ShrunkAt(buf: seq<byte>, stride: nat, n: nat, i: nat)
    requires stride >= 40 && n * stride <= |buf| && i < n
    ensures 0 <= i * stride && i * stride + 40 <= |buf|
    ensures Shrunk(buf, stride, n)[40 * i..40 * i + 40] == buf[i * stride..i * stride + 40]
  {
    Step(i, n, stride);
    Step(n - 1, n, stride);
    if i < n - 1 {
      ShrunkAt(buf, stride, n - 1, i);
      FrontPart(Shrunk(buf, stride, n - 1), buf[(n - 1) * stride..(n - 1) * stride + 40], 40 * i);
    }
  }

  /** memcpy(to, from, 40) inside one buffer, forwards, to a lower or equal address. */
  method MoveDown(m: array<byte>, to: nat, from: nat)
    requires to <= from && from + 40 <= m.Length
    modifies m
    ensures m[..] == old(m[..to]) + old(m[from..from + 40]) + old(m[to + 40..])
  {
    ghost var all := m[..];
    for t := 0 to 40
      invariant m.Length == |all| && m[..] == all[..to] + all[from..from + t] + all[to + t..]
    {
      ghost var before := m[..];
      m[to + t] := m[from + t];
      assert m[..] == before[to + t := before[from + t]];
      OneByteDown(all, before, to, from, t);
    }
  }

  lemma OneByteDown(all: seq<byte>, now: seq<byte>, to: nat, from: nat, t: nat)
    requires to <= from && from + t < |all| && now == all[..to] + all[from..from + t] + all[to + t..]
    ensures now[to + t := now[from + t]] == all[..to] + all[from..from + t + 1] + all[to + t + 1..]
  {
    assert now[from + t] == all[from + t];
  }

  /** The shrinking loop, for every descriptor size of at least 40 bytes: although it overwrites the
      buffer it reads from, the result is made of the original descriptors. */
  method Shrink(m: array<byte>, stride: nat, n: nat)
    requires stride >= 40 && n * stride <= m.Length
    modifies m
    ensures 40 * n <= m.Length
    ensures m[..] == Shrunk(old(m[..]), stride, n) + old(m[40 * n..])
  {
    ghost var buf := m[..];
    Scale(40, stride, n);
    if stride == 40 {
      SameSize(buf, n);
      return;
    }
    hide Shrunk, At, Moved;
    NothingShrunk(buf, stride);
    var to, from := 0, 0;
    for i := 0 to n
      invariant to == 40 * i <= m.Length && from == At(i, stride)
      invariant ShrunkSoFar(buf, stride, n, i, m[..])
    {
      ShrinkOne(m, buf, stride, n, i, to, from);
      to := to + 40;
      from := from + stride;
    }
    hide ShrunkSoFar;
    AllShrunk(buf, stride, n, m[..]);
  }

  ghost predicate ShrunkSoFar(buf: seq<byte>, stride: nat, n: nat, i: nat, now: seq<byte>)
    requires stride >= 40
  {
    && i <= n && n * stride <= |buf| && i * stride <= n * stride
    && Moved(buf, Shrunk(buf, stride, i), 40 * i, now)
  }

  lemma AllShrunk(buf: seq<byte>, stride: nat, n: nat, now: seq<byte>)
    requires stride >= 40 && ShrunkSoFar(buf, stride, n, n, now)
    ensures n * stride <= |buf| && now == Shrunk(buf, stride, n) + buf[40 * n..]
  {}

  /** One round of the shrinking loop. */
  method ShrinkOne(m: array<byte>, ghost buf: seq<byte>, stride: nat, ghost n: nat, ghost i: nat, to: nat, from: nat)
    requires stride >= 40 && i < n && m.Length == |buf| && ShrunkSoFar(buf, stride, n, i, m[..])
    requires to == 40 * i && from == At(i, stride)
    modifies m
    ensures ShrunkSoFar(buf, stride, n, i + 1, m[..]) && from + stride == At(i + 1, stride) && to + 40 <= m.Length
  {
    Step(i, n, stride);
    ShrunkStep(buf, stride, n, i);
    MoveDownOne(m, to, from, buf, Shrunk(buf, stride, i));
  }

  /** The buffer holds the result so far, followed by the original bytes. */
  ghost predicate Moved(buf: seq<byte>, done: seq<byte>, to: nat, now: seq<byte>) {
    to <= |buf| && now == done + buf[to..]
  }

  lemma NothingShrunk(buf: seq<byte>, stride: nat)
    requires stride >= 40
    ensures Shrunk(buf, stride, 0) == [] && At(0, stride) == 0
    ensures forall n: nat :: n * stride <= |buf| ==> ShrunkSoFar(buf, stride, n, 0, buf)
  {
    assert [] + buf[0..] == buf;
  }

  method MoveDownOne(m: array<byte>, to: nat, from: nat, ghost buf: seq<byte>, ghost done: seq<byte>)
    requires to <= from && from + 40 <= m.Length == |buf| && |done| == to && Moved(buf, done, to, m[..])
    modifies m
    ensures Moved(buf, done + buf[from..from + 40], to + 40, m[..])
  {
    ghost var before := m[..];
    assert before[..to] == done;
    assert before[from..from + 40] == buf[from..from + 40];
    assert before[to + 40..] == buf[to + 40..];
    MoveDown(m, to, from);
  }

  lemma ShrunkStep(buf: seq<byte>, stride: nat, n: nat, i: nat)
    requires stride >= 40 && n * stride <= |buf| && i < n
    ensures i * stride + stride == (i + 1) * stride <= |buf| && 40 * i <= i * stride
    ensures Shrunk(buf, stride, i + 1) == Shrunk(buf, stride, i) + buf[i * stride..i * stride + 40]
  {
    Step(i, n, stride);
    Scale(40, stride, i);
  }

  lemma {:induction false} SameSize(buf: seq<byte>, n: nat)
    requires 40 * n <= |buf|
    ensures Shrunk(buf, 40, n) == buf[..40 * n]
  {
    if n > 0 {
      SameSize(buf, n - 1);
    }
  }

  // ----- the map read again -----

  /** The loops after the second getmemmap read 40-byte entries, and the buffer is not shrunk again:
      what they read at entry i is the head of descriptor i for all i < n. */
  predicate ReadsDescriptors(buf: seq<byte>, stride: nat, n: nat)
    requires stride >= 40 && n * stride <= |buf|
  {
    forall i :: 0 <= i < n ==> ReadsDescriptor(buf, stride, n, i)
  }

  predicate ReadsDescriptor(buf: seq<byte>, stride: nat, n: nat, i: nat)
    requires stride >= 40 && n * stride <= |buf| && i < n
  {
    Step(i, n, stride);
    Scale(40, stride, i);
    buf[40 * i..40 * i + 40] == buf[i * stride..i * stride + 40]
  }

  /** For a given buffer this holds exactly if its beginning happens to equal the shrunk map. */
  lemma ReadsShrunkMap(buf: seq<byte>, stride: nat, n: nat)
    requires stride >= 40 && n * stride <= |buf|
    ensures 40 * n <= |buf|
    ensures ReadsDescriptors(buf, stride, n) <==> buf[..40 * n] == Shrunk(buf, stride, n)
  {
    hide Shrunk, ReadsDescriptor, SameEntry;
    Scale(40, stride, n);
    forall i | 0 <= i < n
      ensures ReadsDescriptor(buf, stride, n, i) <==> SameEntry(buf[..40 * n], Shrunk(buf, stride, n), i)
    {
      ReadsEntry(buf, stride, n, i);
    }
    SameEntries(buf[..40 * n], Shrunk(buf, stride, n), n);
  }

  predicate SameEntry(a: seq<byte>, b: seq<byte>, i: nat)
    requires 40 * i + 40 <= |a| && 40 * i + 40 <= |b|
  {
    a[40 * i..40 * i + 40] == b[40 * i..40 * i + 40]
  }

  lemma ReadsEntry(buf: seq<byte>, stride: nat, n: nat, i: nat)
    requires stride >= 40 && n * stride <= |buf| && 40 * n <= |buf| && i < n
    ensures ReadsDescriptor(buf, stride, n, i) <==> SameEntry(buf[..40 * n], Shrunk(buf, stride, n), i)
  {
    hide Shrunk;
    ShrunkAt(buf, stride, n, i);
    FrontPart(buf[..40 * n], buf[40 * n..], 40 * i);
    assert buf[..40 * n] + buf[40 * n..] == buf;
  }

  lemma SameEntries(a: seq<byte>, b: seq<byte>, n: nat)
    requires |a| == 40 * n == |b|
    ensures a == b <==> forall i :: 0 <= i < n ==> SameEntry(a, b, i)
  {
    if forall i :: 0 <= i < n ==> SameEntry(a, b, i) {
      forall q | 0 <= q < 40 * n ensures a[q] == b[q] {
        var i, r := q / 40, q % 40;
        assert SameEntry(a, b, i);
        assert a[q] == a[40 * i..40 * i + 40][r];
        assert b[q] == b[40 * i..40 * i + 40][r];
      }
    }
  }

  /** n zeroed descriptors, but for one byte at the start of descriptor 1. */
  function Marked(stride: nat, n: nat, mark: byte): (r: seq<byte>)
    ensures |r| == n * stride
  {
    seq(n * stride, k => if k == stride then mark else 0)
  }

  lemma MarkIsMissed(stride: nat, n: nat, mark: byte)
    requires stride > 40 && n >= 2 && mark != 0
    ensures !ReadsDescriptors(Marked(stride, n, mark), stride, n)
  {
    var buf := Marked(stride, n, mark);
    Step(1, n, stride);
    assert buf[40..80][0] == 0 && buf[stride..stride + 40][0] == mark;
    assert !ReadsDescriptor(buf, stride, n, 1);
  }

  /** The descriptors are read for every content of the buffer if and only if they are 40 bytes long or
      there is at most one. */
  lemma RereadNeedsShrink(stride: nat, n: nat)
    requires stride >= 40
    ensures (forall buf: seq<byte> :: |buf| == n * stride ==> ReadsDescriptors(buf, stride, n)) <==>
            stride == 40 || n <= 1
  {
    if stride > 40 && n >= 2 {
      MarkIsMissed(stride, n, 1);
    } else {
      forall buf: seq<byte>, i | |buf| == n * stride && 0 <= i < n ensures ReadsDescriptor(buf, stride, n, i) {}
    }
  }

  /** With descriptors of 48 bytes, the type of a normal second descriptor is read as 0. */
  lemma TypeMisread()
    ensures
      var buf := Marked(48, 2, NORMAL_MEM);
      !ReadsDescriptors(buf, 48, 2) && buf[48..52] == [NORMAL_MEM, 0, 0, 0] && buf[40..44] == [0, 0, 0, 0]
  {
    MarkIsMissed(48, 2, NORMAL_MEM);
  }

  // ----- the freemap -----

  /** The normal-memory descriptors, in order, as regions. */
  function Freemap(mm: seq<Descriptor>): seq<Region> {
    if mm == [] then []
    else
      var d := mm[|mm| - 1];
      Freemap(mm[..|mm| - 1]) + (if d.memType == NORMAL_MEM then [Region(d.physaddr, d.pages)] else [])
  }

  /** The region of a normal descriptor stands behind those of the normal descriptors before it. */
  lemma {:induction false} FreemapAt(mm: seq<Descriptor>, i: nat)
    requires i < |mm| && mm[i].memType == 7
    ensures |Freemap(mm[..i])| < |Freemap(mm)|
    ensures Freemap(mm)[|Freemap(mm[..i])|].addr == mm[i].physaddr
    ensures Freemap(mm)[|Freemap(mm[..i])|].blocks == mm[i].pages
  {
    var k := |mm| - 1;
    if i < k {
      FreemapAt(mm[..k], i);
      assert mm[..k][..i] == mm[..i];
    }
  }

  /** There is one region for each normal descriptor. */
  lemma {:induction false} FreemapCount(mm: seq<Descriptor>)
    ensures |Freemap(mm)| == |set i | 0 <= i < |mm| && mm[i].memType == 7|
  {
    if mm != [] {
      var k := |mm| - 1;
      FreemapCount(mm[..k]);
      var before := set i | 0 <= i < |mm[..k]| && mm[..k][i].memType == 7;
      assert (set i | 0 <= i < |mm| && mm[i].memType == 7) == before + (if mm[k].memType == 7 then {k} else {});
    }
  }

  /** The entries of 16 bytes that the pages allocated for n of them hold. */
  function Capacity(n: nat): (c: nat)
    ensures c >= n && c * 16 == (n * 16 + 4095) / 4096 * 4096
  {
    (n * 16 + 4095) / 4096 * 256
  }

  /** Counting the normal-memory entries of the buffer, allocating pages for the table, and filling it
      from the buffer after `second` was read into it. Both loops read n entries of 40 bytes, n being the
      number of descriptors of the first map, whatever the size of a descriptor is. `raw` is what the
      allocated pages hold. The writes stay inside the pages exactly if the regions then in the buffer
      fit, and the counted entries are those regions exactly if there are as many as were counted. */
  method FillFreemap(buf: seq<byte>, second: seq<byte>, n: nat, raw: nat -> Region)
    returns (freemap: array<Region>, count: nat, inBounds: bool)
    requires 40 * n <= |buf|
    ensures fresh(freemap) && count == |Freemap(Parsed(buf, n))| && freemap.Length == Capacity(count)
    ensures
      var regions := Freemap(Parsed(Overwritten(buf, second), n));
      && (inBounds <==> |regions| * 16 <= (|Freemap(Parsed(buf, n))| * 16 + 4095) / 4096 * 4096)
      && (forall k :: 0 <= k < freemap.Length ==> freemap[k] == if k < |regions| then regions[k] else raw(k))
      && (freemap[..count] == regions <==> |regions| == |Freemap(Parsed(buf, n))|)
  {
    hide Parse;
    count := 0;
    ghost var mm := Parsed(buf, n);
    for i := 0 to n
      invariant count == |Freemap(mm[..i])|
    {
      assert mm[..i + 1][..i] == mm[..i];
      if Parse(buf[40 * i..40 * i + 40]).memType == NORMAL_MEM {
        count := count + 1;
      }
    }
    assert mm[..n] == mm;
    freemap := new Region[Capacity(count)]((k: nat) => raw(k));
    inBounds := FillTable(freemap, Overwritten(buf, second), n);
  }

  /** The fill loop; a write past the table only clears `inBounds`. */
  method FillTable(freemap: array<Region>, buf: seq<byte>, n: nat) returns (inBounds: bool)
    requires 40 * n <= |buf|
    modifies freemap
    ensures inBounds <==> |Freemap(Parsed(buf, n))| <= freemap.Length
    ensures forall k :: 0 <= k < freemap.Length ==>
              freemap[k] == if k < |Freemap(Parsed(buf, n))| then Freemap(Parsed(buf, n))[k] else old(freemap[k])
  {
    hide Parse;
    inBounds := true;
    ghost var mm := Parsed(buf, n);
    var j := 0;
    for i := 0 to n
      invariant j == |Freemap(mm[..i])| && (inBounds <==> j <= freemap.Length)
      invariant forall k :: 0 <= k < freemap.Length ==>
                  freemap[k] == if k < j then Freemap(mm[..i])[k] else old(freemap[k])
    {
      assert mm[..i + 1][..i] == mm[..i];
      var d := Parse(buf[40 * i..40 * i + 40]);
      if d.memType == NORMAL_MEM {
        if j < freemap.Length {
          freemap[j] := Region(d.physaddr, d.pages);
        } else {
          inBounds := false;
        }
        j := j + 1;
      }
    }
    assert mm[..n] == mm;
  }

  // ----- maps of 40-byte descriptors -----

  /** The entries in the buffer after a map of 40-byte descriptors is read over another. */
  function ReadAgain(counted: seq<Descriptor>, second: seq<Descriptor>): (mm: seq<Descriptor>)
    ensures |mm| == |counted|
    ensures |second| == |counted| ==> mm == second
  {
    if |second| <= |counted| then second + counted[|second|..] else counted
  }

  /** Every two such maps are the content of a buffer before and after. */
  lemma BuffersOf(counted: seq<Descriptor>, second: seq<Descriptor>)
    requires forall i :: 0 <= i < |counted| ==> counted[i].Sane()
    requires forall i :: 0 <= i < |second| ==> second[i].Sane()
    ensures Parsed(EncodeAll(counted), |counted|) == counted
    ensures Parsed(Overwritten(EncodeAll(counted), EncodeAll(second)), |counted|) == ReadAgain(counted, second)
  {
    hide EncodeAll, Descriptor.Sane, Parsed;
    ParsedEncoded(counted);
    ParsedEncoded(second);
    if |second| <= |counted| {
      ParsedAgain(EncodeAll(counted), EncodeAll(second), |second|, |counted|);
    }
  }

  /** The regions of a shorter second map are followed by those of the stale descriptors. */
  lemma {:induction false} FreemapAppend(a: seq<Descriptor>, b: seq<Descriptor>)
    ensures Freemap(a + b) == Freemap(a) + Freemap(b)
  {
    if b == [] {
      assert a + b == a;
    } else {
      var c := b[..|b| - 1];
      FreemapAppend(a, c);
      assert (a + b)[..|a + b| - 1] == a + c;
    }
  }

  lemma StaleRegions(counted: seq<Descriptor>, second: seq<Descriptor>)
    requires |second| <= |counted|
    ensures Freemap(ReadAgain(counted, second)) == Freemap(second) + Freemap(counted[|second|..])
  {
    FreemapAppend(second, counted[|second|..]);
  }

  lemma {:induction false} AllNormal(d: Descriptor, n: nat)
    requires d.memType == NORMAL_MEM
    ensures |Freemap(seq(n, _ => d))| == n
  {
    if n > 0 {
      AllNormal(d, n - 1);
      assert seq(n, _ => d)[..n - 1] == seq(n - 1, _ => d);
    }
  }

  /** A descriptor became normal memory between the two reads: the kernel never sees the last region. */
  lemma RegionMissed()
    ensures
      var counted := [Descriptor(NORMAL_MEM, 0x10_0000, 8), Descriptor(4, 0x20_0000, 8)];
      var second := counted[1 := Descriptor(NORMAL_MEM, 0x20_0000, 8)];
      |Freemap(counted)| == 1 && |Freemap(ReadAgain(counted, second))| == 2 <= Capacity(1)
  {
    var counted := [Descriptor(NORMAL_MEM, 0x10_0000, 8), Descriptor(4, 0x20_0000, 8)];
    var second := counted[1 := Descriptor(NORMAL_MEM, 0x20_0000, 8)];
    var first := [counted[0]];
    assert first[..0] == [] && |Freemap(first)| == 1;
    assert counted[..1] == first && second[..1] == first;
  }

  /** A full page of entries and one more after the second read: the fill loop leaves the pages. */
  lemma FillLeavesPages()
    ensures
      var d := Descriptor(NORMAL_MEM, 0x10_0000, 8);
      var counted, second := seq(256, _ => d) + [Descriptor(4, 0x20_0000, 8)], seq(257, _ => d);
      |counted| == |second| &&
      |Freemap(ReadAgain(counted, second))| * 16 > (|Freemap(counted)| * 16 + 4095) / 4096 * 4096
  {
    var d := Descriptor(NORMAL_MEM, 0x10_0000, 8);
    var counted := seq(256, _ => d) + [Descriptor(4, 0x20_0000, 8)];
    AllNormal(d, 256);
    AllNormal(d, 257);
    assert counted[..256] == seq(256, _ => d);
  }

  /** The second map is shorter and its regions fit, but the last entry of the first map is still in the
      buffer: the fill loop leaves the pages. */
  lemma StaleEntryLeavesPages()
    ensures
      var d := Descriptor(NORMAL_MEM, 0x10_0000, 8);
      var counted, second := [Descriptor(4, 0x20_0000, 8)] + seq(256, _ => d), seq(256, _ => d);
      && |Freemap(second)| * 16 <= (|Freemap(counted)| * 16 + 4095) / 4096 * 4096
      && |Freemap(ReadAgain(counted, second))| * 16 > (|Freemap(counted)| * 16 + 4095) / 4096 * 4096
  {
    var d, other := Descriptor(NORMAL_MEM, 0x10_0000, 8), [Descriptor(4, 0x20_0000, 8)];
    var second := seq(256, _ => d);
    var counted := other + second;
    AllNormal(d, 256);
    AllNormal(d, 1);
    FreemapAppend(other, second);
    assert other[..0] == [];
    assert counted[256..] == seq(1, _ => d);
    StaleRegions(counted, second);
    hide Freemap;
  }

  // ----- the bitmap -----

  function TotalBlocks(regions: seq<Region>): nat {
    if regions == [] then 0 else TotalBlocks(regions[..|regions| - 1]) + regions[|regions| - 1].blocks
  }

  /** The bitmap has one bit for each frame the allocator can visit. */
  lemma {:induction false} BitsAreFrames(regions: seq<Region>)
    ensures |FrameList(regions)| == TotalBlocks(regions)
  {
    if regions != [] {
      BitsAreFrames(regions[..|regions| - 1]);
    }
  }

  /** The sum of the freemap's blocks. */
  method SumBlocks(freemap: array<Region>) returns (pages: nat)
    ensures pages == |FrameList(freemap[..])|
  {
    pages := 0;
    for i := 0 to freemap.Length
      invariant pages == TotalBlocks(freemap[..i])
    {
      assert freemap[..i + 1][..i] == freemap[..i];
      pages := pages + freemap[i].blocks;
    }
    assert freemap[..freemap.Length] == freemap[..];
    BitsAreFrames(freemap[..]);
  }

  /** The 32-bit word h of a bitmap stored as bytes, least significant byte first. */
  function WordOf(bytes: seq<byte>, h: nat): u32
    requires 4 * h + 4 <= |bytes|
  {
    (bytes[4 * h] as int) + 0x100 * ((bytes[4 * h + 1] as int) +
    0x100 * ((bytes[4 * h + 2] as int) + 0x100 * (bytes[4 * h + 3] as int)))
  }

  /** The low n bits of x + 2^n * y are those of x, the others those of y. */
  lemma {:induction false} TestBitSplit(x: nat, y: nat, n: nat, b: nat)
    requires x < Pow2(n)
    ensures TestBit(x + Pow2(n) * y, b) == if b < n then TestBit(x, b) else TestBit(y, b - n)
  {
    if n > 0 {
      var z := x + Pow2(n) * y;
      assert z == x + 2 * (Pow2(n - 1) * y);
      assert z / 2 == x / 2 + Pow2(n - 1) * y && z % 2 == x % 2;
      if b > 0 {
        TestBitSplit(x / 2, y, n - 1, b - 1);
      }
    }
  }

  /** Bit b of a word is bit b % 8 of its byte b / 8. */
  lemma WordBit(bytes: seq<byte>, h: nat, b: nat)
    requires 4 * h + 4 <= |bytes| && b < 32
    ensures TestBit(WordOf(bytes, h), b) == TestBit(bytes[4 * h + b / 8], b % 8)
  {
    var b0, b1 := bytes[4 * h] as int, bytes[4 * h + 1] as int;
    var b2, b3 := bytes[4 * h + 2] as int, bytes[4 * h + 3] as int;
    assert Pow2(8) == 0x100;
    TestBitSplit(b0, b1 + 0x100 * (b2 + 0x100 * b3), 8, b);
    if b >= 8 {
      TestBitSplit(b1, b2 + 0x100 * b3, 8, b - 8);
    }
    if b >= 16 {
      TestBitSplit(b2, b3, 8, b - 16);
    }
  }

  lemma {:induction false} ZeroHasNoBits(b: nat)
    ensures !TestBit(0, b)
  {
    if b > 0 {
      ZeroHasNoBits(b - 1);
    }
  }

  /** boot allocates CEILING(pages, 32768) pages for the bitmap and clears its first
      CEILING(pages, 8) bytes. Every word the allocator can touch lies in those pages, and every bit
      it can visit lies in the cleared bytes, so at the start every frame is free. */
  lemma ClearedBitmapIsFree(regions: seq<Region>, bytes: seq<byte>, k: nat)
    requires |bytes| == (TotalBlocks(regions) + 32767) / 32768 * 4096
    requires forall i :: 0 <= i < (TotalBlocks(regions) + 7) / 8 && i < |bytes| ==> bytes[i] == 0
    requires k < |FrameList(regions)|
    ensures 4 * (k / 32) + 4 <= |bytes|
    ensures !TestBit(WordOf(bytes, k / 32), k % 32)
  {
    BitsAreFrames(regions);
    var h, b := k / 32, k % 32;
    assert 4 * h + b / 8 == k / 8 < (TotalBlocks(regions) + 7) / 8;
    WordBit(bytes, h, b);
    ZeroHasNoBits(b % 8);
  }
}
