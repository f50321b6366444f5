/** fat_read: reading a slice of a file by walking its cluster chain (kernel/fs/FAT.c:56-127). */
module FatRead {
  import opened Words
  import opened Descriptors

  type Sector = s: seq<byte> | |s| == 512 witness Blank()

  function Blank(): (s: seq<byte>)
    ensures |s| == 512
  {
    seq(512, _ => 0)
  }

  /** A mounted FAT volume. Sector reads are a function from the LBA to the sector's bytes. */
  datatype Volume = Volume(disk: nat -> Sector, start: nat, bytesPerSector: nat, sectorsPerCluster: nat,
                           fat: nat, data: nat)
  {
    predicate Valid() {
      0 < bytesPerSector && bytesPerSector % 512 == 0 && 0 < sectorsPerCluster
    }

    function ClusterSize(): (n: nat)
      ensures Valid() ==> n > 0
    {
      bytesPerSector * sectorsPerCluster
    }

    /** readsectorpio(lba, count) */
    function ReadSectors(lba: nat, count: nat): (r: seq<byte>)
      ensures |r| == 512 * count
    {
      if count == 0 then [] else ReadSectors(lba, count - 1) + disk(lba + count - 1)
    }

    /** The bytes read for a cluster. The product is computed in 32 bits. */
    function Cluster(c: nat): (r: seq<byte>)
      requires Valid()
      ensures |r| == ClusterSize()
    {
      var sectors := bytesPerSector / 512 * sectorsPerCluster;
      assert 512 * (bytesPerSector / 512 * sectorsPerCluster) == 512 * (bytesPerSector / 512) * sectorsPerCluster;
      ReadSectors(start + data + c * sectorsPerCluster % 0x1_0000_0000, sectors)
    }
  }

  /** Entry i of a FAT sector: 32 bits, least significant byte first. */
  function Entry(s: Sector, i: nat): nat
    requires i < 128
  {
    (s[4 * i] as int) + 0x100 * (s[4 * i + 1] as int) + 0x1_0000 * (s[4 * i + 2] as int) +
    0x100_0000 * (s[4 * i + 3] as int)
  }

  /** The chain walk: the active cluster and the FAT sector in the buffer. */
  datatype Cursor = Cursor(active: nat, table: Sector) {
    function Link(): nat {
      Entry(table, active % 128)
    }

    predicate LinkStaysInSector() {
      active / 128 == Link() / 128
    }
  }

  /** The FAT sector that holds a cluster's entry. */
  function TableOf(v: Volume, c: nat): Sector {
    (v.disk)(v.start + v.fat + c / 128)
  }

  /** Advancing while clusters are skipped: the buffer is reloaded before the link is taken. */
  function Advance(v: Volume, cur: Cursor): Cursor {
    var table := if cur.LinkStaysInSector() then cur.table else TableOf(v, cur.Link());
    Cursor(Entry(table, cur.active % 128), table)
  }

  function AdvanceBy(v: Volume, cur: Cursor, n: nat): Cursor {
    if n == 0 then cur else Advance(v, AdvanceBy(v, cur, n - 1))
  }

  /** Advancing in the copy loop: reloading the buffer leaves the active cluster as it is. */
  function AdvanceInLoop(v: Volume, cur: Cursor): Cursor {
    if cur.LinkStaysInSector() then cur.(active := cur.Link()) else cur.(table := TableOf(v, cur.Link()))
  }

  /** (c & 0x0FFFFFFF) < 0x0FFFFFF0 */
  predicate IsCluster(c: nat) {
    c % 0x1000_0000 < 0x0FFF_FFF0
  }

  /** The bytes the copy loop writes from a cursor on, for n bytes still to be copied. */
  function Copied(v: Volume, cur: Cursor, n: nat): (r: seq<byte>)
    requires v.Valid()
    ensures |r| <= n
    decreases n
  {
    var size := v.ClusterSize();
    if n <= size then v.Cluster(cur.active)[..n]
    else
      var next := AdvanceInLoop(v, cur);
      v.Cluster(cur.active) + (if IsCluster(next.active) then Copied(v, next, n - size) else [])
  }

  /** Everything fat_read writes for `bytes` bytes from `pointer` on. */
  function ReadBytes(v: Volume, first: nat, pointer: nat, bytes: nat): (r: seq<byte>)
    requires v.Valid()
    ensures |r| <= bytes
  {
    var size := v.ClusterSize();
    var cur := AdvanceBy(v, Cursor(first, TableOf(v, first)), pointer / size % 0x1_0000_0000);
    var off := pointer % size;
    if off == 0 then Copied(v, cur, bytes)
    else
      var head := v.Cluster(cur.active)[off..];
      if bytes <= size - off then head[..bytes] else head + Copied(v, Advance(v, cur), bytes - (size - off))
  }

  // ----- the loops of the source -----

  /** memcpy(out + at, src, |src|) */
  method CopyBytes(out: array<byte>, at: nat, src: seq<byte>)
    requires at + |src| <= out.Length
    modifies out
    ensures Wrote(old(out[..]), out[..], at, src)
  {
    for i := 0 to |src|
      invariant out[..at] == old(out[..at]) && out[at..at + i] == src[..i]
      invariant out[at + i..] == old(out[at + i..])
    {
      out[at + i] := src[i];
    }
  }

  /** The array after the bytes from `at` on were overwritten by `src`. */
  ghost predicate Wrote(before: seq<byte>, after: seq<byte>, at: nat, src: seq<byte>)
  {
    at + |src| <= |before| && after == before[..at] + src + before[at + |src|..]
  }

  lemma WroteTwice(a: seq<byte>, b: seq<byte>, c: seq<byte>, at: nat, src: seq<byte>, more: seq<byte>)
    requires Wrote(a, b, at, src) && Wrote(b, c, at + |src|, more)
    ensures Wrote(a, c, at, src + more)
  {
    assert b[..at + |src|] == a[..at] + src;
    assert b[at + |src| + |more|..] == a[at + |src| + |more|..];
  }

  /** fat_read, for the first cluster find_fat_entry found. */
  method Read(v: Volume, first: nat, pointer: nat, out: array<byte>, bytes: nat) returns (r: nat)
    requires v.Valid() && bytes <= out.Length
    modifies out
    ensures r == bytes
    ensures Wrote(old(out[..]), out[..], 0, ReadBytes(v, first, pointer, bytes))
  {
    hide Copied, Wrote, Advance, Entry;
    r := bytes;
    var size := v.ClusterSize();
    hide Volume.ClusterSize, Volume.Cluster;
    var skipped := pointer / size % 0x1_0000_0000;
    var cur := Cursor(first, TableOf(v, first));
    for i := 0 to skipped
      invariant cur == AdvanceBy(v, Cursor(first, TableOf(v, first)), i)
    {
      cur := Advance(v, cur);
    }
    var off := pointer % size;
    if off == 0 {
      CopyLoop(v, cur, out, 0, bytes);
      return;
    }
    var buffer := v.Cluster(cur.active);
    if bytes > size - off {
      ghost var before := out[..];
      CopyBytes(out, 0, buffer[off..]);
      ghost var middle := out[..];
      CopyLoop(v, Advance(v, cur), out, size - off, bytes - (size - off));
      WroteTwice(before, middle, out[..], 0, buffer[off..], Copied(v, Advance(v, cur), bytes - (size - off)));
    } else {
      assert buffer[off..off + bytes] == buffer[off..][..bytes];
      CopyBytes(out, 0, buffer[off..off + bytes]);
    }
  }

  /** The do-while loop of fat_read. */
  method CopyLoop(v: Volume, start: Cursor, out: array<byte>, at0: nat, n: nat)
    requires v.Valid() && at0 + n <= out.Length
    modifies out
    ensures Wrote(old(out[..]), out[..], at0, Copied(v, start, n))
  {
    var size := v.ClusterSize();
    hide Volume.ClusterSize, Volume.Cluster, Wrote, AdvanceInLoop, Copied, IsCluster;
    var cur, at := start, at0;
    var left: nat := n;
    ghost var first, done: seq<byte> := out[..], [];
    NothingWritten(first, at0);
    assert [] + Copied(v, start, n) == Copied(v, start, n);
    while true
      invariant at == at0 + |done| && left + |done| == n
      invariant Wrote(first, out[..], at0, done)
      invariant Copied(v, start, n) == done + Copied(v, cur, left)
      decreases left
    {
      var buffer := v.Cluster(cur.active);
      ghost var before, rest := out[..], done;
      CopiedStep(v, cur, left);
      if left > size {
        CopyBytes(out, at, buffer);
        WroteTwice(first, before, out[..], at0, done, buffer);
        done := done + buffer;
        left := left - size;
      } else {
        CopyBytes(out, at, buffer[..left]);
        WroteTwice(first, before, out[..], at0, done, buffer[..left]);
        return;
      }
      at := at + size;
      cur := AdvanceInLoop(v, cur);
      if !IsCluster(cur.active) {
        return;
      }
      ThenMore(rest, buffer, Copied(v, cur, left));
    }
  }

  lemma ThenMore(a: seq<byte>, b: seq<byte>, c: seq<byte>)
    ensures a + (b + c) == a + b + c
  {}

  /** One round of the copy loop. */
  lemma CopiedStep(v: Volume, cur: Cursor, n: nat)
    requires v.Valid()
    ensures n <= v.ClusterSize() ==> Copied(v, cur, n) == v.Cluster(cur.active)[..n]
    ensures n > v.ClusterSize() ==>
              var next := AdvanceInLoop(v, cur);
              if IsCluster(next.active)
              then Copied(v, cur, n) == v.Cluster(cur.active) + Copied(v, next, n - v.ClusterSize())
              else Copied(v, cur, n) == v.Cluster(cur.active)
  {
    assert v.Cluster(cur.active) + [] == v.Cluster(cur.active);
  }

  lemma NothingWritten(s: seq<byte>, at: nat)
    requires at <= |s|
    ensures Wrote(s, s, at, [])
  {
    assert s == s[..at] + [] + s[at..];
  }

  // ----- the simple specification -----

  /** The i-th cluster of the chain that starts at c, by links of one FAT sector. */
  function ClusterAt(table: Sector, c: nat, i: nat): nat {
    if i == 0 then c else Entry(table, ClusterAt(table, c, i - 1) % 128)
  }

  /** The first k clusters are data clusters whose entries lie in the sector of the first one. */
  predicate InOneSector(table: Sector, c: nat, k: nat) {
    forall i :: 0 <= i < k ==> ClusterAt(table, c, i) < 0x0FFF_FFF0 && ClusterAt(table, c, i) / 128 == c / 128
  }

  /** The bytes of the first k clusters. */
  function Content(v: Volume, table: Sector, c: nat, k: nat): (r: seq<byte>)
    requires v.Valid()
    ensures |r| == k * v.ClusterSize()
  {
    if k == 0 then [] else Content(v, table, c, k - 1) + v.Cluster(ClusterAt(table, c, k - 1))
  }

  lemma {:induction false} ContentAt(v: Volume, table: Sector, c: nat, k: nat, i: nat)
    requires v.Valid() && i < k
    ensures 0 <= i * v.ClusterSize() <= (i + 1) * v.ClusterSize() <= k * v.ClusterSize()
    ensures Content(v, table, c, k)[i * v.ClusterSize()..(i + 1) * v.ClusterSize()] == v.Cluster(ClusterAt(table, c, i))
  {
    hide Volume.ClusterSize, Volume.Cluster, ClusterAt;
    var size := v.ClusterSize();
    Scale(i + 1, k, size);
    assert (i + 1) * size == i * size + size;
    if i < k - 1 {
      ContentAt(v, table, c, k - 1, i);
      Scale(i + 1, k - 1, size);
      Prefix(Content(v, table, c, k - 1), v.Cluster(ClusterAt(table, c, k - 1)), i * size, i * size + size);
    }
  }

  lemma Prefix(s: seq<byte>, t: seq<byte>, a: nat, b: nat)
    requires a <= b <= |s|
    ensures (s + t)[a..b] == s[a..b]
  {}

  lemma {:induction false} AdvanceByLinks(v: Volume, c: nat, k: nat, n: nat)
    requires n < k && InOneSector(TableOf(v, c), c, k)
    ensures AdvanceBy(v, Cursor(c, TableOf(v, c)), n) == Cursor(ClusterAt(TableOf(v, c), c, n), TableOf(v, c))
  {
    if n > 0 {
      AdvanceByLinks(v, c, k, n - 1);
      assert ClusterAt(TableOf(v, c), c, n) / 128 == c / 128;
    }
  }

  lemma Slices(all: seq<byte>, a: nat, b: nat, c: nat)
    requires a <= b <= c <= |all|
    ensures all[a..c] == all[a..b] + all[b..c]
    ensures all[a..c][..b - a] == all[a..b] && all[a..c][b - a..] == all[b..c]
  {}

  lemma NextCluster(i: nat, k: nat, size: nat)
    requires size > 0 && i * size + size < k * size
    ensures i + 1 < k && (i + 1) * size == i * size + size
  {
    if i + 1 >= k {
      Scale(k, i + 1, size);
      assert false;
    }
  }

  /** From cluster i on, the copy loop writes the next n bytes of the content. */
  lemma {:induction false} CopiedIsSlice(v: Volume, c: nat, k: nat, i: nat, n: nat)
    requires v.Valid() && i < k && InOneSector(TableOf(v, c), c, k)
    requires i * v.ClusterSize() + n <= k * v.ClusterSize()
    ensures
      var table := TableOf(v, c);
      Copied(v, Cursor(ClusterAt(table, c, i), table), n) ==
      Content(v, table, c, k)[i * v.ClusterSize()..i * v.ClusterSize() + n]
    decreases n
  {
    hide Volume.ClusterSize, Volume.Cluster, Content, TableOf, Entry;
    var table, size := TableOf(v, c), v.ClusterSize();
    var all, at := Content(v, table, c, k), i * size;
    ContentAt(v, table, c, k, i);
    assert (i + 1) * size == at + size;
    if n <= size {
      Slices(all, at, at + n, at + size);
    } else {
      NextCluster(i, k, size);
      InLoopTakesLink(v, c, k, i);
      CopiedIsSlice(v, c, k, i + 1, n - size);
      Slices(all, at, at + size, at + n);
    }
  }

  /** Inside one FAT sector both ways of advancing take the link. */
  lemma InLoopTakesLink(v: Volume, c: nat, k: nat, i: nat)
    requires i + 1 < k && InOneSector(TableOf(v, c), c, k)
    ensures
      var cur := Cursor(ClusterAt(TableOf(v, c), c, i), TableOf(v, c));
      var next := Cursor(ClusterAt(TableOf(v, c), c, i + 1), TableOf(v, c));
      AdvanceInLoop(v, cur) == next == Advance(v, cur) && IsCluster(next.active)
  {
    hide Entry;
    assert ClusterAt(TableOf(v, c), c, i) / 128 == c / 128 == ClusterAt(TableOf(v, c), c, i + 1) / 128;
  }

  /** fat_read copies exactly the bytes pointer, ..., pointer + bytes - 1 of the clusters it finds. */
  lemma ReadIsSlice(v: Volume, first: nat, k: nat, pointer: nat, bytes: nat)
    requires v.Valid() && InOneSector(TableOf(v, first), first, k)
    requires pointer < 0x1_0000_0000 && pointer < k * v.ClusterSize() && pointer + bytes <= k * v.ClusterSize()
    ensures ReadBytes(v, first, pointer, bytes) == Content(v, TableOf(v, first), first, k)[pointer..pointer + bytes]
  {
    hide Volume.ClusterSize, Volume.Cluster, Content, TableOf, Entry, Copied, Advance;
    var table, size := TableOf(v, first), v.ClusterSize();
    var i, off := pointer / size, pointer % size;
    PointerSplits(pointer, size, k);
    AdvanceByLinks(v, first, k, i);
    ContentAt(v, table, first, k, i);
    var all, at := Content(v, table, first, k), i * size;
    assert (i + 1) * size == at + size;
    if off == 0 {
      CopiedIsSlice(v, first, k, i, bytes);
    } else if bytes <= size - off {
      SliceOfSlice(all, at, at + size, off, bytes);
    } else {
      NextCluster(i, k, size);
      InLoopTakesLink(v, first, k, i);
      CopiedIsSlice(v, first, k, i + 1, bytes - (size - off));
      HeadThenRest(all, at, size, off, bytes);
    }
  }

  lemma SliceOfSlice(all: seq<byte>, a: nat, b: nat, off: nat, n: nat)
    requires a <= b <= |all| && off + n <= b - a
    ensures all[a..b][off..][..n] == all[a + off..a + off + n]
  {}

  lemma HeadThenRest(all: seq<byte>, at: nat, size: nat, off: nat, n: nat)
    requires off <= size && size - off <= n && at + off + n <= |all|
    ensures all[at..at + size][off..] + all[at + size..at + off + n] == all[at + off..at + off + n]
  {}

  lemma PointerSplits(pointer: nat, size: nat, k: nat)
    requires size > 0 && pointer < 0x1_0000_0000 && pointer < k * size
    ensures pointer == pointer / size * size + pointer % size && pointer / size < k
    ensures pointer / size % 0x1_0000_0000 == pointer / size
  {
    var i := pointer / size;
    assert size * i + pointer % size == pointer;
    Scale(1, size, i);
    if i >= k {
      Scale(k, i, size);
      assert false;
    }
  }

  // ----- byte by byte -----

  /** Entry i of a FAT sector is the number its four bytes stand for. */
  lemma EntryIsNumber(s: Sector, i: nat)
    requires i < 128
    ensures Entry(s, i) == Number(s[4 * i..4 * i + 4])
  {
    var b := s[4 * i..4 * i + 4];
    assert b[1..][1..] == b[2..] && b[2..][1..] == b[3..] && b[3..][1..] == [];
    assert Number(b[3..]) == b[3];
    assert Number(b[2..]) == b[2] + 0x100 * Number(b[3..]);
  }

  /** Byte o of consecutive sectors. */
  lemma {:induction false} SectorsAt(v: Volume, lba: nat, count: nat, o: nat)
    requires o < 512 * count
    ensures v.ReadSectors(lba, count)[o] == (v.disk)(lba + o / 512)[o % 512]
  {
    if o < 512 * (count - 1) {
      SectorsAt(v, lba, count - 1, o);
    } else {
      assert o / 512 == count - 1 && o % 512 == o - 512 * (count - 1);
    }
  }

  lemma ClusterByte(v: Volume, c: nat, o: nat)
    requires v.Valid() && o < v.ClusterSize()
    ensures v.Cluster(c)[o] == (v.disk)(v.start + v.data + c * v.sectorsPerCluster % 0x1_0000_0000 + o / 512)[o % 512]
  {
    var sectors := v.bytesPerSector / 512 * v.sectorsPerCluster;
    assert 512 * sectors == v.ClusterSize() by {
      assert v.bytesPerSector == 512 * (v.bytesPerSector / 512);
    }
    SectorsAt(v, v.start + v.data + c * v.sectorsPerCluster % 0x1_0000_0000, sectors, o);
  }

  lemma PlaceInside(i: nat, o: nat, k: nat, size: nat)
    requires o < size && i * size + o < k * size
    ensures i < k && 0 <= i * size && (i + 1) * size == i * size + size
  {
    if i >= k {
      Scale(k, i, size);
      assert false;
    }
  }

  /** Byte o of cluster i. */
  lemma ContentByte(v: Volume, table: Sector, c: nat, k: nat, i: nat, o: nat)
    requires v.Valid() && o < v.ClusterSize() && i < k
    ensures 0 <= i * v.ClusterSize() && i * v.ClusterSize() + o < |Content(v, table, c, k)|
    ensures Content(v, table, c, k)[i * v.ClusterSize() + o] == v.Cluster(ClusterAt(table, c, i))[o]
  {
    hide Volume.ClusterSize, Volume.Cluster, Content, ClusterAt;
    var size := v.ClusterSize();
    ContentAt(v, table, c, k, i);
    assert (i + 1) * size == i * size + size;
    SliceAt(Content(v, table, c, k), i * size, (i + 1) * size, o);
  }

  lemma SliceAt(s: seq<byte>, a: nat, b: nat, o: nat)
    requires a <= b <= |s| && o < b - a
    ensures s[a..b][o] == s[a + o]
  {}

  /** The bytes fat_read writes, on the disk: if byte pointer + j of the file is byte o of cluster i of the
      chain, it comes from the sector o / 512 places behind the first one of that cluster. */
  lemma ReadByte(v: Volume, first: nat, k: nat, pointer: nat, bytes: nat, j: nat, i: nat, o: nat)
    requires v.Valid() && InOneSector((v.disk)(v.start + v.fat + first / 128), first, k)
    requires pointer < 0x1_0000_0000 && pointer < k * v.ClusterSize() && pointer + bytes <= k * v.ClusterSize()
    requires j < bytes && o < v.ClusterSize() && pointer + j == i * v.ClusterSize() + o
    ensures |ReadBytes(v, first, pointer, bytes)| == bytes
    ensures
      var c := ClusterAt((v.disk)(v.start + v.fat + first / 128), first, i);
      ReadBytes(v, first, pointer, bytes)[j] ==
      (v.disk)(v.start + v.data + c * v.sectorsPerCluster % 0x1_0000_0000 + o / 512)[o % 512]
  {
    hide Volume.ClusterSize, Volume.Cluster, Content, ClusterAt, ReadBytes, Entry;
    var table := TableOf(v, first);
    PlaceInside(i, o, k, v.ClusterSize());
    ReadIsSlice(v, first, k, pointer, bytes);
    SliceAt(Content(v, table, first, k), pointer, pointer + bytes, j);
    ContentByte(v, table, first, k, i, o);
    ClusterByte(v, ClusterAt(table, first, i), o);
  }

  // ----- chains that leave the FAT sector -----

  /** While clusters are skipped, the next link is taken if and only if it stays in the FAT sector at hand,
      or the entry at the same place of the sector it leads to happens to be that link. */
  lemma AdvanceTakesLinkIff(v: Volume, cur: Cursor)
    ensures
      var link := Entry(cur.table, cur.active % 128);
      Advance(v, cur).active == link <==>
      link / 128 == cur.active / 128 || Entry((v.disk)(v.start + v.fat + link / 128), cur.active % 128) == link
  {}

  /** In the copy loop the next link is taken if and only if it stays in the FAT sector; otherwise the
      cluster stays as it is. */
  lemma LoopTakesLinkIff(v: Volume, cur: Cursor)
    ensures
      var link := Entry(cur.table, cur.active % 128);
      && (AdvanceInLoop(v, cur).active == link <==> link / 128 == cur.active / 128)
      && (link / 128 != cur.active / 128 ==> AdvanceInLoop(v, cur).active == cur.active)
  {}

  /** c & 0x0FFFFFFF */
  lemma ClusterIsMask(c: nat)
    ensures IsCluster(c) <==> And(c, 0x0FFF_FFFF) < 0x0FFF_FFF0
  {
    hide And;
    assert Pow2(10) == 0x400 && Pow2(14) == 0x4000;
    assert Pow2(20) == 0x10_0000 && Pow2(28) == 0x1000_0000;
    LowMask(c, 28);
  }

  /** A link in the FAT sector that marks the end of the chain stops the copy loop. */
  lemma ChainEndStops(v: Volume, cur: Cursor, n: nat)
    requires v.Valid() && n > v.ClusterSize()
    requires
      var link := Entry(cur.table, cur.active % 128);
      link / 128 == cur.active / 128 && And(link, 0x0FFF_FFFF) >= 0x0FFF_FFF0
    ensures Copied(v, cur, n) == v.Cluster(cur.active)
  {
    hide Volume.Cluster, Volume.ClusterSize, Entry, IsCluster, And;
    CopiedStep(v, cur, n);
    ClusterIsMask(cur.Link());
  }

  /** So a chain that leaves the FAT sector, or ends, has its last cluster copied again. */
  lemma ClusterCopiedAgain(v: Volume, cur: Cursor, n: nat, j: nat)
    requires v.Valid() && IsCluster(cur.active)
    requires Entry(cur.table, cur.active % 128) / 128 != cur.active / 128
    requires v.ClusterSize() <= j < n && j < 2 * v.ClusterSize()
    ensures |Copied(v, cur, n)| > j
    ensures Copied(v, cur, n)[j] == Copied(v, cur, n)[j - v.ClusterSize()]
  {
    hide Volume.Cluster, Entry, IsCluster;
    var size := v.ClusterSize();
    hide Volume.ClusterSize;
    CopiedStep(v, cur, n);
    CopiedStep(v, AdvanceInLoop(v, cur), n - size);
  }
}
