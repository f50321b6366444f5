/** Where a FAT32 volume keeps its clusters: the places fat_setup and fat_read compute from the boot
    record (kernel/fs/FAT.c:16-27, 77-87, 106) against those of the Microsoft FAT specification 1.03,
    sections "Boot Sector and BPB Structure" and "FAT Data Structure". */
module FatVolume {
  import opened Words
  import opened FatRead

  datatype BootRecord = BootRecord(bytesPerSector: nat, sectorsPerCluster: nat, reserved: nat, fatCount: nat,
                                   sectorsPerFat: nat)
  {
    /** Sectors of 512 bytes in a sector of the volume. */
    function Ratio(): nat {
      bytesPerSector / 512
    }

    /** The first data sector, in sectors of the volume. */
    function FirstData(): nat {
      reserved + fatCount * sectorsPerFat
    }

    /** Bytes in a cluster. */
    function ClusterSize(): nat {
      512 * (Ratio() * sectorsPerCluster)
    }

    /** A boot record whose places fit the integers of the source. */
    predicate Sane() {
      && 0 < bytesPerSector < 0x1_0000 && bytesPerSector % 512 == 0 && 0 < sectorsPerCluster < 0x100
      && reserved * bytesPerSector < 0x8000_0000 && sectorsPerFat * bytesPerSector < 0x1_0000_0000
      && 2 <= FirstData() * Ratio() < 0x1_0000_0000
    }

    // ----- the places of the source -----

    /** fs_info.fat */
    function Fat(): nat {
      reserved * bytesPerSector / 512
    }

    /** fs_info.data, in 32 bits. */
    function Data(): nat {
      (Fat() + fatCount * (sectorsPerFat * bytesPerSector % 0x1_0000_0000 / 512) + 0xFFFF_FFFE) % 0x1_0000_0000
    }

    // ----- the places of the specification -----

    /** The first 512-byte sector of cluster c, from the start of the partition. */
    function Place(c: nat): nat
      requires c >= 2
    {
      (FirstData() + (c - 2) * sectorsPerCluster) * Ratio()
    }
  }

  /** The volume fat_setup describes. */
  function Mount(b: BootRecord, start: nat, disk: nat -> Sector): (v: Volume)
    ensures b.Sane() ==> v.Valid()
  {
    Volume(disk, start, b.bytesPerSector, b.sectorsPerCluster, b.Fat(), b.Data())
  }

  /** The bytes of cluster c. */
  function ClusterBytes(b: BootRecord, start: nat, disk: nat -> Sector, c: nat): (r: seq<byte>)
    requires c >= 2
    ensures |r| == b.ClusterSize()
  {
    Mount(b, start, disk).ReadSectors(start + b.Place(c), b.Ratio() * b.sectorsPerCluster)
  }

  /** Entry c of the first FAT, which starts after the reserved sectors. */
  function Link(b: BootRecord, start: nat, disk: nat -> Sector, c: nat): nat {
    Entry(disk(start + b.reserved * b.Ratio() + c / 128), c % 128)
  }

  /** Cluster i of the chain, by the low 28 bits of the links. */
  function ChainAt(b: BootRecord, start: nat, disk: nat -> Sector, first: nat, i: nat): nat {
    if i == 0 then first else Link(b, start, disk, ChainAt(b, start, disk, first, i - 1)) % 0x1000_0000
  }

  /** The first k clusters of the chain are data clusters. */
  predicate IsChain(b: BootRecord, start: nat, disk: nat -> Sector, first: nat, k: nat) {
    forall i :: 0 <= i < k ==> 2 <= ChainAt(b, start, disk, first, i) < 0x0FFF_FFF0
  }

  /** The bytes of the first k clusters of the file that starts at cluster `first`. */
  function FileBytes(b: BootRecord, start: nat, disk: nat -> Sector, first: nat, k: nat): seq<byte>
    requires IsChain(b, start, disk, first, k)
  {
    if k == 0 then []
    else FileBytes(b, start, disk, first, k - 1) + ClusterBytes(b, start, disk, ChainAt(b, start, disk, first, k - 1))
  }

  lemma {:induction false} FileSize(b: BootRecord, start: nat, disk: nat -> Sector, first: nat, k: nat)
    requires IsChain(b, start, disk, first, k)
    ensures |FileBytes(b, start, disk, first, k)| == k * b.ClusterSize()
  {
    hide BootRecord.ClusterSize, ClusterBytes, ChainAt;
    if k > 0 {
      FileSize(b, start, disk, first, k - 1);
      OneMore(k, b.ClusterSize());
    }
  }

  lemma OneMore(k: nat, n: nat)
    requires k > 0
    ensures (k - 1) * n + n == k * n
  {}

  // ----- where the two agree -----

  lemma Rescale(n: nat, r: nat)
    ensures n * (512 * r) / 512 == n * r
  {
    assert n * (512 * r) == 512 * (n * r);
  }

  /** The FAT is where the specification has it, and the data offset is 2 less than the first data
      sector. */
  lemma Places(b: BootRecord)
    requires b.Sane()
    ensures b.Fat() == b.reserved * b.Ratio()
    ensures b.Data() == b.FirstData() * b.Ratio() - 2
  {
    var r := b.Ratio();
    assert b.bytesPerSector == 512 * r;
    Rescale(b.reserved, r);
    Rescale(b.sectorsPerFat, r);
    Distribute(b.reserved, b.fatCount, b.sectorsPerFat, r);
  }

  lemma UnitProduct(r: nat, s: nat)
    requires r > 0 && s > 0
    ensures 512 * r * s == 512 <==> r == 1 && s == 1
  {
    if r > 1 {
      Scale(2, r, s);
    } else if s > 1 {
      assert r * s == s;
    }
  }

  /** The place at which cluster c is read is the one of the specification for all c exactly if a
      cluster is one sector of 512 bytes; otherwise cluster 2 or cluster 3 is misplaced. */
  lemma PlacesAgreeIff(b: BootRecord)
    requires b.Sane()
    ensures (forall c: nat :: 2 <= c < 0x1000_0000 ==> ReadPlace(b, c) == b.Place(c)) <==>
            b.bytesPerSector * b.sectorsPerCluster == 512
    ensures b.bytesPerSector * b.sectorsPerCluster != 512 ==>
              ReadPlace(b, 2) != b.Place(2) || ReadPlace(b, 3) != b.Place(3)
  {
    var p, r, s := b.FirstData() * b.Ratio(), b.Ratio(), b.sectorsPerCluster;
    Places(b);
    UnitProduct(r, s);
    PlaceOf(b, 2);
    PlaceOf(b, 3);
    if r == 1 && s == 1 {
      forall c: nat | 2 <= c < 0x1000_0000 ensures ReadPlace(b, c) == b.Place(c) {
        PlaceOf(b, c);
      }
    } else {
      hide BootRecord.Place, BootRecord.Ratio, BootRecord.FirstData, BootRecord.Data;
      Misplaced(p, r, s);
    }
  }

  lemma PlaceOf(b: BootRecord, c: nat)
    requires c >= 2
    ensures b.Place(c) == b.FirstData() * b.Ratio() + (c - 2) * (b.sectorsPerCluster * b.Ratio())
    ensures b.Place(2) == b.FirstData() * b.Ratio()
  {
    Distribute(b.FirstData(), c - 2, b.sectorsPerCluster, b.Ratio());
  }

  lemma Distribute(f: nat, n: nat, s: nat, r: nat)
    ensures (f + n * s) * r == f * r + n * (s * r)
  {
    assert n * s * r == n * (s * r);
  }

  /** The place at which fat_read reads cluster c, from the start of the partition. */
  function ReadPlace(b: BootRecord, c: nat): nat {
    b.Data() + c * b.sectorsPerCluster % 0x1_0000_0000
  }

  lemma Misplaced(p: nat, r: nat, s: nat)
    requires p >= 2 && r > 0 && 0 < s < 0x100 && !(r == 1 && s == 1)
    ensures p - 2 + 2 * s % 0x1_0000_0000 != p || p - 2 + 3 * s % 0x1_0000_0000 != p + s * r
  {
    if s == 1 {
      assert s * r == r;
    }
  }

  // ----- what fat_read reads -----

  /** A range of the first k clusters of a file, whose entries lie in one FAT sector and have their top
      four bits clear. */
  predicate InFile(b: BootRecord, start: nat, disk: nat -> Sector, first: nat, k: nat, pointer: nat, n: nat) {
    && IsChain(b, start, disk, first, k)
    && (forall i :: 0 <= i < k ==> ChainAt(b, start, disk, first, i) / 128 == first / 128)
    && (forall i :: 0 <= i < k - 1 ==> Link(b, start, disk, ChainAt(b, start, disk, first, i)) < 0x1000_0000)
    && pointer < 0x1_0000_0000 && pointer < k * b.ClusterSize() && pointer + n <= k * b.ClusterSize()
  }

  /** fat_read writes the bytes of the file. */
  predicate ReadsFile(b: BootRecord, start: nat, disk: nat -> Sector, first: nat, k: nat, pointer: nat, n: nat)
    requires b.Sane() && InFile(b, start, disk, first, k, pointer, n)
  {
    var file := FileBytes(b, start, disk, first, k);
    pointer + n <= |file| && ReadBytes(Mount(b, start, disk), first, pointer, n) == file[pointer..pointer + n]
  }

  /** fat_read writes the bytes of the file for every disk and every such range if and only if a cluster
      is one sector of 512 bytes. */
  lemma ReadsFilesIff(b: BootRecord, start: nat)
    requires b.Sane()
    ensures (forall disk: nat -> Sector, first: nat, k: nat, pointer: nat, n: nat ::
               InFile(b, start, disk, first, k, pointer, n) ==> ReadsFile(b, start, disk, first, k, pointer, n)) <==>
            b.bytesPerSector * b.sectorsPerCluster == 512
  {
    hide InFile, ReadsFile, BootRecord.Sane;
    if b.bytesPerSector * b.sectorsPerCluster == 512 {
      forall disk: nat -> Sector, first: nat, k: nat, pointer: nat, n: nat
        | InFile(b, start, disk, first, k, pointer, n)
        ensures ReadsFile(b, start, disk, first, k, pointer, n)
      {
        SmallClustersRead(b, start, disk, first, k, pointer, n);
      }
    } else {
      var disk, first := MisreadFile(b, start);
    }
  }

  lemma SmallClustersRead(b: BootRecord, start: nat, disk: nat -> Sector, first: nat, k: nat, pointer: nat, n: nat)
    requires b.Sane() && InFile(b, start, disk, first, k, pointer, n)
    requires b.bytesPerSector * b.sectorsPerCluster == 512
    ensures ReadsFile(b, start, disk, first, k, pointer, n)
  {
    var v := Mount(b, start, disk);
    Sizes(b);
    ChainInSector(b, start, disk, first, k, pointer, n);
    ContentIsFile(b, start, disk, first, k, pointer, n, k);
    ReadIsSlice(v, first, k, pointer, n);
    FileSize(b, start, disk, first, k);
  }

  lemma Sizes(b: BootRecord)
    requires b.Sane()
    ensures b.ClusterSize() == b.bytesPerSector * b.sectorsPerCluster
  {
    assert b.bytesPerSector == 512 * b.Ratio();
  }

  /** The chain by the specification is the chain fat_read follows. */
  lemma {:induction false} ChainIs(b: BootRecord, start: nat, disk: nat -> Sector, first: nat, k: nat, pointer: nat,
                                   n: nat, i: nat)
    requires b.Sane() && InFile(b, start, disk, first, k, pointer, n) && i < k
    ensures ClusterAt(TableOf(Mount(b, start, disk), first), first, i) == ChainAt(b, start, disk, first, i)
  {
    hide Entry, Link, Mount, TableOf, BootRecord.Sane, BootRecord.ClusterSize;
    if i > 0 {
      ChainIs(b, start, disk, first, k, pointer, n, i - 1);
      LinkIs(b, start, disk, first, ChainAt(b, start, disk, first, i - 1));
    }
  }

  lemma LinkIs(b: BootRecord, start: nat, disk: nat -> Sector, first: nat, c: nat)
    requires b.Sane() && c / 128 == first / 128
    ensures Link(b, start, disk, c) == Entry(TableOf(Mount(b, start, disk), first), c % 128)
  {
    hide Entry, BootRecord.Data, BootRecord.FirstData;
    Places(b);
  }

  lemma ChainInSector(b: BootRecord, start: nat, disk: nat -> Sector, first: nat, k: nat, pointer: nat, n: nat)
    requires b.Sane() && InFile(b, start, disk, first, k, pointer, n)
    ensures InOneSector(TableOf(Mount(b, start, disk), first), first, k)
  {
    forall i | 0 <= i < k
      ensures ClusterAt(TableOf(Mount(b, start, disk), first), first, i) == ChainAt(b, start, disk, first, i)
    {
      ChainIs(b, start, disk, first, k, pointer, n, i);
    }
    hide TableOf, ClusterAt, ChainAt, Link, Mount, BootRecord.Sane;
  }

  lemma {:induction false} ContentIsFile(b: BootRecord, start: nat, disk: nat -> Sector, first: nat, k: nat,
                                         pointer: nat, n: nat, j: nat)
    requires b.Sane() && InFile(b, start, disk, first, k, pointer, n) && j <= k
    requires b.bytesPerSector * b.sectorsPerCluster == 512
    ensures IsChain(b, start, disk, first, j)
    ensures
      var v := Mount(b, start, disk);
      Content(v, TableOf(v, first), first, j) == FileBytes(b, start, disk, first, j)
  {
    if j > 0 {
      ContentIsFile(b, start, disk, first, k, pointer, n, j - 1);
      ChainIs(b, start, disk, first, k, pointer, n, j - 1);
      ClusterIs(b, start, disk, ChainAt(b, start, disk, first, j - 1));
      hide Mount, ClusterBytes, ChainAt, ClusterAt, TableOf, Volume.Cluster, BootRecord.Sane;
    }
  }

  lemma ClusterIs(b: BootRecord, start: nat, disk: nat -> Sector, c: nat)
    requires b.Sane() && 2 <= c < 0x1000_0000
    requires b.bytesPerSector * b.sectorsPerCluster == 512
    ensures Mount(b, start, disk).Cluster(c) == ClusterBytes(b, start, disk, c)
  {
    PlacesAgreeIff(b);
    assert ReadPlace(b, c) == b.Place(c);
  }

  /** A disk on which sector `lba` holds ones and everything else is zero. */
  function Marked(lba: nat): nat -> Sector {
    (n: nat) => MarkedSector(lba, n)
  }

  function MarkedSector(lba: nat, n: nat): (s: Sector)
    ensures s[0] == if n == lba then 1 else 0
  {
    if n == lba then seq(512, _ => 1) else Blank()
  }

  lemma {:induction false} FirstByte(v: Volume, lba: nat, count: nat)
    requires count > 0
    ensures v.ReadSectors(lba, count)[0] == v.disk(lba)[0]
  {
    if count > 1 {
      FirstByte(v, lba, count - 1);
    } else {
      assert v.ReadSectors(lba, 0) == [];
    }
  }

  /** Otherwise the first byte of a file of one cluster is misread on some disk. */
  lemma MisreadFile(b: BootRecord, start: nat) returns (disk: nat -> Sector, first: nat)
    requires b.Sane() && b.bytesPerSector * b.sectorsPerCluster != 512
    ensures first == 2 || first == 3
    ensures InFile(b, start, disk, first, 1, 0, 1) && !ReadsFile(b, start, disk, first, 1, 0, 1)
  {
    hide ReadBytes, FileBytes, InFile, Mount, ReadPlace, BootRecord.Place, BootRecord.Sane;
    PlacesAgreeIff(b);
    first := if ReadPlace(b, 2) != b.Place(2) then 2 else 3;
    disk := Marked(start + b.Place(first));
    FirstBytes(b, start, disk, first);
  }

  lemma FirstBytes(b: BootRecord, start: nat, disk: nat -> Sector, first: nat)
    requires b.Sane() && 2 <= first <= 3
    ensures InFile(b, start, disk, first, 1, 0, 1)
    ensures ReadBytes(Mount(b, start, disk), first, 0, 1) == [disk(start + ReadPlace(b, first))[0]]
    ensures FileBytes(b, start, disk, first, 1)[0..1] == [disk(start + b.Place(first))[0]]
  {
    hide BootRecord.Data, BootRecord.Place, BootRecord.FirstData;
    Sizes(b);
    Scale(1, b.Ratio(), 1);
    Scale(1, b.sectorsPerCluster, b.Ratio());
    assert ChainAt(b, start, disk, first, 0) == first;
    FirstByteRead(b, start, disk, first);
    FirstByteOfFile(b, start, disk, first);
  }

  lemma FirstByteRead(b: BootRecord, start: nat, disk: nat -> Sector, first: nat)
    requires b.Sane() && b.ClusterSize() == b.bytesPerSector * b.sectorsPerCluster
    requires b.Ratio() * b.sectorsPerCluster > 0
    ensures ReadBytes(Mount(b, start, disk), first, 0, 1) == [disk(start + ReadPlace(b, first))[0]]
  {
    hide BootRecord.Data, BootRecord.Sane, Entry, Advance;
    var v := Mount(b, start, disk);
    FirstByte(v, start + ReadPlace(b, first), b.Ratio() * b.sectorsPerCluster);
  }

  lemma FirstByteOfFile(b: BootRecord, start: nat, disk: nat -> Sector, first: nat)
    requires first >= 2 && b.Ratio() * b.sectorsPerCluster > 0 && IsChain(b, start, disk, first, 1)
    ensures FileBytes(b, start, disk, first, 1)[0..1] == [disk(start + b.Place(first))[0]]
  {
    hide BootRecord.Data, BootRecord.Place, BootRecord.Fat, BootRecord.Ratio;
    FirstByte(Mount(b, start, disk), start + b.Place(first), b.Ratio() * b.sectorsPerCluster);
    assert FileBytes(b, start, disk, first, 0) == [];
  }

  // ----- byte by byte -----

  /** Byte o of cluster i of a file, on the disk. */
  lemma {:induction false} FileByte(b: BootRecord, start: nat, disk: nat -> Sector, first: nat, k: nat, i: nat, o: nat)
    requires IsChain(b, start, disk, first, k) && i < k && o < b.ClusterSize()
    ensures 0 <= i * b.ClusterSize() && i * b.ClusterSize() + o < |FileBytes(b, start, disk, first, k)|
    ensures FileBytes(b, start, disk, first, k)[i * b.ClusterSize() + o] ==
            disk(start + b.Place(ChainAt(b, start, disk, first, i)) + o / 512)[o % 512]
  {
    hide BootRecord.ClusterSize, ChainAt, ClusterBytes, BootRecord.Place;
    var size, c := b.ClusterSize(), ChainAt(b, start, disk, first, i);
    assert 2 <= c;
    Scale(i + 1, k, size);
    assert (i + 1) * size == i * size + size;
    FileSize(b, start, disk, first, k - 1);
    if i < k - 1 {
      FileByte(b, start, disk, first, k - 1, i, o);
    } else {
      ClusterBytesAt(b, start, disk, c, o);
    }
  }

  lemma ClusterBytesAt(b: BootRecord, start: nat, disk: nat -> Sector, c: nat, o: nat)
    requires c >= 2 && o < b.ClusterSize()
    ensures ClusterBytes(b, start, disk, c)[o] == disk(start + b.Place(c) + o / 512)[o % 512]
  {
    hide BootRecord.Place;
    SectorsAt(Mount(b, start, disk), start + b.Place(c), b.Ratio() * b.sectorsPerCluster, o);
  }
}
