/** A FAT32 volume byte by byte: where the fields of the boot sector put the table entries and the
    clusters (src/modules/fat/main.c:52-141), and that this is what the driver's layout says. */
module FatOnDisk {
  import opened Arith
  import opened Bytes
  import opened FatChains
  import opened FatDisk
  import opened FatFiles
  import opened FatGeometry

  // ---- Fields and places ----

  function Dword(m: seq<byte>, at: nat): nat {
    if at + 4 <= |m|
    then m[at] as int + 0x100 * m[at + 1] as int + 0x1_0000 * m[at + 2] as int + 0x100_0000 * m[at + 3] as int
    else 0
  }

  /** The 16-bit field counts unless it is 0. */
  function Sectors(b: BootSector): nat {
    if b.totalSectorsInVolume == 0 then b.extendedSectorCount else b.totalSectorsInVolume
  }

  function TableSectors(b: BootSector): nat {
    if b.sectorsPerFat16 == 0 then b.sectorsPerFat32 else b.sectorsPerFat16
  }

  /** The sectors of a root directory of fixed size, which FAT32 volumes do not have. */
  function RootSectors(b: BootSector): nat
    requires b.bytesPerSector > 0
  {
    (32 * b.rootDirectoryEntries as int + b.bytesPerSector as int - 1) / b.bytesPerSector as int
  }

  function FirstDataSector(b: BootSector): nat
    requires b.bytesPerSector > 0
  {
    b.reservedSectors as int + b.fatCount as int * TableSectors(b) + RootSectors(b)
  }

  /** The low 28 bits of entry c in the first table copy. */
  function TableEntry(v: FatVolume, m: seq<byte>, c: nat): nat {
    Dword(m, (v.partitionLba as int + v.boot.reservedSectors as int) * v.boot.bytesPerSector as int + 4 * c)
      % 0x1000_0000
  }

  /** The sectors of cluster c lie within the volume. */
  predicate IsCluster(b: BootSector, c: nat)
    requires b.bytesPerSector > 0
  {
    2 <= c && FirstDataSector(b) + (c - 1) * b.sectorsPerCluster as int <= Sectors(b)
  }

  function ClusterStart(v: FatVolume, c: nat): int
    requires v.boot.bytesPerSector > 0
  {
    (v.partitionLba as int + FirstDataSector(v.boot) + (c - 2) * v.boot.sectorsPerCluster as int)
      * v.boot.bytesPerSector as int
  }

  // ---- The driver's numbers are these ----

  lemma FirstDataIs(v: FatVolume)
    requires v.boot.bytesPerSector > 0
    ensures DataStart(v) == FirstDataSector(v.boot) && FatTotalSectors(v) == Sectors(v.boot)
  {
    TimesIs(v.boot.fatCount, FatSize(v));
    QuotientIs(v.boot.rootDirectoryEntries as int * 32 + (v.boot.bytesPerSector - 1), v.boot.bytesPerSector);
  }

  /** The cluster count is the number of whole clusters in the sectors behind the tables. */
  lemma {:induction false} ClusterCountIs(v: FatVolume, len: nat)
    requires ValidVolume(v, len)
    ensures var data, spc := Sectors(v.boot) - FirstDataSector(v.boot), v.boot.sectorsPerCluster as int;
      FatClusterCount(v) * spc <= data < (FatClusterCount(v) + 1) * spc
  {
    hide Times, Quotient, FirstDataSector, Sectors, DataStart;
    NoWrap(v, len);
    FirstDataIs(v);
    DivideDown(FatDataCount(v), v.boot.sectorsPerCluster);
    TimesIs(FatClusterCount(v), v.boot.sectorsPerCluster);
    TimesIs(FatClusterCount(v) + 1, v.boot.sectorsPerCluster);
    TimesAdd(FatClusterCount(v), 1, v.boot.sectorsPerCluster);
    TimesIs(1, v.boot.sectorsPerCluster);
  }

  /** The clusters that the driver knows are those within the volume. */
  lemma {:induction false} ClustersAre(v: FatVolume, len: nat, c: nat)
    requires ValidVolume(v, len)
    ensures 2 <= c < LayoutOf(v).n <==> IsCluster(v.boot, c)
  {
    hide Times, Quotient, FirstDataSector, Sectors, DataStart;
    var spc := v.boot.sectorsPerCluster as int;
    ClusterCountIs(v, len);
    if 2 <= c {
      Ordered(c - 1, FatClusterCount(v), spc);
      Ordered(FatClusterCount(v) + 1, c - 1, spc);
    }
  }

  lemma Ordered(a: nat, b: nat, k: nat)
    ensures a <= b ==> a * k <= b * k
  {
  }

  lemma {:induction false} TableIs(v: FatVolume, m: seq<byte>, c: nat)
    requires ValidVolume(v, |m|) && LayoutOf(v).Valid(|m|) && c < LayoutOf(v).n
    ensures Abs(LayoutOf(v), m).fat[c] == TableEntry(v, m, c)
  {
    var l := LayoutOf(v);
    TimesIs(v.partitionLba + v.boot.reservedSectors, v.boot.bytesPerSector);
    var raw := RawEntry(l, m, c);
    assert raw[..2] == m[l.fat + 4 * c..l.fat + 4 * c + 2];
    assert raw[2..] == m[l.fat + 4 * c + 2..l.fat + 4 * c + 4];
    assert LE32(raw) == Dword(m, l.fat + 4 * c);
  }

  lemma {:induction false} ClusterIs(v: FatVolume, m: seq<byte>, c: nat)
    requires ValidVolume(v, |m|) && LayoutOf(v).Valid(|m|) && 2 <= c < LayoutOf(v).n
    ensures var at, n := ClusterStart(v, c), v.boot.sectorsPerCluster as int * v.boot.bytesPerSector as int;
      0 <= at && at + n <= |m| && Abs(LayoutOf(v), m).data[c] == m[at..at + n]
  {
    hide Times, FirstDataSector, DataStart;
    var l := LayoutOf(v);
    ClusterRange(l, |m|, c);
    FirstDataIs(v);
    TimesIs(v.boot.sectorsPerCluster, v.boot.bytesPerSector);
    StartIs(v.partitionLba + DataStart(v), c - 2, v.boot.sectorsPerCluster, v.boot.bytesPerSector);
  }

  lemma StartIs(first: nat, k: nat, spc: nat, bps: nat)
    ensures Times(first, bps) + Times(k, Times(spc, bps)) == (first + k * spc) * bps
  {
    TimesAssoc(k, spc, bps);
    TimesAdd(first, Times(k, spc), bps);
    TimesIs(k, spc);
    TimesIs(first + k * spc, bps);
  }

  // ---- Free clusters ----

  /** Cluster c is the lowest one whose entry is 0; 0 when every entry of the volume is in use. */
  ghost predicate LowestFree(v: FatVolume, m: seq<byte>, c: nat)
    requires v.boot.bytesPerSector > 0
  {
    if c == 0 then forall e :: IsCluster(v.boot, e) ==> TableEntry(v, m, e) != 0
    else
      && IsCluster(v.boot, c) && TableEntry(v, m, c) == 0
      && forall e :: 2 <= e < c ==> TableEntry(v, m, e) != 0
  }

  lemma {:induction false} FirstFreeIsLowest(v: FatVolume, m: seq<byte>)
    requires ValidVolume(v, |m|) && LayoutOf(v).Valid(|m|)
    ensures LowestFree(v, m, FirstFree(Abs(LayoutOf(v), m).fat))
  {
    hide LayoutOf, Abs, IsCluster, TableEntry, FreeFrom;
    var fat := Abs(LayoutOf(v), m).fat;
    var c, n := FirstFree(fat), LayoutOf(v).n;
    forall e: nat | IsCluster(v.boot, e) || (2 <= e < n && c != 0)
      ensures 2 <= e < n && IsCluster(v.boot, e) && TableEntry(v, m, e) == fat[e]
      ensures fat[e] == 0 ==> c != 0 && c <= e
    {
      ClustersAre(v, |m|, e);
      TableIs(v, m, e);
      FreeFromMembers(fat, 2, e);
      if fat[e] == 0 {
        LowestFirst(fat, e);
      }
    }
    if c != 0 {
      assert 2 <= c < n;
    }
  }

  lemma {:induction false} LowestFirst(fat: seq<nat>, e: nat)
    requires e in FreeList(fat)
    ensures FreeList(fat)[0] <= e
  {
    hide FreeFrom;
    var k :| 0 <= k < |FreeList(fat)| && FreeList(fat)[k] == e;
    if k > 0 {
      FreeFromAscends(fat, 2, 0, k);
    }
  }

  // ---- Identification ----

  /** FAT32 by the signature byte, unless a small volume has a FAT12/16 signature in the third byte
      of the 32-bit table size. */
  lemma Fat32Iff(v: FatVolume)
    requires v.boot.bytesPerSector > 0 && v.boot.sectorsPerCluster > 0
    ensures FatIdentify(v) == FAT_32 <==>
      && (v.boot.fat32Signature == 0x28 || v.boot.fat32Signature == 0x29)
      && !(FatClusterCount(v) < 65525
           && (v.boot.sectorsPerFat32 / 0x1_0000 % 0x100 == 0x28 || v.boot.sectorsPerFat32 / 0x1_0000 % 0x100 == 0x29))
  {
  }
}
