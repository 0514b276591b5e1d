/** Where a FAT32 volume keeps its tables and clusters: the geometry functions of
    src/modules/fat/main.c in 32-bit arithmetic, and the plain layout they stand for. */
module FatGeometry {
  import opened Arith
  import opened Bytes
  import FatChains
  import opened FatFiles

  /** The fields of the boot sector that the driver uses. */
  datatype BootSector = BootSector(
    bytesPerSector: word,
    sectorsPerCluster: byte,
    reservedSectors: word,
    fatCount: byte,
    rootDirectoryEntries: word,
    totalSectorsInVolume: word,
    sectorsPerFat16: word,
    extendedSectorCount: dword,
    sectorsPerFat32: dword,
    rootCluster: dword,
    fat32Signature: byte)

  datatype FatVolume = FatVolume(boot: BootSector, partitionLba: dword)

  datatype FatType = FAT_UNKNOWN | FAT_12 | FAT_16 | FAT_32

  const SIGN_A: byte := 0x28
  const SIGN_B: byte := 0x29

  function FatTotalSectors(v: FatVolume): dword {
    if v.boot.totalSectorsInVolume != 0 then v.boot.totalSectorsInVolume else v.boot.extendedSectorCount
  }

  function FatSize(v: FatVolume): dword {
    if v.boot.sectorsPerFat16 != 0 then v.boot.sectorsPerFat16 else v.boot.sectorsPerFat32
  }

  function FatRootDirSize(v: FatVolume): dword
    requires v.boot.bytesPerSector > 0
  {
    Quotient(v.boot.rootDirectoryEntries as int * 32 + (v.boot.bytesPerSector - 1), v.boot.bytesPerSector)
  }

  function FatFirstData(v: FatVolume): dword
    requires v.boot.bytesPerSector > 0
  {
    Wrap(v.boot.reservedSectors + Wrap(Times(v.boot.fatCount, FatSize(v))) + FatRootDirSize(v))
  }

  function FatFirstFat(v: FatVolume): dword {
    v.boot.reservedSectors
  }

  function FatDataCount(v: FatVolume): dword
    requires v.boot.bytesPerSector > 0
  {
    Wrap(FatTotalSectors(v) - Wrap(v.boot.reservedSectors + Wrap(Times(v.boot.fatCount, FatSize(v)))
        + FatRootDirSize(v)))
  }

  function FatClusterCount(v: FatVolume): dword
    requires v.boot.bytesPerSector > 0 && v.boot.sectorsPerCluster > 0
  {
    Quotient(FatDataCount(v), v.boot.sectorsPerCluster)
  }

  /** The FAT12/16 signature lies in the third byte of the FAT32 sector count. */
  function Fat16Signature(v: FatVolume): byte {
    v.boot.sectorsPerFat32 / 0x1_0000 % 0x100
  }

  function FatIdentify(v: FatVolume): FatType
    requires v.boot.bytesPerSector > 0 && v.boot.sectorsPerCluster > 0
  {
    var clusters := FatClusterCount(v);
    var signed16 := Fat16Signature(v) == SIGN_A || Fat16Signature(v) == SIGN_B;
    if clusters < 4085 && signed16 then FAT_12
    else if clusters < 65525 && signed16 then FAT_16
    else if v.boot.fat32Signature == SIGN_A || v.boot.fat32Signature == SIGN_B then FAT_32
    else FAT_UNKNOWN
  }

  function FatFirstSectorForCluster(v: FatVolume, cluster: dword): dword
    requires v.boot.bytesPerSector > 0
  {
    Wrap(Wrap(Times(Wrap(cluster - 2), v.boot.sectorsPerCluster)) + FatFirstData(v))
  }

  function FatSectorToOffset(v: FatVolume, sector: dword): dword {
    Wrap(Times(Wrap(v.partitionLba + sector), v.boot.bytesPerSector))
  }

  /** The sector, counted from the volume's first one, where the data clusters begin. */
  function DataStart(v: FatVolume): nat
    requires v.boot.bytesPerSector > 0
  {
    v.boot.reservedSectors + Times(v.boot.fatCount, FatSize(v)) + FatRootDirSize(v)
  }

  /** The copy that FatSetCluster writes one table further on lies before the data clusters
      exactly if the boot sector counts two tables or more. */
  lemma {:induction false} SecondCopyFitsIff(v: FatVolume)
    requires v.boot.bytesPerSector > 0 && v.boot.rootDirectoryEntries == 0 && FatSize(v) > 0
    ensures v.boot.reservedSectors + 2 * FatSize(v) <= DataStart(v) <==> v.boot.fatCount >= 2
  {
    TimesIs(v.boot.fatCount, FatSize(v));
    QuotientIs(v.boot.bytesPerSector - 1, v.boot.bytesPerSector);
    if v.boot.fatCount >= 2 {
      TimesMonotone(2, v.boot.fatCount, FatSize(v));
      TimesIs(2, FatSize(v));
    } else {
      TimesMonotone(v.boot.fatCount, 1, FatSize(v));
      TimesIs(1, FatSize(v));
    }
  }

  /** What the driver relies on, for a device of `len` bytes: a FAT32 volume with at least two
      table copies, each big enough, all of it on the device and below 4 GB. */
  ghost predicate ValidVolume(v: FatVolume, len: nat) {
    var bps, spc := v.boot.bytesPerSector, v.boot.sectorsPerCluster;
    && bps > 0 && bps % 32 == 0 && spc > 0
    && v.boot.fatCount >= 2
    && FatIdentify(v) == FAT_32
    && DataStart(v) <= FatTotalSectors(v)
    && Times(v.partitionLba + FatTotalSectors(v), bps) <= len
    && Times(v.partitionLba + FatTotalSectors(v), bps) <= WORD
    && 4 * (FatClusterCount(v) as int + 2) <= Times(FatSize(v), bps)
  }

  /** Byte positions: the first table copy and its length (the second follows it), the first data
      cluster, the number of table entries in use, and the sector and cluster sizes. */
  datatype Layout = Layout(fat: nat, fatBytes: nat, data: nat, n: nat, g: Geometry)
  {
    ghost predicate Valid(len: nat) {
      && g.Valid() && g.bps % 4 == 0
      && 2 <= n < FatChains.END_OF_CHAIN
      && fat + 2 * fatBytes <= data
      && 4 * n <= fatBytes
      && ClusterAt(n) <= len
      && ClusterAt(n) <= WORD
    }

    /** Where cluster c starts; clusters lie back to back from cluster 2 on. */
    function ClusterAt(c: nat): (at: nat)
      requires c >= 2
      ensures data <= at
    {
      data + Times(c - 2, g.cb)
    }

    /** The sector that holds entry c of the first table copy. */
    function EntrySectorAt(c: nat): (at: nat)
      requires g.bps > 0
      ensures fat <= at <= fat + 4 * c
    {
      fat + (4 * c - Remainder(4 * c, g.bps))
    }
  }

  function LayoutOf(v: FatVolume): Layout
    requires v.boot.bytesPerSector > 0 && v.boot.sectorsPerCluster > 0
  {
    var bps := v.boot.bytesPerSector;
    Layout(Times(v.partitionLba + v.boot.reservedSectors, bps),
           Times(FatSize(v), bps),
           Times(v.partitionLba + DataStart(v), bps),
           FatClusterCount(v) + 2,
           Geometry(bps, Times(v.boot.sectorsPerCluster, bps)))
  }

  /** The byte ranges of different clusters are disjoint. */
  lemma {:induction false} ClustersApart(l: Layout, c: nat, d: nat)
    requires 2 <= c < d
    ensures l.ClusterAt(c) + l.g.cb <= l.ClusterAt(d)
  {
    TimesMonotone(c - 1, d - 2, l.g.cb);
  }

  // ---- The 32-bit computations meet the layout ----

  lemma WrapSmall(x: nat)
    requires x < WORD
    ensures Wrap(x) == x
  {
  }

  lemma {:induction false} TimesIsWhole(spc: nat, bps: nat)
    requires bps > 0
    ensures WholeSectors(Times(spc, bps), bps)
    decreases spc
  {
    if spc > 0 {
      TimesIsWhole(spc - 1, bps);
    }
  }

  /** On a valid volume the 32-bit sums of the geometry do not wrap, and sectors are few. */
  lemma {:induction false} NoWrap(v: FatVolume, len: nat)
    requires ValidVolume(v, len)
    ensures FatFirstData(v) == DataStart(v)
    ensures FatDataCount(v) == FatTotalSectors(v) - DataStart(v)
    ensures DataStart(v) + Times(FatClusterCount(v), v.boot.sectorsPerCluster) <= FatTotalSectors(v)
    ensures 32 * (v.partitionLba + FatTotalSectors(v)) <= WORD
  {
    WrapSmall(Times(v.boot.fatCount, FatSize(v)));
    WrapSmall(DataStart(v));
    WrapSmall(FatTotalSectors(v) - DataStart(v));
    DivideDown(FatDataCount(v), v.boot.sectorsPerCluster);
    FewSectors(v.partitionLba + FatTotalSectors(v), v.boot.bytesPerSector);
  }

  lemma FewSectors(sectors: nat, bps: nat)
    requires bps >= 32
    ensures 32 * sectors <= Times(sectors, bps)
  {
    TimesCommutes(sectors, bps);
    TimesMonotone(32, bps, sectors);
    TimesIs(32, sectors);
  }

  lemma {:induction false} LayoutValid(v: FatVolume, len: nat)
    requires ValidVolume(v, len)
    ensures LayoutOf(v).Valid(len)
  {
    hide Times, Quotient, FatSize, FatTotalSectors, FatRootDirSize, FatFirstData, FatDataCount, FatIdentify,
         DataStart, FatClusterCount, WholeSectors;
    var bps, spc := v.boot.bytesPerSector, v.boot.sectorsPerCluster;
    NoWrap(v, len);
    TimesIsWhole(spc, bps);
    ClusterBytesAre(spc, bps);
    FewClusters(FatClusterCount(v), spc, FatTotalSectors(v));
    TablesFit(v);
    ClustersFit(v.partitionLba, DataStart(v), FatClusterCount(v), spc, bps, FatTotalSectors(v));
  }

  lemma FewClusters(clusters: nat, spc: nat, total: nat)
    requires spc > 0 && Times(clusters, spc) <= total
    ensures clusters <= total
  {
    TimesCommutes(clusters, spc);
    TimesMonotone(1, spc, clusters);
    TimesIs(1, clusters);
  }

  lemma ClusterBytesAre(spc: nat, bps: nat)
    requires spc > 0 && bps > 0 && bps % 32 == 0
    ensures Times(spc, bps) >= bps && Times(spc, bps) % 32 == 0 && bps % 4 == 0
  {
    TimesMultiple(spc, bps);
    TimesMonotone(1, spc, bps);
    TimesIs(1, bps);
  }

  lemma ClustersFit(p: nat, first: nat, clusters: nat, spc: nat, bps: nat, total: nat)
    requires first + Times(clusters, spc) <= total
    ensures Times(p + first, bps) + Times(clusters, Times(spc, bps)) <= Times(p + total, bps)
  {
    TimesAssoc(clusters, spc, bps);
    TimesAdd(p + first, Times(clusters, spc), bps);
    TimesMonotone(p + first + Times(clusters, spc), p + total, bps);
  }

  lemma TablesFit(v: FatVolume)
    requires v.boot.fatCount >= 2 && v.boot.bytesPerSector > 0 && v.boot.sectorsPerCluster > 0
    ensures LayoutOf(v).fat + 2 * LayoutOf(v).fatBytes <= LayoutOf(v).data
    ensures v.boot.reservedSectors + 2 * FatSize(v) <= DataStart(v)
  {
    var bps, base := v.boot.bytesPerSector, v.partitionLba + v.boot.reservedSectors;
    TimesMonotone(2, v.boot.fatCount, FatSize(v));
    TimesIs(2, FatSize(v));
    TimesAdd(base, FatSize(v), bps);
    TimesAdd(base + FatSize(v), FatSize(v), bps);
    TimesMonotone(base + FatSize(v) + FatSize(v), v.partitionLba + DataStart(v), bps);
  }

  lemma OffsetOf(v: FatVolume, sector: nat, k: nat, at: nat)
    requires k == v.partitionLba + sector < WORD && Times(k, v.boot.bytesPerSector) == at < WORD
    ensures sector < WORD && Wrap(sector) == sector && FatSectorToOffset(v, Wrap(sector)) == at
  {
  }

  /** The sector of table entry c as the driver computes it. */
  function EntrySector(v: FatVolume, c: dword): dword
    requires v.boot.bytesPerSector > 0
  {
    Wrap(FatFirstFat(v) + Quotient(Wrap(c * 4), v.boot.bytesPerSector))
  }

  /** It is the sector with entry c in the first table copy; FatSize sectors on lies the same
      sector of the second copy. */
  lemma {:induction false} FatEntryOffset(v: FatVolume, len: nat, c: nat)
    requires ValidVolume(v, len) && c < LayoutOf(v).n
    ensures var l := LayoutOf(v);
      && l.Valid(len) && 4 * c < WORD
      && l.EntrySectorAt(c) + l.g.bps <= l.fat + l.fatBytes
      && FatSectorToOffset(v, EntrySector(v, c)) == l.EntrySectorAt(c)
      && FatSectorToOffset(v, Wrap(EntrySector(v, c) + FatSize(v))) == l.EntrySectorAt(c) + l.fatBytes
  {
    NoWrap(v, len);
    LayoutValid(v, len);
    TablesFit(v);
    var total := v.partitionLba + FatTotalSectors(v);
    EntryInTable(v, LayoutOf(v), total, c);
    EntryFirstCopy(v, LayoutOf(v), total, c);
    EntrySecondCopy(v, LayoutOf(v), total, c);
  }

  ghost predicate TableNumbers(v: FatVolume, l: Layout, total: nat, c: nat) {
    var bps := v.boot.bytesPerSector;
    && bps > 0 && l.g.bps == bps
    && l.fat == Times(v.partitionLba + v.boot.reservedSectors, bps)
    && l.fatBytes == Times(FatSize(v), bps) && 4 * c < l.fatBytes
    && v.partitionLba + v.boot.reservedSectors + 2 * FatSize(v) <= total < WORD
    && Times(total, bps) <= WORD
  }

  lemma EntryInTable(v: FatVolume, l: Layout, total: nat, c: nat)
    requires TableNumbers(v, l, total, c)
    ensures 4 * c < WORD && l.EntrySectorAt(c) + l.g.bps <= l.fat + l.fatBytes
    ensures EntrySector(v, c) == v.boot.reservedSectors as int + Quotient(4 * c, v.boot.bytesPerSector)
  {
    SectorNumbers(v.partitionLba, v.boot.reservedSectors, 4 * c, v.boot.bytesPerSector, FatSize(v), total);
    WrapSmall(4 * c);
    WrapSmall(v.boot.reservedSectors as int + Quotient(4 * c, v.boot.bytesPerSector));
  }

  lemma EntryFirstCopy(v: FatVolume, l: Layout, total: nat, c: nat)
    requires TableNumbers(v, l, total, c) && c < WORD
    ensures FatSectorToOffset(v, EntrySector(v, c)) == l.EntrySectorAt(c)
  {
    var p, r, q := v.partitionLba as int, v.boot.reservedSectors as int, Quotient(4 * c, v.boot.bytesPerSector);
    EntryInTable(v, l, total, c);
    SectorNumbers(p, r, 4 * c, v.boot.bytesPerSector, FatSize(v), total);
    OffsetOf(v, r + q, p + (r + q), l.EntrySectorAt(c));
  }

  lemma EntrySecondCopy(v: FatVolume, l: Layout, total: nat, c: nat)
    requires TableNumbers(v, l, total, c) && c < WORD
    ensures FatSectorToOffset(v, Wrap(EntrySector(v, c) + FatSize(v))) == l.EntrySectorAt(c) + l.fatBytes
  {
    var p, r, q, size := v.partitionLba as int, v.boot.reservedSectors as int,
        Quotient(4 * c, v.boot.bytesPerSector), FatSize(v) as int;
    EntryInTable(v, l, total, c);
    SectorNumbers(p, r, 4 * c, v.boot.bytesPerSector, size, total);
    OffsetOf(v, r + q + size, p + (r + q + size), l.EntrySectorAt(c) + l.fatBytes);
  }

  lemma SectorNumbers(p: nat, r: nat, at: nat, bps: nat, size: nat, total: nat)
    requires bps > 0 && at < Times(size, bps)
    requires p + r + 2 * size <= total && Times(total, bps) <= WORD
    ensures var q := Quotient(at, bps);
      && q < size && at < WORD
      && Times(p + (r + q), bps) == Times(p + r, bps) + (at - Remainder(at, bps)) < WORD
      && Times(p + (r + q + size), bps) == Times(p + r, bps) + (at - Remainder(at, bps)) + Times(size, bps) < WORD
      && at - Remainder(at, bps) + bps <= Times(size, bps)
  {
    var q := Quotient(at, bps);
    DivideDown(at, bps);
    if q >= size {
      TimesMonotone(size, q, bps);
    }
    TimesMonotone(q + 1, size, bps);
    TimesAdd(p + r, q, bps);
    TimesAdd(p + r + q, size, bps);
    assert p + r + q == p + (r + q) && p + r + q + size == p + (r + q + size);
    TimesMonotone(p + r + q + size + 1, total, bps);
  }

  /** Sector s of cluster c as the driver computes it. */
  function ClusterSector(v: FatVolume, c: dword, s: nat): dword
    requires v.boot.bytesPerSector > 0
  {
    Wrap(FatFirstSectorForCluster(v, c) + s)
  }

  lemma {:induction false} ClusterOffset(v: FatVolume, len: nat, c: nat, s: nat)
    requires ValidVolume(v, len) && 2 <= c < LayoutOf(v).n && s < v.boot.sectorsPerCluster
    ensures var l := LayoutOf(v);
      && l.Valid(len) && c < WORD
      && FatSectorToOffset(v, ClusterSector(v, c, s)) == l.ClusterAt(c) + Times(s, l.g.bps)
      && Times(s, l.g.bps) + l.g.bps <= l.g.cb
  {
    NoWrap(v, len);
    LayoutValid(v, len);
    ClusterOffsets(v, LayoutOf(v), v.partitionLba + FatTotalSectors(v), c, s);
  }

  ghost predicate ClusterNumbers(v: FatVolume, l: Layout, total: nat, c: nat, s: nat) {
    var bps, spc := v.boot.bytesPerSector, v.boot.sectorsPerCluster;
    && bps > 0 && l.g == Geometry(bps, Times(spc, bps)) && s < spc && 2 <= c < l.n < WORD
    && l.data == Times(v.partitionLba + FatFirstData(v), bps)
    && v.partitionLba + FatFirstData(v) + Times(l.n - 2, spc) <= total < WORD
    && Times(total, bps) <= WORD
  }

  lemma ClusterSectorIs(v: FatVolume, l: Layout, total: nat, c: nat, s: nat)
    requires ClusterNumbers(v, l, total, c, s)
    ensures ClusterSector(v, c, s) == FatFirstData(v) + Times(c - 2, v.boot.sectorsPerCluster) + s
    ensures v.partitionLba + ClusterSector(v, c, s) < total
  {
    TimesMonotone(c - 1, l.n - 2, v.boot.sectorsPerCluster);
    var k, first := Times(c - 2, v.boot.sectorsPerCluster), FatFirstData(v) as int;
    WrapSmall(c - 2);
    WrapSmall(k);
    WrapSmall(k + first);
    WrapSmall(k + first + s);
  }

  lemma ClusterBytesAt(p: nat, first: nat, k: nat, s: nat, spc: nat, bps: nat, total: nat)
    requires s < spc && p + first + Times(k + 1, spc) <= total && Times(total, bps) <= WORD && bps > 0
    ensures Times(p + (first + Times(k, spc) + s), bps) ==
            Times(p + first, bps) + Times(k, Times(spc, bps)) + Times(s, bps) < WORD
    ensures Times(s, bps) + bps <= Times(spc, bps)
  {
    TimesAssoc(k, spc, bps);
    TimesAdd(p + first, Times(k, spc), bps);
    TimesAdd(p + first + Times(k, spc), s, bps);
    assert p + first + Times(k, spc) + s == p + (first + Times(k, spc) + s);
    TimesMonotone(p + (first + Times(k, spc) + s) + 1, total, bps);
    TimesMonotone(s + 1, spc, bps);
  }

  lemma ClusterSectorBytes(v: FatVolume, l: Layout, total: nat, c: nat, s: nat)
    requires ClusterNumbers(v, l, total, c, s)
    ensures var sector := FatFirstData(v) + Times(c - 2, v.boot.sectorsPerCluster) + s;
      && v.partitionLba + sector < total
      && Times(v.partitionLba + sector, l.g.bps) == l.ClusterAt(c) + Times(s, l.g.bps) < WORD
    ensures Times(s, l.g.bps) + l.g.bps <= l.g.cb
  {
    TimesMonotone(c - 1, l.n - 2, v.boot.sectorsPerCluster);
    ClusterBytesAt(v.partitionLba, FatFirstData(v), c - 2, s, v.boot.sectorsPerCluster, v.boot.bytesPerSector, total);
  }

  lemma {:induction false} ClusterOffsets(v: FatVolume, l: Layout, total: nat, c: nat, s: nat)
    requires ClusterNumbers(v, l, total, c, s)
    ensures FatSectorToOffset(v, ClusterSector(v, c, s)) == l.ClusterAt(c) + Times(s, l.g.bps)
    ensures Times(s, l.g.bps) + l.g.bps <= l.g.cb
  {
    hide Times, FatFirstData, FatFirstSectorForCluster, FatSectorToOffset, ClusterSector;
    var sector := FatFirstData(v) + Times(c - 2, v.boot.sectorsPerCluster) + s;
    ClusterSectorIs(v, l, total, c, s);
    ClusterSectorBytes(v, l, total, c, s);
    OffsetOf(v, sector, v.partitionLba + sector, l.ClusterAt(c) + Times(s, l.g.bps));
  }
}
