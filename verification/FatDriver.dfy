/** The FAT32 driver of src/modules/fat/main.c over the IDE byte device: every function is proved
    against the abstract file system of FatChains and FatFiles. */
module FatDriver {
  import opened Arith
  import opened Bytes
  import opened FatChains
  import opened FatDirectory
  import opened FatDisk
  import opened FatFiles
  import opened FatGeometry
  import opened FatOnDisk
  import FatPack
  import opened FatPacked
  import opened FatSearch
  import opened Ide

  class Driver {
    const drive: IdeDrive
    const vol: FatVolume

    constructor (drive: IdeDrive, vol: FatVolume)
      ensures this.drive == drive && this.vol == vol
    {
      this.drive, this.vol := drive, vol;
    }

    ghost predicate Valid() {
      drive.Valid() && ValidVolume(vol, drive.media.Length)
    }

    ghost function Lay(): (l: Layout)
      requires Valid()
      ensures drive.Valid() && ValidVolume(vol, drive.media.Length)
      ensures l == LayoutOf(vol) && l.Valid(drive.media.Length)
      ensures l.g.bps == vol.boot.bytesPerSector > 0 && vol.boot.sectorsPerCluster > 0
      ensures l.g.cb == Times(vol.boot.sectorsPerCluster, vol.boot.bytesPerSector)
      ensures l.n == FatClusterCount(vol) + 2
    {
      LayoutValid(vol, drive.media.Length);
      LayoutOf(vol)
    }

    /** The file system on the disk. */
    ghost function Files(): (fs: Fs)
      requires Valid()
      reads drive.media
      ensures fs == Abs(Lay(), drive.Disk())
      ensures WellFormed(fs, Lay().g.cb) && |fs.fat| == Lay().n
    {
      AbsWellFormed(Lay(), drive.media[..]);
      Abs(Lay(), drive.media[..])
    }

    // ---- Device access ----

    method ReadFrom(offset: dword, buf: array<byte>, bytes: dword)
      requires drive.Valid() && buf != drive.media && buf.Length == bytes
      modifies drive`fileOffset, buf
      ensures buf[..] == FlatRead(drive.Disk(), offset, bytes)
    {
      drive.fileOffset := offset;
      var r := drive.IDEReadFunction(buf, bytes, 1);
      assert Wrap(bytes * 1) == bytes;
    }

    method WriteTo(offset: dword, buf: array<byte>, bytes: dword)
      requires drive.Valid() && buf != drive.media && buf.Length == bytes
      modifies drive`fileOffset, drive.media
      ensures drive.Disk() == FlatWrite(old(drive.Disk()), offset, buf[..])
    {
      drive.fileOffset := offset;
      var r := drive.IDEWriteFunction(buf, bytes, 1);
      assert Wrap(bytes * 1) == bytes && buf[..bytes] == buf[..];
    }

    /** Reads the sector of table entry `cluster`. */
    method ReadEntrySector(cluster: dword) returns (sector: array<byte>)
      requires Valid() && cluster < Lay().n
      modifies drive`fileOffset
      ensures fresh(sector) && sector.Length == vol.boot.bytesPerSector == Lay().g.bps
      ensures EntryFits(Lay(), cluster)
      ensures sector[..] == drive.Disk()[Lay().EntrySectorAt(cluster)..Lay().EntrySectorAt(cluster) + Lay().g.bps]
    {
      sector := new byte[vol.boot.bytesPerSector](_ => 0);
      FatEntryOffset(vol, drive.media.Length, cluster);
      EntryInSector(Lay(), cluster);
      ReadFrom(FatSectorToOffset(vol, EntrySector(vol, cluster)), sector, vol.boot.bytesPerSector);
      FlatReadInside(drive.Disk(), Lay().EntrySectorAt(cluster), vol.boot.bytesPerSector);
    }

    /** Reads sector s of a cluster. */
    method ReadClusterSector(cluster: dword, s: nat, sector: array<byte>)
      requires Valid() && 2 <= cluster < Lay().n && s < vol.boot.sectorsPerCluster
      requires sector != drive.media && sector.Length == vol.boot.bytesPerSector
      modifies drive`fileOffset, sector
      ensures Times(s, Lay().g.bps) + Lay().g.bps <= Lay().g.cb
      ensures sector[..] == Files().data[cluster][Times(s, Lay().g.bps)..Times(s, Lay().g.bps) + Lay().g.bps]
    {
      hide FatClusterCount, Driver.Valid, Times;
      ClusterOffset(vol, drive.media.Length, cluster, s);
      ClusterRange(Lay(), drive.media.Length, cluster);
      ghost var at, off := Lay().ClusterAt(cluster), Times(s, Lay().g.bps);
      AbsAt(Lay(), drive.Disk(), cluster);
      ReadFrom(FatSectorToOffset(vol, ClusterSector(vol, cluster, s)), sector, vol.boot.bytesPerSector);
      FlatReadInside(drive.Disk(), at + off, vol.boot.bytesPerSector);
      SliceOfSlice(drive.Disk(), at, at + Lay().g.cb, off, off + Lay().g.bps);
    }

    /** Writes sector s of a cluster. */
    method WriteClusterSector(cluster: dword, s: nat, sector: array<byte>)
      requires Valid() && 2 <= cluster < Lay().n && s < vol.boot.sectorsPerCluster
      requires sector != drive.media && sector.Length == vol.boot.bytesPerSector
      modifies drive`fileOffset, drive.media
      ensures Times(s, Lay().g.bps) + Lay().g.bps <= Lay().g.cb
      ensures Files() == PutAt(old(Files()), cluster, Times(s, Lay().g.bps), sector[..])
      ensures Kept(Lay(), old(drive.Disk()), drive.Disk())
    {
      hide LayoutOf, ValidVolume, Abs, Kept, Driver.Valid, WellFormed, FatClusterCount;
      ClusterOffset(vol, drive.media.Length, cluster, s);
      ghost var m, at, off := drive.Disk(), Lay().ClusterAt(cluster), Times(s, Lay().g.bps);
      ClusterWriteAbs(Lay(), m, cluster, off, sector[..]);
      ClusterWriteKeeps(Lay(), m, cluster, off, sector[..]);
      ClusterRange(Lay(), drive.media.Length, cluster);
      WriteTo(FatSectorToOffset(vol, ClusterSector(vol, cluster, s)), sector, vol.boot.bytesPerSector);
      FlatWriteInside(m, at + off, sector[..]);
    }

    // ---- The table ----

    method FatNextCluster32(cluster: dword) returns (next: dword)
      requires Valid() && cluster < Lay().n
      modifies drive`fileOffset
      ensures next == Files().fat[cluster]
    {
      hide LayoutOf, ValidVolume, Abs, Kept, Driver.Valid, WellFormed, FatClusterCount, FatSectorToOffset,
           EntrySector, EntryFits, Remainder, Quotient, LE32, Layout.Valid, Layout.EntrySectorAt;
      FatEntryOffset(vol, drive.media.Length, cluster);
      var sector := ReadEntrySector(cluster);
      var off := Remainder(Wrap(cluster * 4), vol.boot.bytesPerSector);
      EntryInSectorBytes(Lay(), drive.Disk(), cluster, sector[..]);
      next := LE32(sector[off..off + 4]) % NIBBLE;
    }

    method FatNextCluster(cluster: dword) returns (next: dword)
      requires Valid() && cluster < Lay().n
      modifies drive`fileOffset
      ensures next == Files().fat[cluster] == TableEntry(vol, drive.Disk(), cluster)
    {
      hide Driver.Valid, Abs, WellFormed, TableEntry;
      ghost var n := Lay().n;
      TableIs(vol, drive.Disk(), cluster);
      next := 0xFFFF_FFFF;
      if FatIdentify(vol) == FAT_32 {
        next := FatNextCluster32(cluster);
      }
    }

    /** The lowest free cluster, or 0. */
    method FatFindFreeCluster() returns (c: dword)
      requires Valid()
      modifies drive`fileOffset
      ensures c == FirstFree(Files().fat) && LowestFree(vol, drive.Disk(), c)
    {
      hide Driver.Valid, Abs, WellFormed, LowestFree;
      ghost var n := Lay().n;
      FirstFreeIsLowest(vol, drive.Disk());
      var total: int := FatClusterCount(vol);
      var i := 2;
      while i < total + 2
        invariant 2 <= i <= total + 2 && FreeList(Files().fat) == FreeFrom(Files().fat, i)
      {
        var entry := FatNextCluster32(i);
        if entry == 0 {
          return i;
        }
        i := i + 1;
      }
      c := 0;
    }

    /** One entry of the table is updated, in both copies. */
    method FatSetCluster(cluster: dword, value: dword)
      requires Valid() && cluster < Lay().n
      modifies drive`fileOffset, drive.media
      ensures Files() == Fs(old(Files()).fat[cluster := value % NIBBLE], old(Files()).data)
      ensures Kept(Lay(), old(drive.Disk()), drive.Disk())
    {
      hide FatSectorToOffset, EntrySector, NewSector, WriteBoth, Remainder, Quotient, FatClusterCount;
      ghost var l, m := Lay(), drive.Disk();
      var sector := ReadEntrySector(cluster);
      FatEntryOffset(vol, drive.media.Length, cluster);
      EntryInSector(l, cluster);
      PatchEntry(sector, Remainder(Wrap(cluster * 4), vol.boot.bytesPerSector), value);
      assert drive.Disk() == m;
      WriteEntrySector(cluster, sector);
      SetEntryDone(l, m, cluster, value, sector[..]);
    }

    /** Writes the sector of table entry `cluster` into both copies. */
    method WriteEntrySector(cluster: dword, sector: array<byte>)
      requires Valid() && cluster < Lay().n && EntryFits(Lay(), cluster)
      requires sector != drive.media && sector.Length == vol.boot.bytesPerSector
      modifies drive`fileOffset, drive.media
      ensures drive.Disk() == WriteBoth(old(drive.Disk()), Lay().EntrySectorAt(cluster), Lay().fatBytes, sector[..])
    {
      hide LayoutOf, ValidVolume, Abs, Kept, Driver.Valid, WellFormed, FatClusterCount, EntryFits, Splice,
           Remainder;
      ghost var m, first, second :=
          drive.Disk(), Lay().EntrySectorAt(cluster), Lay().EntrySectorAt(cluster) + Lay().fatBytes;
      FatEntryOffset(vol, drive.media.Length, cluster);
      var at := EntrySector(vol, cluster);
      WriteTo(FatSectorToOffset(vol, at), sector, vol.boot.bytesPerSector);
      FlatWriteInside(m, first, sector[..]);
      ghost var half := drive.Disk();
      WriteTo(FatSectorToOffset(vol, Wrap(at + FatSize(vol))), sector, vol.boot.bytesPerSector);
      FlatWriteInside(half, second, sector[..]);
    }

    /** Stores the low 28 bits of `value` over those of the dword at `off`. */
    method PatchEntry(sector: array<byte>, off: nat, value: dword)
      requires off + 4 <= sector.Length
      modifies sector
      ensures sector[..] == NewSector(old(sector[..]), off, value)
    {
      var four := NewEntry(sector[off..off + 4], value);
      forall k | 0 <= k < 4 {
        sector[off + k] := four[k];
      }
    }

    /** Takes the lowest free cluster as the end of a chain; returns 0 when there is none. */
    method FatAllocateCluster() returns (c: dword)
      requires Valid()
      modifies drive`fileOffset, drive.media
      ensures c == FirstFree(old(Files()).fat)
      ensures Files() == if c == 0 then old(Files()) else Fs(old(Files()).fat[c := END_OF_CHAIN], old(Files()).data)
      ensures Kept(Lay(), old(drive.Disk()), drive.Disk())
    {
      KeptSelf(Lay(), drive.Disk());
      c := FatFindFreeCluster();
      if c == 0 {
        return;
      }
      FatSetCluster(c, 0x0FFF_FFF8);
    }

    // ---- Writing a file ----

    /** Writes data[p..p + bytesPerSector] into sector s of a cluster. */
    method WriteDataSector(cluster: dword, s: nat, data: array<byte>, p: nat)
      requires Valid() && 2 <= cluster < Lay().n && s < vol.boot.sectorsPerCluster
      requires data != drive.media && p + Lay().g.bps <= data.Length
      modifies drive`fileOffset, drive.media
      ensures Times(s, Lay().g.bps) + Lay().g.bps <= Lay().g.cb
      ensures Files() == PutAt(old(Files()), cluster, Times(s, Lay().g.bps), data[p..p + Lay().g.bps])
      ensures Kept(Lay(), old(drive.Disk()), drive.Disk())
    {
      hide Abs, Kept, Driver.Valid, WellFormed;
      var bps := vol.boot.bytesPerSector;
      assert Lay().g.bps == bps;
      var sector := new byte[bps](k requires 0 <= k < bps && p + bps <= data.Length reads data => data[p + k]);
      assert sector[..] == data[p..p + bps];
      WriteClusterSector(cluster, s, sector);
    }

    /** Fills a cluster with the sectors of data[ptr..ptr + writeSize]; the last one is written
        whole, with what follows in the buffer. */
    method FatFillCluster(cluster: dword, data: array<byte>, ptr: nat, writeSize: nat)
      requires Valid() && 2 <= cluster < Lay().n && data != drive.media
      requires writeSize <= Lay().g.cb && ptr + RoundUp(writeSize, Lay().g.bps) <= data.Length
      modifies drive`fileOffset, drive.media
      ensures RoundUp(writeSize, Lay().g.bps) <= Lay().g.cb
      ensures Files() == PutAt(old(Files()), cluster, 0, data[ptr..ptr + RoundUp(writeSize, Lay().g.bps)])
      ensures Kept(Lay(), old(drive.Disk()), drive.Disk())
    {
      hide LayoutOf, ValidVolume, Abs, Kept, Driver.Valid, WellFormed, FatClusterCount, Times, PutAt,
           WholeSectors, RoundUp, Splice;
      var bps, spc := vol.boot.bytesPerSector, vol.boot.sectorsPerCluster;
      ghost var l, m, was, full := Lay(), drive.Disk(), Files(), RoundUp(writeSize, bps);
      var i, left, p := 0, writeSize, ptr;
      ghost var w := 0;
      DataLength(was, l.g.cb, cluster);
      RoundUpCluster(writeSize, bps, l.g.cb);
      KeptSelf(l, m);
      PutNothing(was, cluster, data[ptr..ptr]);
      FillStart(bps);
      while i < spc && left > 0
        invariant 0 <= i <= spc && 0 <= left <= writeSize
        invariant w == Times(i, bps) && w + RoundUp(left, bps) == full
        invariant left > 0 ==> p == ptr + w
        invariant Files() == PutAt(was, cluster, 0, data[ptr..ptr + w])
        invariant Kept(l, m, drive.Disk())
      {
        var sectorSize := if left < bps then left else bps;
        FillStep(left, i, bps);
        ghost var half, a, b := drive.Disk(), data[ptr..ptr + w], data[p..p + bps];
        WriteDataSector(cluster, i, data, p);
        KeptTrans(l, m, half, drive.Disk());
        PutNext(was, cluster, a, b);
        assert a + b == data[ptr..ptr + (w + bps)];
        p, left, i, w := p + sectorSize, left - sectorSize, i + 1, w + bps;
      }
    }

    /** One round of FatWriteData: allocate, hang behind `prev`, fill. */
    method FatAppendCluster(prev: dword, data: array<byte>, ptr: nat, n: nat) returns (c: dword)
      requires Valid() && data != drive.media && prev < Lay().n
      requires n <= Lay().g.cb && ptr + RoundUp(n, Lay().g.bps) <= data.Length
      modifies drive`fileOffset, drive.media
      ensures c == FirstFree(old(Files()).fat)
      ensures RoundUp(n, Lay().g.bps) <= Lay().g.cb
      ensures Files() == if c == 0 then old(Files())
                         else PutAt(Fs(Link(old(Files()).fat, prev, c), old(Files()).data), c, 0,
                             data[ptr..ptr + RoundUp(n, Lay().g.bps)])
      ensures Kept(Lay(), old(drive.Disk()), drive.Disk())
    {
      ghost var l, m, fs := Lay(), drive.Disk(), Files();
      RoundUpCluster(n, l.g.bps, l.g.cb);
      DataLengths(fs, l.g.cb);
      c := FatAllocateCluster();
      if c == 0 {
        return;
      }
      ghost var half := drive.Disk();
      LinkSteps(fs.fat, prev, c);
      if prev != 0 {
        FatSetCluster(prev, c);
        KeptTrans(l, m, half, drive.Disk());
      }
      half := drive.Disk();
      FatFillCluster(c, data, ptr, n);
      KeptTrans(l, m, half, drive.Disk());
    }

    /** One round of FatWriteData's loop: a cluster appended to the chain and filled, and how many
        bytes it took. */
    method WriteRound(data: array<byte>, ptr: nat, remaining: nat, prev: nat, ghost st: Stored,
                      ghost sofar: seq<nat>, ghost m: seq<byte>)
      returns (c: dword, n: nat)
      requires Valid() && data != drive.media && 0 < remaining < WORD && prev < Lay().n && |m| == drive.media.Length
      requires ptr <= data.Length && OnCourse(st, sofar, Files(), Lay().g, data[..][ptr..], remaining, prev)
      requires Kept(Lay(), m, drive.Disk())
      modifies drive`fileOffset, drive.media
      ensures Kept(Lay(), m, drive.Disk())
      ensures c == 0 ==> st == Stored(Files(), sofar, false)
      ensures c != 0 ==>
        && c < Lay().n && 0 < n <= remaining && ptr + n <= data.Length
        && OnCourse(st, sofar + [c], Files(), Lay().g, data[..][ptr + n..], remaining - n, c)
    {
      hide LayoutOf, ValidVolume, Abs, Kept, Driver.Valid, WellFormed, FatClusterCount, Pieces, Link, RoundUp,
           Times;
      ghost var fs, bytes, half := Files(), data[..][ptr..], drive.Disk();
      var cb := Times(vol.boot.sectorsPerCluster, vol.boot.bytesPerSector);
      n := if remaining < cb then remaining else cb;
      PiecesStep(bytes, remaining, Lay().g);
      c := FatAppendCluster(prev, data, ptr, n);
      StoreGoesOn(st, sofar, fs, Lay().g, bytes, remaining, prev, c);
      KeptTrans(Lay(), m, half, drive.Disk());
      assert bytes[..RoundUp(n, Lay().g.bps)] == data[ptr..ptr + RoundUp(n, Lay().g.bps)];
      assert bytes[n..] == data[..][ptr + n..];
    }

    /** Stores the first `size` bytes of the buffer in a new chain; returns its first cluster, or
        0 when the size is 0 or the clusters run out. */
    method FatWriteData(data: array<byte>, size: dword) returns (first: dword)
      requires Valid() && data != drive.media && RoundUp(size, Lay().g.bps) <= data.Length
      modifies drive`fileOffset, drive.media
      ensures var st := Store(old(Files()), Pieces(data[..], size, Lay().g), 0);
        Files() == st.fs && first == if st.ok && st.chain != [] then st.chain[0] else 0
      ensures Kept(Lay(), old(drive.Disk()), drive.Disk())
    {
      hide Abs, Kept, Driver.Valid, WellFormed, OnCourse;
      ghost var l, m, st := Lay(), drive.Disk(), Store(Files(), Pieces(data[..], size, Lay().g), 0);
      ghost var sofar: seq<nat> := [];
      first := 0;
      var prev: nat, remaining: nat, ptr: nat := 0, size, 0;
      KeptSelf(l, m);
      assert data[..][0..] == data[..];
      StoreStarts(Files(), l.g, data[..], size);
      while remaining > 0
        invariant ptr + remaining == size && prev < l.n
        invariant (first == 0 <==> sofar == []) && (sofar != [] ==> first == sofar[0])
        invariant ptr <= data.Length && OnCourse(st, sofar, Files(), l.g, data[..][ptr..], remaining, prev)
        invariant Kept(l, m, drive.Disk())
        modifies drive`fileOffset, drive.media
      {
        var c, n := WriteRound(data, ptr, remaining, prev, st, sofar, m);
        if c == 0 {
          return 0;
        }
        if first == 0 {
          first := c;
        }
        sofar := sofar + [c];
        prev, ptr, remaining := c, ptr + n, remaining - n;
      }
      StoreEnds(st, sofar, Files(), l.g, data[..][ptr..], prev);
    }

    // ---- Directories ----

    /** Searches one cluster for a free slot, sector by sector. */
    method FatScanFree(cluster: dword) returns (found: bool, s: nat, i: nat)
      requires Valid() && 2 <= cluster < Lay().n
      modifies drive`fileOffset
      ensures found == FindFree(Files().data[cluster], 0).Hit?
      ensures found ==> s < vol.boot.sectorsPerCluster && SLOT * i + SLOT <= Lay().g.bps
                        && SLOT * FindFree(Files().data[cluster], 0).index == Times(s, Lay().g.bps) + SLOT * i
    {
      hide LayoutOf, ValidVolume, Abs, Kept, Driver.Valid, WellFormed, FatClusterCount, Times, WholeSectors,
           FindFree;
      var bps, spc := vol.boot.bytesPerSector, vol.boot.sectorsPerCluster;
      ghost var l, dir := Lay(), Files().data[cluster];
      DataLengths(Files(), l.g.cb);
      s, i, found := 0, 0, false;
      ghost var j: nat := 0;
      FillStart(bps);
      while s < spc
        invariant s <= spc && SLOT * j == Times(s, bps)
        invariant FindFree(dir, 0) == FindFree(dir, j)
      {
        var sector := new byte[bps](_ => 0);
        ReadClusterSector(cluster, s, sector);
        ghost var bytes := sector[..];
        i := 0;
        while SLOT * i + SLOT <= bps
          invariant sector[..] == bytes
          invariant SLOT * i <= bps && SLOT * j == Times(s, bps) + SLOT * i
          invariant FindFree(dir, 0) == FindFree(dir, j)
        {
          SlotInSector(dir, bytes, Times(s, bps), i, j);
          FindFreeStep(dir, j);
          if sector[SLOT * i] == 0 || sector[SLOT * i] == UNUSED {
            found := true;
            return;
          }
          i, j := i + 1, j + 1;
        }
        TimesStep(s, bps);
        s := s + 1;
      }
      FindFreeStep(dir, j);
    }

    /** The first free slot of a directory, packed with its cluster and sector; 0 if there is none. */
    method FatFindFreeEntry(dirCluster: dword, ghost dir: seq<nat>)
      returns (location: dword, ghost c: nat, ghost s: nat, ghost i: nat)
      requires Valid() && Chain(Files().fat, dir) && dir[0] == dirCluster
      modifies drive`fileOffset
      ensures match FreeSpot(Files(), dir)
        case At(cluster, off) => c == cluster && off == Times(s, Lay().g.bps) + SLOT * i
            && location == FatPack.Pack(c, s, i)
                                 && s < vol.boot.sectorsPerCluster && SLOT * i + SLOT <= Lay().g.bps
        case Nowhere => location == 0
    {
      var cluster := dirCluster;
      ghost var q := 0;
      c, s, i := 0, 0, 0;
      ChainWithin(Files().fat, dir);
      assert dir[0..] == dir;
      while cluster < 0x0FFF_FFF8
        invariant 0 <= q <= |dir|
        invariant if q < |dir| then cluster == dir[q] else cluster >= END_OF_CHAIN
        invariant FreeSpot(Files(), dir) == FreeSpot(Files(), dir[q..])
        decreases |dir| - q
      {
        ChainStep(Files().fat, dir, q);
        FreeSpotStep(Files(), dir[q..]);
        var found, s', i' := FatScanFree(cluster);
        if found {
          c, s, i := cluster, s', i';
          return FatPack.Pack(cluster, s', i'), c, s, i;
        }
        cluster := FatNextCluster(cluster);
        assert dir[q..][1..] == dir[q + 1..];
        q := q + 1;
      }
      FreeSpotStep(Files(), dir[q..]);
      location := 0;
    }

    /** Puts an entry at a packed position. */
    method FatWriteDirectoryEntry(location: dword, entry: seq<byte>)
      requires Valid() && |entry| == SLOT
      requires 2 <= FatPack.PackedCluster(location) < Lay().n
          && FatPack.PackedSector(location) < vol.boot.sectorsPerCluster
      requires SLOT * FatPack.PackedIndex(location) + SLOT <= Lay().g.bps
      modifies drive`fileOffset, drive.media
      ensures var off := Times(FatPack.PackedSector(location), Lay().g.bps) + SLOT * FatPack.PackedIndex(location);
        off + SLOT <= Lay().g.cb &&
        Files() == PutAt(old(Files()), FatPack.PackedCluster(location), off, entry)
      ensures Kept(Lay(), old(drive.Disk()), drive.Disk())
    {
      hide Abs, Kept, Driver.Valid, WellFormed, Times;
      var cluster, s, index :=
          FatPack.PackedCluster(location), FatPack.PackedSector(location), FatPack.PackedIndex(location);
      var sector := new byte[vol.boot.bytesPerSector](_ => 0);
      ghost var fs := Files();
      ReadClusterSector(cluster, s, sector);
      DataLengths(fs, Lay().g.cb);
      PutInSector(fs, cluster, Times(s, Lay().g.bps), Lay().g.bps, SLOT * index, entry);
      forall k | 0 <= k < SLOT {
        sector[SLOT * index + k] := entry[k];
      }
      assert sector[..] == Splice(fs.data[cluster][Times(s, Lay().g.bps)..Times(s, Lay().g.bps) + Lay().g.bps],
          SLOT * index, entry);
      WriteClusterSector(cluster, s, sector);
    }

    method FatCreateEntry(path: seq<byte>, firstCluster: dword, size: dword, attributes: byte)
      returns (entry: seq<byte>)
      requires 0 !in path
      ensures entry == EntryFor(path, firstCluster, size)[11 := attributes]
      ensures IsEntry(entry, Name8(path), Ext3(path), firstCluster, size, attributes)
    {
      hide MakeSlot, Name8, Ext3, IsEntry, SlotCluster, SlotSize;
      var name, ext := new byte[8](_ => 0), new byte[3](_ => 0);
      FatConvert83(path, name, ext);
      entry := MakeSlot(name[..], ext[..], firstCluster, size)[11 := attributes];
      CreatedIs(path, firstCluster, size, attributes);
    }

    // ---- FatWrite ----

    function ParentCluster(parent: Parent): (c: dword)
      ensures parent.Root? ==> c == vol.boot.rootCluster
      ensures parent.Directory? ==>
        var s := parent.slot;
        c == s[26] as int + 0x100 * s[27] as int + 0x1_0000 * s[20] as int + 0x100_0000 * s[21] as int
    {
      match parent
      case Root => vol.boot.rootCluster
      case Directory(slot) => SlotCluster(slot)
    }

    /** Writes a file into a directory: 0, -1 when the data could not be stored, -2 when the
        directory has no free slot or the place of its first one is packed as 0. */
    method FatWrite(path: seq<byte>, data: array<byte>, size: dword, parent: Parent, ghost dir: seq<nat>)
      returns (r: int)
      requires Valid() && data != drive.media && RoundUp(size, Lay().g.bps) <= data.Length && 0 !in path
      requires Chain(Files().fat, dir) && dir[0] == ParentCluster(parent)
      requires Lands(FreeSpot(Files(), dir), Lay().n, Lay().g)
      modifies drive`fileOffset, drive.media
      ensures var w := WritePacked(old(Files()), Lay().g, dir, path, data[..], size);
        Files() == w.fs && r == w.code
      ensures Kept(Lay(), old(drive.Disk()), drive.Disk())
    {
      hide LayoutOf, ValidVolume, Abs, Kept, Driver.Valid, WellFormed, FatClusterCount, Store, FreeSpot, Walk, EntryFor,
           RoundUp, FatPack.Pack, AddPacked, Lands, Packable, LocationOf;
      ghost var l, m, fs := Lay(), drive.Disk(), Files();
      ghost var st := Store(fs, Pieces(data[..], size, l.g), 0);
      DirectoryStays(fs, l.g, dir, data[..], size);
      StoreKeepsSpot(fs, Pieces(data[..], size, l.g), dir);
      StoreChain(fs, Pieces(data[..], size, l.g), 0);
      var first := FatWriteData(data, size);
      AddPackedSpots(st, l.g, dir, path, size);
      if first == 0 {
        return -1;
      }
      var entry := FatCreateEntry(path, first, size, ARCHIVE);
      assert entry == EntryFor(path, first, size);
      var location, c, s, i := FatFindFreeEntry(ParentCluster(parent), dir);
      ChainWithin(Files().fat, dir);
      if FreeSpot(Files(), dir).At? {
        FreeSpotIsFree(Files(), dir);
        ChainHas(st.fs.fat, dir, c);
        PlaceTaken(FreeSpot(st.fs, dir), c, s, i, l.n, vol.boot.sectorsPerCluster, l.g);
      }
      if location == 0 {
        return -2;
      }
      ghost var half := drive.Disk();
      FatWriteDirectoryEntry(location, entry);
      KeptTrans(l, m, half, drive.Disk());
      r := 0;
    }

    // ---- FatRead ----

    /** Searches one cluster for a name, sector by sector. */
    method FatScanName(cluster: dword, name: seq<byte>, ext: seq<byte>) returns (r: Search, s: nat, i: nat)
      requires Valid() && 2 <= cluster < Lay().n && |name| == 8 && |ext| == 3
      modifies drive`fileOffset
      ensures r == Find(Files().data[cluster], name, ext, 0)
      ensures r.Hit? ==> s < vol.boot.sectorsPerCluster && SLOT * i + SLOT <= Lay().g.bps
                         && SLOT * r.index == Times(s, Lay().g.bps) + SLOT * i
    {
      hide WellFormed, FatClusterCount, Driver.Valid, Times, WholeSectors, Find;
      var bps, spc := vol.boot.bytesPerSector, vol.boot.sectorsPerCluster;
      ghost var l, dir := Lay(), Files().data[cluster];
      DataLengths(Files(), l.g.cb);
      s, i := 0, 0;
      var j: nat := 0;
      FillStart(bps);
      while s < spc
        invariant s <= spc && SLOT * j == Times(s, bps)
        invariant Find(dir, name, ext, 0) == Find(dir, name, ext, j)
      {
        var sector := new byte[bps](_ => 0);
        ReadClusterSector(cluster, s, sector);
        ghost var bytes := sector[..];
        i := 0;
        while SLOT * i + SLOT <= bps
          invariant sector[..] == bytes
          invariant SLOT * i <= bps && SLOT * j == Times(s, bps) + SLOT * i
          invariant Find(dir, name, ext, 0) == Find(dir, name, ext, j)
        {
          var slot := sector[SLOT * i..SLOT * i + SLOT];
          SlotInSector(dir, bytes, Times(s, bps), i, j);
          FindStep(dir, name, ext, j);
          if slot[0] == 0 {
            return Stopped, s, i;
          }
          if Names(slot, name, ext) {
            return Hit(j), s, i;
          }
          i, j := i + 1, j + 1;
        }
        TimesStep(s, bps);
        s := s + 1;
      }
      FindStep(dir, name, ext, j);
      r := Missed;
    }

    /** Finds a name in a directory. */
    method FatLocateInDir(name: seq<byte>, ext: seq<byte>, parent: Parent, ghost dir: seq<nat>) returns (r: Location)
      requires Valid() && |name| == 8 && |ext| == 3
      requires Chain(Files().fat, dir) && dir[0] == ParentCluster(parent)
      modifies drive`fileOffset
      ensures !IsDirectory(parent) ==> r == NotFound
      ensures IsDirectory(parent) ==>
        match NameSpot(Files(), dir, name, ext)
        case At(c, off) => r.Found? && r.cluster == c && r.sector < vol.boot.sectorsPerCluster
                           && off == Times(r.sector, Lay().g.bps) + SLOT * r.index
                           && c < |Files().data| && off + SLOT <= |Files().data[c]|
                           && r.slot == Files().data[c][off..off + SLOT]
        case Nowhere => r == NotFound
      ensures if parent.Directory? && parent.slot[11] / 0x10 % 2 == 0 then r == NotFound
              else Locates(r, Content(Files(), dir), dir, Lay().g, name, ext)
    {
      hide LayoutOf, ValidVolume, Abs, Kept, Driver.Valid, FatClusterCount, NameSpot, Find, Walk, SlotSize, Locates;
      if !IsDirectory(parent) {
        return NotFound;
      }
      LocationIs(Files(), Lay().g, dir, name, ext);
      r := SearchClusters(ParentCluster(parent), name, ext, dir);
    }

    /** The loop of FatLocateInDir over a directory's clusters. */
    method SearchClusters(first: dword, name: seq<byte>, ext: seq<byte>, ghost dir: seq<nat>) returns (r: Location)
      requires Valid() && |name| == 8 && |ext| == 3
      requires Chain(Files().fat, dir) && dir[0] == first
      modifies drive`fileOffset
      ensures match NameSpot(Files(), dir, name, ext)
        case At(c, off) => r.Found? && r.cluster == c && r.sector < vol.boot.sectorsPerCluster
                           && off == Times(r.sector, Lay().g.bps) + SLOT * r.index
                           && c < |Files().data| && off + SLOT <= |Files().data[c]|
                           && r.slot == Files().data[c][off..off + SLOT]
        case Nowhere => r == NotFound
    {
      hide LayoutOf, ValidVolume, Abs, Kept, Driver.Valid, WellFormed, FatClusterCount, NameSpot, Find, Walk,
           SlotSize;
      var cluster := first;
      ghost var q := 0;
      ChainWithin(Files().fat, dir);
      DataLengths(Files(), Lay().g.cb);
      assert dir[0..] == dir;
      while cluster < 0x0FFF_FFF8
        invariant 0 <= q <= |dir|
        invariant if q < |dir| then cluster == dir[q] else cluster >= END_OF_CHAIN
        invariant NameSpot(Files(), dir, name, ext) == NameSpot(Files(), dir[q..], name, ext)
        decreases |dir| - q
      {
        ChainStep(Files().fat, dir, q);
        NameSpotStep(Files(), dir[q..], name, ext);
        var found, s, i := FatScanName(cluster, name, ext);
        if found.Stopped? {
          return NotFound;
        }
        if found.Hit? {
          var sector := new byte[vol.boot.bytesPerSector](_ => 0);
          ReadClusterSector(cluster, s, sector);
          SlotInSector(Files().data[cluster], sector[..], Times(s, Lay().g.bps), i, found.index);
          return Found(cluster, s, i, sector[SLOT * i..SLOT * i + SLOT]);
        }
        cluster := FatNextCluster(cluster);
        assert dir[q..][1..] == dir[q + 1..];
        q := q + 1;
      }
      NameSpotStep(Files(), dir[q..], name, ext);
      r := NotFound;
    }

    predicate IsDirectory(parent: Parent): (v: bool)
      ensures v <==> parent.Root? || parent.slot[11] / 0x10 % 2 == 1
    {
      match parent
      case Root => true
      case Directory(slot) => slot[11] / DIRECTORY % 2 == 1
    }

    /** Copies up to a cluster's worth of bytes into the buffer. */
    method FatReadCluster(cluster: dword, data: array<byte>, p: nat, remaining: nat) returns (n: nat)
      requires Valid() && cluster < Lay().n && (remaining > 0 ==> 2 <= cluster)
      requires data != drive.media && p + remaining <= data.Length
      modifies drive`fileOffset, data
      ensures n == if cluster < 2 then 0 else Min(remaining, Lay().g.cb)
      ensures n <= |Files().data[cluster]| && data[..] == Splice(old(data[..]), p, Files().data[cluster][..n])
    {
      hide Abs, Kept, Driver.Valid, WellFormed, Times, Splice;
      var bps, spc := vol.boot.bytesPerSector, vol.boot.sectorsPerCluster;
      ghost var l, bytes, was := Lay(), Files().data[cluster], data[..];
      DataLengths(Files(), l.g.cb);
      n := 0;
      var s: nat := 0;
      FillStart(bps);
      SpliceNothing(was, p, bytes[..0]);
      while s < spc && n < remaining
        invariant s <= spc && n == Min(remaining, Times(s, bps)) && n <= |bytes|
        invariant data[..] == Splice(was, p, bytes[..n])
      {
        var sector := new byte[bps](_ => 0);
        ReadClusterSector(cluster, s, sector);
        var chunk := if remaining - n < bps then remaining - n else bps;
        ghost var half := data[..];
        CopyBytes(data, p + n, sector, 0, chunk);
        SpliceOn(was, p, bytes, n, chunk, sector[..]);
        TimesStep(s, bps);
        s, n := s + 1, n + chunk;
      }
    }

    /** Reads a file by name into a new buffer, with a NUL after its last byte. A size of 2^32 - 1
        asks for a buffer of 0 bytes: kalloc returns null and memset panics. `ch` is the walk
        from the found entry's first cluster; it may leave the data area only when the file is
        empty. */
    method FatRead(name: seq<byte>, ext: seq<byte>, parent: Parent, ghost dir: seq<nat>, ghost ch: seq<nat>)
      returns (r: ReadResult)
      requires Valid() && |name| == 8 && |ext| == 3
      requires Chain(Files().fat, dir) && dir[0] == ParentCluster(parent)
      requires Find(Content(Files(), dir), name, ext, 0).Hit? ==>
        Follows(Files().fat, Slot(Content(Files(), dir), Find(Content(Files(), dir), name, ext, 0).index), ch)
      modifies drive`fileOffset
      ensures r == NoFile <==>
        (parent.Directory? && parent.slot[11] / 0x10 % 2 == 0) || NoneCarried(Content(Files(), dir), name, ext)
      ensures IsDirectory(parent) ==>
        match Find(Content(Files(), dir), name, ext, 0)
        case Hit(j) =>
          var size := SlotSize(Slot(Content(Files(), dir), j));
          if size == 0xFFFF_FFFF then r == Panicked
          else r.Buffer? && fresh(r.data) && Within(ch, |Files().data|)
               && r.data[..] == Take(Content(Files(), ch), size) + [0]
        case _ => r == NoFile
    {
      hide LayoutOf, ValidVolume, Abs, Kept, Driver.Valid, WellFormed, FatClusterCount, NameSpot, Find, Content,
           Follows, SlotSize, SlotCluster, Take, Locates, NoneCarried;
      NoFileIff(Content(Files(), dir), name, ext);
      var location := FatLocateInDir(name, ext, parent, dir);
      if location == NotFound {
        NotFoundMeans(Files(), Lay().g, dir, name, ext);
        return NoFile;
      }
      FoundMeans(Files(), Lay().g, dir, name, ext);
      var size: int := SlotSize(location.slot);
      if Wrap(size + 1) == 0 {
        return Panicked;
      }
      var data := new byte[size + 1](_ => 0);
      ReadChain(SlotCluster(location.slot), size, data, location.slot, ch);
      r := Buffer(data);
    }

    /** One round of FatRead's loop: the next cluster, and how many bytes came from this one. */
    method ReadRound(cluster: dword, data: array<byte>, p: nat, remaining: nat, ghost slot: Slot32,
                     ghost ch: seq<nat>, ghost q: nat, ghost all: seq<byte>)
      returns (next: dword, n: nat)
      requires Valid() && data != drive.media && p + remaining == |all| == SlotSize(slot)
      requires Follows(Files().fat, slot, ch) && Within(ch, |Files().data|) && q < |ch| && cluster == ch[q]
      requires ReadSoFar(data[..], all, p, Content(Files(), ch[q..]))
      modifies drive`fileOffset, data
      ensures n <= remaining && if q + 1 < |ch| then next == ch[q + 1] else next >= END_OF_CHAIN
      ensures ReadSoFar(data[..], all, p + n, Content(Files(), ch[q + 1..]))
    {
      hide Abs, Driver.Valid, Content, SlotSize, SlotCluster, Follows, Splice, ReadSoFar;
      FollowsStep(Files().fat, slot, ch, q);
      DataLengths(Files(), Lay().g.cb);
      ContentStep(Files(), ch, q);
      ReadSoFarStep(data[..], all, p, Files().data[cluster], Content(Files(), ch[q + 1..]));
      n := FatReadCluster(cluster, data, p, remaining);
      next := FatNextCluster(cluster);
    }

    /** The loop of FatRead over a chain. */
    method ReadChain(first: dword, size: dword, data: array<byte>, ghost slot: Slot32, ghost ch: seq<nat>)
      requires Valid() && data != drive.media && data.Length == size + 1
      requires forall k :: 0 <= k < data.Length ==> data[k] == 0
      requires Follows(Files().fat, slot, ch) && SlotCluster(slot) == first && SlotSize(slot) == size
      modifies drive`fileOffset, data
      ensures Within(ch, |Files().data|) && data[..] == Take(Content(Files(), ch), size) + [0]
    {
      hide Abs, Driver.Valid, Driver.Files, Driver.Lay, Content, SlotSize, SlotCluster, Follows, Take, ReadSoFar;
      var cluster, remaining: nat, p: nat := first, size, 0;
      FollowsStart(Files().fat, slot, ch);
      ghost var q, all := 0, Take(Content(Files(), ch), size);
      assert ch[0..] == ch;
      ReadSoFarStart(data[..], all, Content(Files(), ch));
      while cluster < 0x0FFF_FFF8
        invariant 0 <= q <= |ch| && p + remaining == size
        invariant if q < |ch| then cluster == ch[q] else cluster >= END_OF_CHAIN
        invariant ReadSoFar(data[..], all, p, Content(Files(), ch[q..]))
        decreases |ch| - q
        modifies drive`fileOffset, data
      {
        var n: nat;
        cluster, n := ReadRound(cluster, data, p, remaining, slot, ch, q, all);
        q, p, remaining := q + 1, p + n, remaining - n;
      }
      assert ch[q..] == [];
      ReadSoFarEnd(Files(), data[..], all, p);
    }
  }

  datatype ReadResult = NoFile | Panicked | Buffer(data: array<byte>)

  /** `ch` is what FatRead walks for an entry: nothing when its first cluster is an end mark,
      else the walk from it, over data clusters if there is anything to read. */
  ghost predicate Follows(fat: seq<nat>, slot: Slot32, ch: seq<nat>) {
    if SlotCluster(slot) >= END_OF_CHAIN then ch == []
    else Walk(fat, ch) && ch[0] == SlotCluster(slot)
         && (SlotSize(slot) > 0 ==> forall i :: 0 <= i < |ch| ==> 2 <= ch[i])
  }

  lemma FollowsStart(fat: seq<nat>, slot: Slot32, ch: seq<nat>)
    requires Follows(fat, slot, ch)
    ensures if 0 < |ch| then SlotCluster(slot) == ch[0] else SlotCluster(slot) >= END_OF_CHAIN
    ensures Within(ch, |fat|)
  {
  }

  lemma FollowsStep(fat: seq<nat>, slot: Slot32, ch: seq<nat>, q: nat)
    requires Follows(fat, slot, ch) && q < |ch|
    ensures ch[q] < |fat| && (SlotSize(slot) > 0 ==> 2 <= ch[q])
    ensures if q + 1 < |ch| then fat[ch[q]] == ch[q + 1] else fat[ch[q]] >= END_OF_CHAIN
  {
  }

  lemma ContentStep(fs: Fs, ch: seq<nat>, q: nat)
    requires Within(ch, |fs.data|) && q < |ch|
    ensures Content(fs, ch[q..]) == fs.data[ch[q]] + Content(fs, ch[q + 1..])
  {
    assert ch[q..][1..] == ch[q + 1..];
  }

  /** The first `p` of a file's bytes are read, zeros follow them, and the clusters ahead hold `rest`. */
  ghost predicate ReadSoFar(now: seq<byte>, all: seq<byte>, p: nat, rest: seq<byte>) {
    p <= |all| && |now| == |all| + 1 && now[..p] == all[..p] && (forall k :: p <= k < |now| ==> now[k] == 0)
    && all[p..] == Take(rest, |all| - p)
  }

  lemma ReadSoFarStart(now: seq<byte>, all: seq<byte>, rest: seq<byte>)
    requires |now| == |all| + 1 && (forall k :: 0 <= k < |now| ==> now[k] == 0) && all == Take(rest, |all|)
    ensures ReadSoFar(now, all, 0, rest)
  {
  }

  lemma ReadSoFarStep(now: seq<byte>, all: seq<byte>, p: nat, head: seq<byte>, tail: seq<byte>)
    requires ReadSoFar(now, all, p, head + tail)
    ensures var n := Min(|all| - p, |head|); ReadSoFar(Splice(now, p, head[..n]), all, p + n, tail)
  {
    var n := Min(|all| - p, |head|);
    TakeAppend(head, tail, |all| - p);
    assert all[p..p + n] == all[p..][..n] == head[..n];
    assert all[p + n..] == all[p..][n..];
    assert Splice(now, p, head[..n])[..p + n] == all[..p + n];
  }

  lemma ReadSoFarEnd(fs: Fs, now: seq<byte>, all: seq<byte>, p: nat)
    requires ReadSoFar(now, all, p, Content(fs, []))
    ensures now == all + [0]
  {
    assert forall k :: p <= k < |all| ==> all[k] == all[p..][k - p];
  }

  /** What a located entry is, in terms of the whole directory. */
  lemma FoundMeans(fs: Fs, g: Geometry, dir: seq<nat>, name: seq<byte>, ext: seq<byte>)
    requires g.Valid() && WellFormed(fs, g.cb) && Chain(fs.fat, dir) && |name| == 8 && |ext| == 3
    ensures NameSpot(fs, dir, name, ext).At? ==>
      var found, at := Find(Content(fs, dir), name, ext, 0), NameSpot(fs, dir, name, ext);
      && found.Hit? && at.cluster < |fs.data| && at.off + SLOT <= |fs.data[at.cluster]|
      && fs.data[at.cluster][at.off..at.off + SLOT] == Slot(Content(fs, dir), found.index)
  {
    NameSpotIsFirst(fs, dir, name, ext);
    var found := Find(Content(fs, dir), name, ext, 0);
    if found.Hit? {
      PlaceSlot(fs, dir, found.index);
    }
  }

  /** The location of the directory's first slot that carries the name, its number j counted from the
      directory's first byte on; none exactly if no slot carries it. */
  ghost predicate Locates(r: Location, content: seq<byte>, dir: seq<nat>, g: Geometry, name: seq<byte>, ext: seq<byte>)
  {
    match r
    case NotFound => NoneCarried(content, name, ext)
    case Found(_, _, _, _) => exists j: nat :: LiesAt(r, content, dir, g, name, ext, j)
  }

  ghost predicate LiesAt(r: Location, content: seq<byte>, dir: seq<nat>, g: Geometry, name: seq<byte>,
          ext: seq<byte>, j: nat)
    requires r.Found?
  {
    && FirstCarried(content, name, ext, j) && r.slot == content[32 * j..32 * j + 32]
    && g.cb > 0 && 32 * j / g.cb < |dir| && r.cluster == dir[32 * j / g.cb]
    && Times(r.sector, g.bps) + 32 * r.index == 32 * j % g.cb
  }

  ghost predicate NoneCarried(content: seq<byte>, name: seq<byte>, ext: seq<byte>) {
    forall j: nat :: !Carried(content, name, ext, j)
  }

  lemma {:induction false} LocationIs(fs: Fs, g: Geometry, dir: seq<nat>, name: seq<byte>, ext: seq<byte>)
    requires g.Valid() && WellFormed(fs, g.cb) && Chain(fs.fat, dir) && |name| == 8 && |ext| == 3
    ensures match NameSpot(fs, dir, name, ext)
      case Nowhere => Locates(NotFound, Content(fs, dir), dir, g, name, ext)
      case At(c, off) =>
        c < |fs.data| && off + SLOT <= |fs.data[c]| &&
        forall r: Location :: r.Found? && r.cluster == c && Times(r.sector, g.bps) + SLOT * r.index == off
                              && r.slot == fs.data[c][off..off + SLOT] ==>
          Locates(r, Content(fs, dir), dir, g, name, ext)
  {
    hide Carried, FirstCarried, Names, Content, Find, Times;
    var content, found := Content(fs, dir), Find(Content(fs, dir), name, ext, 0);
    FindIsFirst(content, name, ext);
    NameSpotIsFirst(fs, dir, name, ext);
    if found.Hit? {
      var j := found.index;
      PlaceSlot(fs, dir, j);
      PlaceIs(fs, g.cb, dir, 32 * j);
      var (c, off) := Place(fs, dir, 32 * j);
      forall r: Location | r.Found? && r.cluster == c && Times(r.sector, g.bps) + SLOT * r.index == off
                           && r.slot == fs.data[c][off..off + SLOT]
        ensures Locates(r, content, dir, g, name, ext)
      {
        assert LiesAt(r, content, dir, g, name, ext, j);
      }
    }
  }

  lemma CreatedIs(path: seq<byte>, cluster: dword, size: dword, flags: byte)
    ensures IsEntry(EntryFor(path, cluster, size)[11 := flags], Name8(path), Ext3(path), cluster, size, flags)
  {
    hide MakeSlot, Name8, Ext3, IsEntry;
    assert Wrap(cluster) == cluster;
    EntryIs(Name8(path), Ext3(path), cluster, size, flags);
  }

  lemma NoFileIff(content: seq<byte>, name: seq<byte>, ext: seq<byte>)
    requires |name| == 8 && |ext| == 3
    ensures Find(content, name, ext, 0).Hit? <==> !NoneCarried(content, name, ext)
  {
    FindIsFirst(content, name, ext);
  }

  lemma NotFoundMeans(fs: Fs, g: Geometry, dir: seq<nat>, name: seq<byte>, ext: seq<byte>)
    requires g.Valid() && WellFormed(fs, g.cb) && Chain(fs.fat, dir) && |name| == 8 && |ext| == 3
    ensures NameSpot(fs, dir, name, ext) == Nowhere ==> !Find(Content(fs, dir), name, ext, 0).Hit?
  {
    NameSpotIsFirst(fs, dir, name, ext);
  }

  lemma SpliceNothing(was: seq<byte>, p: nat, none: seq<byte>)
    requires p <= |was| && none == []
    ensures Splice(was, p, none) == was
  {
  }

  lemma SpliceOn(was: seq<byte>, p: nat, bytes: seq<byte>, n: nat, chunk: nat, sector: seq<byte>)
    requires n + chunk <= |bytes| && chunk <= |sector| && p + n + chunk <= |was|
    requires sector[..chunk] == bytes[n..n + chunk]
    ensures Splice(Splice(was, p, bytes[..n]), p + n, sector[0..0 + chunk]) == Splice(was, p, bytes[..n + chunk])
  {
    assert sector[0..0 + chunk] == bytes[n..n + chunk];
  }

  /** Where a name was found. */
  datatype Location = NotFound | Found(cluster: dword, sector: nat, index: nat, slot: Slot32)

  lemma NameSpotStep(fs: Fs, ch: seq<nat>, name: seq<byte>, ext: seq<byte>)
    requires Within(ch, |fs.data|) && |name| == 8 && |ext| == 3
    ensures NameSpot(fs, ch, name, ext) ==
      if ch == [] then Nowhere
      else if Find(fs.data[ch[0]], name, ext, 0).Hit? then At(ch[0], SLOT * Find(fs.data[ch[0]], name, ext, 0).index)
      else if Find(fs.data[ch[0]], name, ext, 0).Stopped? then Nowhere
      else NameSpot(fs, ch[1..], name, ext)
  {
  }

  lemma FindStep(dir: seq<byte>, name: seq<byte>, ext: seq<byte>, j: nat)
    requires |name| == 8 && |ext| == 3
    ensures Find(dir, name, ext, j) ==
      if SLOT * j + SLOT > |dir| then Missed
      else if Slot(dir, j)[0] == 0 then Stopped
      else if Names(Slot(dir, j), name, ext) then Hit(j)
      else Find(dir, name, ext, j + 1)
  {
  }

  /** The directory that a path is resolved in: the root, or a directory given by its slot. */
  datatype Parent = Root | Directory(slot: Slot32)

  type Slot32 = s: seq<byte> | |s| == SLOT witness seq(SLOT, _ => 0)

  /** Adding an entry, by the place of the first free slot. */
  /** Patching a sector and writing it back is patching the cluster. */
  lemma PutInSector(fs: Fs, c: nat, at: nat, len: nat, off: nat, e: seq<byte>)
    requires c < |fs.data| && at + len <= |fs.data[c]| && off + |e| <= len
    ensures PutAt(fs, c, at, Splice(fs.data[c][at..at + len], off, e)) == PutAt(fs, c, at + off, e)
  {
    assert Splice(fs.data[c], at, Splice(fs.data[c][at..at + len], off, e)) == Splice(fs.data[c], at + off, e);
  }

  lemma ChainWithin(fat: seq<nat>, ch: seq<nat>)
    requires Chain(fat, ch)
    ensures 0 < |ch| && Within(ch, |fat|)
  {
  }

  lemma ChainStep(fat: seq<nat>, ch: seq<nat>, q: nat)
    requires Chain(fat, ch) && q < |ch|
    ensures 2 <= ch[q] < |fat|
    ensures if q + 1 < |ch| then fat[ch[q]] == ch[q + 1] else fat[ch[q]] >= END_OF_CHAIN
  {
  }

  lemma FreeSpotStep(fs: Fs, ch: seq<nat>)
    requires Within(ch, |fs.data|)
    ensures FreeSpot(fs, ch) ==
      if ch == [] then Nowhere
      else if FindFree(fs.data[ch[0]], 0).Hit? then At(ch[0], SLOT * FindFree(fs.data[ch[0]], 0).index)
      else FreeSpot(fs, ch[1..])
  {
  }

  lemma TimesStep(i: nat, bps: nat)
    ensures Times(i + 1, bps) == Times(i, bps) + bps
  {
  }

  /** Slot i of a sector is a slot of its cluster. */
  lemma SlotInSector(dir: seq<byte>, sector: seq<byte>, at: nat, i: nat, j: nat)
    requires at + |sector| <= |dir| && sector == dir[at..at + |sector|]
    requires SLOT * i + SLOT <= |sector| && SLOT * j == at + SLOT * i
    ensures Slot(dir, j) == Slot(sector, i)
  {
    SliceOfSlice(dir, at, at + |sector|, SLOT * i, SLOT * i + SLOT);
  }

  lemma FindFreeStep(dir: seq<byte>, j: nat)
    ensures FindFree(dir, j) == if SLOT * j + SLOT > |dir| then Missed
                                else if Free(Slot(dir, j)) then Hit(j) else FindFree(dir, j + 1)
  {
  }

  lemma LinkSteps(fat: seq<nat>, prev: nat, c: nat)
    requires prev < |fat| && c < |fat| < END_OF_CHAIN
    ensures c % NIBBLE == c
    ensures Link(fat, prev, c) == if prev == 0 then fat[c := END_OF_CHAIN] else fat[c := END_OF_CHAIN][prev := c]
  {
  }

  lemma FillStart(bps: nat)
    requires bps > 0
    ensures Times(0, bps) == 0 && RoundUp(0, bps) == 0
  {
  }

  lemma FillStep(left: nat, i: nat, bps: nat)
    requires 0 < left && bps > 0
    ensures Times(i + 1, bps) == Times(i, bps) + bps
    ensures RoundUp(left, bps) == bps + RoundUp(left - Min(left, bps), bps)
  {
  }

  lemma PutNothing(fs: Fs, c: nat, none: seq<byte>)
    requires c < |fs.data| && none == []
    ensures PutAt(fs, c, 0, none) == fs
  {
    assert Splice(fs.data[c], 0, none) == fs.data[c];
    assert fs.data[c := fs.data[c]] == fs.data;
  }

  lemma PutNext(fs: Fs, c: nat, a: seq<byte>, b: seq<byte>)
    requires c < |fs.data| && |a| + |b| <= |fs.data[c]|
    ensures PutAt(PutAt(fs, c, 0, a), c, |a|, b) == PutAt(fs, c, 0, a + b)
  {
    assert Splice(Splice(fs.data[c], 0, a), |a|, b) == Splice(fs.data[c], 0, a + b);
  }
}
