/** A freshly formatted disk, and a file written and read on it. */
module FatFormatted {
  import opened Arith
  import opened Bytes
  import opened FatChains
  import opened FatClient
  import opened FatDirectory
  import opened FatDisk
  import opened FatDriver
  import opened FatExamples
  import opened FatFiles
  import opened FatGeometry
  import opened FatMap
  import opened FatPacked
  import opened FatRuns
  import opened FatSearch
  import opened FatSession
  import opened Ide

  // ---- The disk ----

  /** A partition that starts at sector 1 with two reserved sectors, two table copies, and nine
      sectors behind them: four clusters of two sectors, and one sector to spare. */
  const BOOT: BootSector := BootSector(512, 2, 2, 2, 0, 13, 0, 0, 1, 2, SIGN_B)
  const VOLUME: FatVolume := FatVolume(BOOT, 1)
  const LENGTH: nat := 7168
  const LAYOUT: Layout := Layout(1536, 512, 2560, 6, Geometry(512, 1024))

  /** In both table copies entries 0 to 2 are end marks, and cluster 2, the root directory, is
      zero. */
  function FormattedByte(k: nat): byte {
    var e := k % 512;
    if 1536 <= k < 2560 && e < 12 then (if e % 4 == 0 then 0xF8 else if e % 4 == 3 then 0x0F else 0xFF) else 0
  }

  lemma Numbers()
    ensures Times(2, 1) == 2 && Times(14, 512) == LENGTH && Times(1, 512) == 512 && Times(2, 512) == 1024
    ensures Times(3, 512) == 1536 && Times(5, 512) == 2560 && Quotient(511, 512) == 0 && Quotient(9, 2) == 4
  {
    hide Times, Quotient;
    TimesIs(2, 1);
    TimesIs(14, 512);
    TimesIs(1, 512);
    TimesIs(2, 512);
    TimesIs(3, 512);
    TimesIs(5, 512);
    QuotientIs(511, 512);
    QuotientIs(9, 2);
  }

  lemma VolumeIsValid()
    ensures ValidVolume(VOLUME, LENGTH) && LayoutOf(VOLUME) == LAYOUT
  {
    hide Times, Quotient;
    Numbers();
  }

  ghost predicate Formatted(m: seq<byte>) {
    |m| == LENGTH && forall k :: 0 <= k < LENGTH ==> m[k] == FormattedByte(k)
  }

  lemma FormattedEntry(m: seq<byte>, c: nat)
    requires Formatted(m) && c < 6
    ensures Entry(LAYOUT, m, c) == if c < 3 then END_OF_CHAIN else 0
  {
    hide LE32;
    var raw := RawEntry(LAYOUT, m, c);
    assert forall k :: 0 <= k < 4 ==> raw[k] == FormattedByte(1536 + 4 * c + k);
    assert raw == if c < 3 then [0xF8, 0xFF, 0xFF, 0x0F] else [0, 0, 0, 0];
    EntryWords();
  }

  lemma EntryWords()
    ensures LE32([0xF8, 0xFF, 0xFF, 0x0F]) == END_OF_CHAIN && LE32([0, 0, 0, 0]) == 0
  {
  }

  lemma FormattedCluster(m: seq<byte>, c: nat)
    requires Formatted(m) && 2 <= c < 6 && LAYOUT.Valid(LENGTH)
    ensures ClusterBytes(LAYOUT, m, c) == Repeat(0, 1024)
  {
    ClusterRange(LAYOUT, LENGTH, c);
    TimesIs(c - 2, 1024);
    var bytes := ClusterBytes(LAYOUT, m, c);
    assert forall k :: 0 <= k < 1024 ==> bytes[k] == FormattedByte(LAYOUT.ClusterAt(c) + k);
  }

  /** The file system on it: an empty root directory and three free clusters. */
  lemma FormattedFiles(m: seq<byte>)
    requires Formatted(m) && LAYOUT.Valid(|m|)
    ensures var fs := Abs(LAYOUT, m);
      && WellFormed(fs, 1024) && |fs.fat| == 6 && Chain(fs.fat, [2])
      && (forall c :: 0 <= c < 6 ==> fs.fat[c] == if c < 3 then END_OF_CHAIN else 0)
      && Content(fs, [2]) == Repeat(0, 1024)
  {
    hide Formatted, Entry, ClusterBytes, FormattedByte;
    var fs := Abs(LAYOUT, m);
    AbsWellFormed(LAYOUT, m);
    forall c | 0 <= c < 6
      ensures fs.fat[c] == if c < 3 then END_OF_CHAIN else 0
    {
      FormattedEntry(m, c);
    }
    FormattedCluster(m, 2);
    assert Content(fs, [2]) == fs.data[2] + Content(fs, []);
  }

  lemma FormattedSlots(j: nat)
    requires SLOT * j + SLOT <= 1024
    ensures Slot(Repeat(0, 1024), j)[0] == 0 && Free(Slot(Repeat(0, 1024), j))
  {
  }

  lemma FormattedReady(m: seq<byte>, name: seq<byte>, ext: seq<byte>)
    requires Formatted(m) && LAYOUT.Valid(|m|) && |name| == 8 && |ext| == 3
    ensures Ready(Abs(LAYOUT, m), LAYOUT.g, [2], map[], map[], name, ext)
    ensures View(Abs(LAYOUT, m), LAYOUT.g, [2], map[], name, ext) == Absent
    ensures FindFree(Content(Abs(LAYOUT, m), [2]), 0) == Hit(0) && FreeList(Abs(LAYOUT, m).fat) == [3, 4, 5]
  {
    hide Formatted, Abs, Content, Slot, Repeat, Place;
    var fs := Abs(LAYOUT, m);
    FormattedFiles(m);
    forall j: nat | SLOT * j + SLOT <= 1024
      ensures Slot(Repeat(0, 1024), j)[0] == 0 && Free(Slot(Repeat(0, 1024), j)) && !IsFile(Slot(Repeat(0, 1024), j))
    {
      FormattedSlots(j);
    }
    forall j: nat | SLOT * j + SLOT <= 1024
      ensures Packable(SpotAt(fs, [2], j), 512)
    {
      SmallPacks(fs, j);
    }
    FreeThree(fs.fat);
    assert LAYOUT.g.Valid();
  }

  lemma FreeThree(fat: seq<nat>)
    requires |fat| == 6 && fat[2] != 0 && fat[3] == fat[4] == fat[5] == 0
    ensures FreeList(fat) == [3, 4, 5]
  {
    assert FreeFrom(fat, 6) == [] && FreeFrom(fat, 5) == [5];
    assert FreeFrom(fat, 4) == [4, 5] && FreeFrom(fat, 3) == [3, 4, 5];
  }

  lemma SmallPacks(fs: Fs, j: nat)
    requires Within([2], |fs.data|) && SLOT * j + SLOT <= |Content(fs, [2])| == 1024
    ensures Packable(SpotAt(fs, [2], j), 512)
  {
    QuotientIs(SpotAt(fs, [2], j).off, 512);
  }

  // ---- Using it ----

  /** A device with that disk. */
  method Format() returns (d: Driver)
    ensures fresh(d.drive) && fresh(d.drive.media) && d.Valid() && d.Lay() == LAYOUT && Formatted(d.drive.Disk())
    ensures d.ParentCluster(Root) == 2 && d.IsDirectory(Root)
  {
    hide ValidVolume, LayoutOf, FormattedByte;
    var media := new byte[LENGTH](k requires 0 <= k < LENGTH => FormattedByte(k));
    var drive := new IdeDrive(media, 14, true);
    VolumeIsValid();
    d := new Driver(drive, VOLUME);
  }

  /** What a file of up to three clusters needs of that disk. */
  lemma FormattedTakes(m: seq<byte>, path: seq<byte>, bytes: seq<byte>, size: dword)
    requires Formatted(m) && LAYOUT.Valid(|m|) && 0 < size <= 3072 && RoundUp(size, 512) <= |bytes|
    ensures var fs, g := Abs(LAYOUT, m), LAYOUT.g;
      && Volume(fs, g, [2], map[]) && Packable(FreeSpot(fs, [2]), g.bps)
      && Fresh(Content(fs, [2]), path) && NoHoles(Content(fs, [2]))
      && WriteFile(fs, g, [2], path, bytes, size).code == 0
  {
    hide Formatted, Abs, Content, Slot, Repeat, Volume, SlotsPack, Packable, WriteFile, Find, FindFree, Name8, Ext3,
         FreeList, RoundUp, ClustersNeeded;
    var fs := Abs(LAYOUT, m);
    FormattedReady(m, Name8(path), Ext3(path));
    FormattedFiles(m);
    FirstPacks(fs, LAYOUT.g, [2]);
    NeededIsCeiling(size, 1024);
    WriteCodes(fs, LAYOUT.g, [2], path, bytes, size);
    forall j: nat | SLOT * j + SLOT <= 1024
      ensures Slot(Repeat(0, 1024), j)[0] == 0
    {
      FormattedSlots(j);
    }
  }

  /** Every file of one to 3072 bytes can be written on it, over one cluster or several, and is read
      back: the premises of the driver's theorems can be met. */
  method WriteFirstFile(data: array<byte>, size: dword) returns (code: int, r: ReadResult)
    requires 0 < size <= 3072 && RoundUp(size, 512) <= data.Length
    ensures code == 0 && r.Buffer? && r.data[..] == data[..size] + [0]
  {
    hide Formatted, ValidVolume, LayoutOf, Driver.Valid, Volume, Fresh, Content, WriteFile, FreeSpot, Packable, RoundUp;
    var d := Format();
    var path := [65];
    FormattedTakes(d.drive.Disk(), path, data[..], size);
    code, r := WriteThenRead(d, path, data, size, Root, [2], map[]);
  }

  /** Of two files written under one name the first is read back: the premises of the run law can
      be met. */
  method WriteTwoFiles() returns (r: ReadResult, ghost seen: Lookup)
    ensures seen == File([1]) && Reports(r, seen)
  {
    hide Formatted, ValidVolume, LayoutOf, Driver.Valid, Volume, Content, WriteFile, Run, Name8, Ext3, View, HeldAfter,
         Holders, Repeat, Ready, Fresh;
    var d := Format();
    var path := [65];
    var qs := [WriteRequest(path, Repeat(1, 512), 1), WriteRequest(path, Repeat(2, 512), 1)];
    ghost var fs := d.Files();
    FormattedReady(d.drive.Disk(), Name8(path), Ext3(path));
    assert RoundUp(1, 512) == 512;
    FormattedTakes(d.drive.Disk(), path, qs[0].bytes, 1);
    NameStarts(path);
    SamePrefixReflexive(Name8(path));
    SamePrefixReflexive(Ext3(path));
    FirstWriteWins(fs, LAYOUT.g, [2], map[], qs, Name8(path), Ext3(path));
    r, seen := WriteAllThenRead(d, qs, Name8(path), Ext3(path), Root, [2], map[], map[]);
    assert qs[0].bytes[..1] == [1];
  }
}
