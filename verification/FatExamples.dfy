/** Small volumes at which promises of the FAT driver fail, and one that shows what a volume is. */
module FatExamples {
  import opened Bytes
  import opened FatChains
  import opened FatClient
  import opened FatDirectory
  import opened FatFiles
  import opened FatMap
  import opened FatPacked
  import opened FatSearch
  import opened Arith

  /** One sector of 128 bytes, hence four slots, for each cluster. */
  const SMALL: Geometry := Geometry(128, 128)

  function Repeat(b: byte, n: nat): (s: seq<byte>)
    ensures |s| == n && forall k :: 0 <= k < n ==> s[k] == b
  {
    seq(n, _ => b)
  }

  /** An entry of a subdirectory: "." or "..", with its first cluster. */
  function DotSlot(name: seq<byte>, cluster: dword): (s: seq<byte>)
    requires |name| == 8 && name[0] == DOT
    ensures |s| == SLOT && s[0] == DOT && s[11] == 0x10 && SlotCluster(s) == cluster
  {
    var s := MakeSlot(name, [SPACE, SPACE, SPACE], cluster, 0)[11 := 0x10];
    assert s[0] == s[..8][0] && s[26..28] == MakeSlot(name, [SPACE, SPACE, SPACE], cluster, 0)[26..28];
    assert s[20..22] == MakeSlot(name, [SPACE, SPACE, SPACE], cluster, 0)[20..22];
    s
  }

  function DotSlots(): (s: seq<byte>)
    ensures |s| == 64 && |s[..32]| == |s[32..]| == 32
    ensures s[..32] == DotSlot([DOT] + Repeat(SPACE, 7), 2) && s[32..] == DotSlot([DOT, DOT] + Repeat(SPACE, 6), 3)
  {
    DotSlot([DOT] + Repeat(SPACE, 7), 2) + DotSlot([DOT, DOT] + Repeat(SPACE, 6), 3)
  }

  /** Cluster 2 is a subdirectory with its two entries, cluster 3 its parent; 4 and 5 are free. */
  function Subdirectory(): (fs: Fs)
    ensures |fs.fat| == |fs.data| == 6 && WellFormed(fs, 128) && fs.fat[4] == fs.fat[5] == 0
    ensures forall c :: 0 <= c < 4 ==> fs.fat[c] == END_OF_CHAIN
  {
    Fs([END_OF_CHAIN, END_OF_CHAIN, END_OF_CHAIN, END_OF_CHAIN, 0, 0],
       [[], [], DotSlots() + Repeat(0, 64), Repeat(0, 128), Repeat(0, 128), Repeat(0, 128)])
  }

  /** The parent's chain, which belongs to no file of the subdirectory. */
  const PARENT: map<nat, seq<nat>> := map[4 := [3]]

  lemma SubdirectoryContent()
    ensures var fs := Subdirectory();
      && Within([2], |fs.data|) && Content(fs, [2]) == DotSlots() + Repeat(0, 64)
      && |Content(fs, [2])| == 128
  {
    var fs := Subdirectory();
    assert Content(fs, [2]) == fs.data[2] + Content(fs, []);
  }

  lemma SubdirectorySlots(j: nat)
    requires j < 4
    ensures var content := DotSlots() + Repeat(0, 64);
      && SLOT * j + SLOT <= |content|
      && (j < 2 ==> Slot(content, j)[0] == DOT && Slot(content, j)[11] == 0x10)
      && (j >= 2 ==> Slot(content, j)[0] == 0)
  {
    hide DotSlot;
    var content := DotSlots() + Repeat(0, 64);
    if j == 0 {
      assert Slot(content, 0) == DotSlots()[..32];
    } else if j == 1 {
      assert Slot(content, 1) == DotSlots()[32..];
    }
  }

  /** A subdirectory is a volume: its own entry "." does not count as a file. */
  lemma SubdirectoryIsVolume()
    ensures Volume(Subdirectory(), SMALL, [2], PARENT)
  {
    hide DotSlots, Slot, Subdirectory, Repeat, Content, SlotCluster;
    var fs, content := Subdirectory(), DotSlots() + Repeat(0, 64);
    SubdirectoryContent();
    forall j: nat | SLOT * j + SLOT <= |content|
      ensures !IsFile(Slot(content, j)) && (Slot(content, j)[0] == 0 <==> j >= 2)
    {
      SubdirectorySlots(j);
    }
    assert Chain(fs.fat, [2]) && Chain(fs.fat, [3]);
    assert SMALL.Valid();
  }

  // ---- Failing names ----

  /** One byte in one sector. */
  lemma OneByte(b: byte)
    ensures RoundUp(1, 128) == 128 && ClustersNeeded(1, 128) == 1 && Repeat(b, 128)[..1] == [b]
  {
  }

  /** A write of one byte into the subdirectory succeeds and fills its third slot. */
  lemma FirstWrite(path: seq<byte>, b: byte)
    requires 0 !in path
    ensures SMALL.Valid() && WellFormed(Subdirectory(), SMALL.cb) && Chain(Subdirectory().fat, [2])
    ensures RoundUp(1, SMALL.bps) <= |Repeat(b, 128)|
    ensures var w := WriteFile(Subdirectory(), SMALL, [2], path, Repeat(b, 128), 1);
      w.code == 0 && w.slot == 2 && FreeList(w.fs.fat) == [5]
  {
    hide DotSlots, Slot, WriteFile, Subdirectory, Repeat, RoundUp, ClustersNeeded, Content;
    var content := DotSlots() + Repeat(0, 64);
    OneByte(b);
    SubdirectoryIsVolume();
    SubdirectoryContent();
    SubdirectorySlots(0);
    SubdirectorySlots(1);
    SubdirectorySlots(2);
    FreeClusters();
    FirstFreeSlot(content, 2);
    WriteCodes(Subdirectory(), SMALL, [2], path, Repeat(b, 128), 1);
  }

  lemma FreeClusters()
    ensures FreeList(Subdirectory().fat) == [4, 5]
  {
    hide Subdirectory, DotSlots;
    FreeAre(Subdirectory().fat);
  }

  lemma FreeAre(fat: seq<nat>)
    requires |fat| == 6 && fat[2] != 0 && fat[3] != 0 && fat[4] == fat[5] == 0
    ensures FreeList(fat) == [4, 5]
  {
    assert FreeFrom(fat, 6) == [] && FreeFrom(fat, 5) == [5];
    assert FreeFrom(fat, 4) == [4, 5] && FreeFrom(fat, 3) == [4, 5];
  }

  lemma FirstFreeSlot(dir: seq<byte>, f: nat)
    requires SLOT * f + SLOT <= |dir| && Free(Slot(dir, f)) && forall j: nat :: j < f ==> !Free(Slot(dir, j))
    ensures FindFree(dir, 0) == Hit(f)
  {
    if FindFree(dir, 0).Hit? && f < FindFree(dir, 0).index {
      FindFreeIsFirst(dir, 0, f);
    } else if FindFree(dir, 0) == Missed {
      FindFreeIsFirst(dir, 0, f);
    }
  }

  /** A file whose name starts with 0xE5 is written, and cannot be found. */
  lemma {:induction false} UnusedName()
    ensures var fs, path, bytes := Subdirectory(), [UNUSED], Repeat(7, 128);
      && Volume(fs, SMALL, [2], PARENT) && RoundUp(1, SMALL.bps) <= |bytes|
      && var w := WriteFile(fs, SMALL, [2], path, bytes, 1);
        var owners := OwnersAfter(PARENT, path, 1, w);
        w.code == 0 && Volume(w.fs, SMALL, [2], owners)
        && View(w.fs, SMALL, [2], owners, Name8(path), Ext3(path)) == Absent
  {
    hide DotSlots, WriteFile, Subdirectory, Repeat, RoundUp, View, Volume, OwnersAfter, Name8, Ext3;
    FirstWrite([UNUSED], 7);
    SubdirectoryIsVolume();
    RoundTrip(Subdirectory(), SMALL, [2], PARENT, [UNUSED], Repeat(7, 128), 1);
  }

  /** Writing the name "A" twice returns 0 twice, and the first byte stays. */
  lemma {:induction false} DuplicateName()
    ensures var fs, path, one, two := Subdirectory(), [65], Repeat(1, 128), Repeat(2, 128);
      && Volume(fs, SMALL, [2], PARENT) && RoundUp(1, SMALL.bps) <= |one|
      && var w := WriteFile(fs, SMALL, [2], path, one, 1);
        var owners := OwnersAfter(PARENT, path, 1, w);
        w.code == 0 && Volume(w.fs, SMALL, [2], owners)
        && var w' := WriteFile(w.fs, SMALL, [2], path, two, 1);
          var owners' := OwnersAfter(owners, path, 1, w');
          w'.code == 0 && Volume(w'.fs, SMALL, [2], owners')
          && View(w'.fs, SMALL, [2], owners', Name8(path), Ext3(path)) == File([1])
  {
    hide DotSlots, WriteFile, Subdirectory, Repeat, RoundUp, View, Volume, OwnersAfter, Name8, Ext3, Find, FindFree,
         Content, ClustersNeeded;
    var fs, path, one, two := Subdirectory(), [65], Repeat(1, 128), Repeat(2, 128);
    FirstWrite(path, 1);
    OneByte(1);
    SubdirectoryIsVolume();
    var w := WriteFile(fs, SMALL, [2], path, one, 1);
    var owners := OwnersAfter(PARENT, path, 1, w);
    FirstFresh(path);
    WrittenFound(fs, SMALL, [2], PARENT, path, one, 1);
    WrittenView(fs, SMALL, [2], PARENT, path, one, 1);
    SecondSlot(path, 1);
    VolumeParts(w.fs, SMALL, [2], owners);
    WriteCodes(w.fs, SMALL, [2], path, two, 1);
    RoundTrip(w.fs, SMALL, [2], owners, path, two, 1);
  }

  lemma VolumeParts(fs: Fs, g: Geometry, dir: seq<nat>, owned: map<nat, seq<nat>>)
    requires Volume(fs, g, dir, owned)
    ensures g.Valid() && WellFormed(fs, g.cb) && Chain(fs.fat, dir) && Within(dir, |fs.data|)
  {
  }

  lemma FirstFresh(path: seq<byte>)
    requires path == [65]
    ensures Within([2], |Subdirectory().data|) && Fresh(Content(Subdirectory(), [2]), path)
  {
    hide DotSlots, Slot, Subdirectory, Repeat, Content, Name8, Ext3;
    var content := DotSlots() + Repeat(0, 64);
    SubdirectoryContent();
    forall j: nat | j < 3
      ensures SLOT * j + SLOT <= |content| && (Slot(content, j)[0] == if j < 2 then DOT else 0)
    {
      SubdirectorySlots(j);
    }
    FirstFreeSlot(content, 2);
    FirstName(path);
    var name, ext := Name8(path), Ext3(path);
    assert forall j: nat :: j < 2 ==> !Names(Slot(content, j), name, ext);
    assert Find(content, name, ext, 2) == Stopped;
    assert Find(content, name, ext, 1) == Stopped;
    assert Find(content, name, ext, 0) == Stopped;
  }

  lemma FirstName(path: seq<byte>)
    requires path == [65]
    ensures Name8(path)[0] == 65
    ensures forall s :: |s| == SLOT && s[0] == DOT ==> !Names(s, Name8(path), Ext3(path))
  {
    assert StemLength(path, 0) == 1;
    forall s: seq<byte> | |s| == SLOT && s[0] == DOT
      ensures !Names(s, Name8(path), Ext3(path))
    {
      assert s[..8][0] == DOT;
    }
  }

  /** After the first write the fourth slot is the first free one. */
  lemma SecondSlot(path: seq<byte>, b: byte)
    requires path == [65]
    ensures SMALL.Valid() && WellFormed(Subdirectory(), SMALL.cb) && Chain(Subdirectory().fat, [2])
    ensures RoundUp(1, SMALL.bps) <= |Repeat(b, 128)|
    ensures var w := WriteFile(Subdirectory(), SMALL, [2], path, Repeat(b, 128), 1);
      Within([2], |w.fs.data|) && FindFree(Content(w.fs, [2]), 0) == Hit(3)
  {
    hide DotSlots, Slot, Subdirectory, Repeat, Content, Name8, Ext3, Store, Pieces, FindFree, Find, EntryFor,
        PutSlot, Insert;
    FirstWrite(path, b);
    var fs, content := Subdirectory(), DotSlots() + Repeat(0, 64);
    var st, w := Store(fs, Pieces(Repeat(b, 128), 1, SMALL), 0), WriteFile(fs, SMALL, [2], path, Repeat(b, 128), 1);
    SubdirectoryContent();
    DirectoryStays(fs, SMALL, [2], Repeat(b, 128), 1);
    var e := EntryFor(path, st.chain[0], 1);
    PutSlotContent(st.fs, SMALL, [2], 2, e);
    FirstName(path);
    EntryFacts(path, Wrap(st.chain[0]), 1, Name8(path), Ext3(path));
    forall j: nat | j < 4
      ensures SLOT * j + SLOT <= |content| && Slot(Insert(content, 2, e), j) == if j == 2 then e else Slot(content, j)
      ensures j < 2 ==> Slot(content, j)[0] == DOT
      ensures j == 3 ==> Slot(content, j)[0] == 0
    {
      SubdirectorySlots(j);
      InsertSlot(content, 2, e, j);
    }
    EntryStarts(path, st.chain[0]);
    FirstFreeSlot(Insert(content, 2, e), 3);
  }

  lemma EntryStarts(path: seq<byte>, cluster: nat)
    requires path == [65]
    ensures EntryFor(path, cluster, 1)[0] == 65
  {
    FirstName(path);
    var e := EntryFor(path, cluster, 1);
    assert e[0] == e[..8][0];
  }

  // ---- A directory far out ----

  /** Cluster 65536 is an empty directory, and cluster 65537 the only free one. */
  function FarDirectory(): (fs: Fs)
    ensures |fs.fat| == |fs.data| == 65538 && WellFormed(fs, 128)
    ensures forall c :: 0 <= c < 65538 ==> fs.fat[c] == if c == 65537 then 0 else END_OF_CHAIN
    ensures forall c :: 0 <= c < 65538 ==> fs.data[c] == Repeat(0, 128)
  {
    Fs(seq(65538, c => if c == 65537 then 0 else END_OF_CHAIN), seq(65538, _ => Repeat(0, 128)))
  }

  lemma FarSpot()
    ensures var fs := FarDirectory();
      && Chain(fs.fat, [65536]) && Content(fs, [65536]) == Repeat(0, 128)
      && FindFree(Content(fs, [65536]), 0) == Hit(0) && FreeSpot(fs, [65536]) == At(65536, 0)
  {
    hide FarDirectory, Repeat;
    var fs := FarDirectory();
    assert Content(fs, [65536]) == fs.data[65536] + Content(fs, []);
    assert Slot(Repeat(0, 128), 0)[0] == 0;
    FirstFreeSlot(Repeat(0, 128), 0);
  }

  /** Its place is packed as 0, so the driver sees no free slot: a write returns -2, although the
      directory is empty and the data was stored. */
  lemma {:induction false} FarDirectoryFull(path: seq<byte>, bytes: seq<byte>)
    requires |bytes| == 128
    ensures var fs := FarDirectory();
      && SMALL.Valid() && WellFormed(fs, SMALL.cb) && Chain(fs.fat, [65536]) && RoundUp(1, SMALL.bps) <= |bytes|
      && Lands(FreeSpot(fs, [65536]), |fs.data|, SMALL)
      && WriteFile(fs, SMALL, [65536], path, bytes, 1).code == 0
      && WritePacked(fs, SMALL, [65536], path, bytes, 1).code == -2
  {
    hide FarDirectory, Repeat, WriteFile, WritePacked, FreeSpot, FindFree, Content, RoundUp, ClustersNeeded,
         FatPack.Pack, Times;
    var fs := FarDirectory();
    FarSpot();
    OneByte(0);
    FreeFromMembers(fs.fat, 2, 65537);
    assert SMALL.Valid();
    WriteCodes(fs, SMALL, [65536], path, bytes, 1);
    TimesIs(0x100, 128);
    LocationZeroIff(At(65536, 0), SMALL);
    FreeSlotMissedIff(fs, SMALL, [65536], path, bytes, 1);
  }
}
