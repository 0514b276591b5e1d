/** FatWrite and FatRead together, on the disk: what was written is what is read back. */
module FatClient {
  import opened Arith
  import opened Bytes
  import opened FatChains
  import opened FatDirectory
  import opened FatDisk
  import opened FatDriver
  import opened FatFiles
  import opened FatGeometry
  import opened FatMap
  import opened FatPacked
  import opened FatSearch

  /** The walk from an entry's first cluster that goes with a file's chain. */
  lemma OwnedFollows(fs: Fs, g: Geometry, dir: seq<nat>, owned: map<nat, seq<nat>>, j: nat)
    requires Volume(fs, g, dir, owned) && |fs.fat| < END_OF_CHAIN && j in owned
    requires SLOT * j + SLOT <= |Content(fs, dir)|
    ensures Follows(fs.fat, Slot(Content(fs, dir), j), owned[j])
  {
    assert HasChain(Content(fs, dir), j);
  }

  /** On a volume FatRead gives what the map gives: the file's bytes and a NUL. An entry without a
      chain of its own must be empty; `rest` is what FatRead then walks. */
  method ReadView(d: Driver, name: seq<byte>, ext: seq<byte>, parent: Parent, ghost dir: seq<nat>,
          ghost owned: map<nat, seq<nat>>, ghost rest: seq<nat>)
    returns (r: ReadResult)
    requires d.Valid() && |name| == 8 && |ext| == 3
    requires Volume(d.Files(), d.Lay().g, dir, owned) && dir[0] == d.ParentCluster(parent) && d.IsDirectory(parent)
    requires var content := Content(d.Files(), dir);
             var hit := Find(content, name, ext, 0);
             hit.Hit? && hit.index !in owned ==>
             SlotSize(Slot(content, hit.index)) == 0 && Follows(d.Files().fat, Slot(content, hit.index), rest)
    modifies d.drive`fileOffset
    ensures match View(d.Files(), d.Lay().g, dir, owned, name, ext)
      case Absent => r == NoFile
      case File(bytes) =>
        if |bytes| == 0xFFFF_FFFF then r == Panicked
        else r.Buffer? && fresh(r.data) && r.data[..] == bytes + [0]
  {
    hide Content, WellFormed, ZeroTail, Owns, Separate, LayoutOf, ValidVolume, Abs, Driver.Valid, Follows, Slot;
    var hit := Find(Content(d.Files(), dir), name, ext, 0);
    if hit.Hit? && hit.index in owned {
      OwnedFollows(d.Files(), d.Lay().g, dir, owned, hit.index);
    }
    r := d.FatRead(name, ext, parent, dir, if hit.Hit? && hit.index in owned then owned[hit.index] else rest);
  }

  /** No slot before the one that a new entry will fill carries the name. */
  ghost predicate Fresh(content: seq<byte>, path: seq<byte>) {
    var was, free := Find(content, Name8(path), Ext3(path), 0), FindFree(content, 0);
    was.Hit? && free.Hit? ==> was.index >= free.index
  }

  /** After a successful write the search for its name ends at the new entry, whose file is the
      chain that was written, unless an earlier slot carries the name or the name marks the entry
      as unused. */
  lemma {:induction false} WrittenFound(fs: Fs, g: Geometry, dir: seq<nat>, owned: map<nat, seq<nat>>,
          path: seq<byte>, bytes: seq<byte>, size: dword)
    requires Volume(fs, g, dir, owned) && RoundUp(size, g.bps) <= |bytes| && 0 !in path
    requires (path == [] || path[0] != UNUSED) && Fresh(Content(fs, dir), path)
    requires WriteFile(fs, g, dir, path, bytes, size).code == 0
    ensures var w := WriteFile(fs, g, dir, path, bytes, size);
      && Within(dir, |w.fs.data|)
      && Find(Content(w.fs, dir), Name8(path), Ext3(path), 0) == Hit(w.slot)
      && w.slot in OwnersAfter(owned, path, size, w)
  {
    hide Store, Pieces, Content, Find, FindFree, PutSlot, Name8, Ext3, EntryFor, ZeroTail, Owns, Separate, RoundUp;
    var st, w := Store(fs, Pieces(bytes, size, g), 0), WriteFile(fs, g, dir, path, bytes, size);
    StoreKeepsVolume(fs, g, dir, owned, bytes, size);
    NameStarts(path);
    SamePrefixReflexive(Name8(path));
    SamePrefixReflexive(Ext3(path));
    EntryFound(st, g, dir, path, size, w.slot);
  }

  lemma {:induction false} EntryFound(st: Stored, g: Geometry, dir: seq<nat>, path: seq<byte>, size: dword, f: nat)
    requires g.Valid() && WellFormed(st.fs, g.cb) && Chain(st.fs.fat, dir) && 0 !in path
    requires st.chain != [] && Carries(path, Name8(path), Ext3(path)) && FindFree(Content(st.fs, dir), 0) == Hit(f)
    requires Fresh(Content(st.fs, dir), path)
    ensures var e := EntryFor(path, st.chain[0], size);
      && IsFile(e) && Within(dir, |st.fs.data|)
      && Find(Content(PutSlot(st.fs, dir, f, e), dir), Name8(path), Ext3(path), 0) == Hit(f)
  {
    hide Content, PutSlot, Insert, Slot, Name8, Ext3, SlotCluster, SlotSize, SamePrefix, MakeSlot, Find, FindFree;
    var e := EntryFor(path, st.chain[0], size);
    EntryFacts(path, Wrap(st.chain[0]), size, Name8(path), Ext3(path));
    PutSlotContent(st.fs, g, dir, f, e);
    InsertFindsNew(Content(st.fs, dir), f, e, Name8(path), Ext3(path), 0);
  }

  /** A volume below 4 GB has no room for a file of 2^32 - 1 bytes. */
  lemma {:induction false} WriteFits(fs: Fs, l: Layout, len: nat, dir: seq<nat>, path: seq<byte>, bytes: seq<byte>,
          size: dword)
    requires l.Valid(len) && |fs.fat| == l.n && WellFormed(fs, l.g.cb) && Chain(fs.fat, dir)
    requires RoundUp(size, l.g.bps) <= |bytes|
    ensures WriteFile(fs, l.g, dir, path, bytes, size).code == 0 ==> size < 0xFFFF_FFFF
  {
    hide WriteFile, ClustersNeeded, FreeList, Times, RoundUp, WellFormed;
    var need := ClustersNeeded(size, l.g.cb);
    WriteCodes(fs, l.g, dir, path, bytes, size);
    FreeCount(fs.fat);
    NeededIsCeiling(size, l.g.cb);
    if need <= l.n - 2 {
      TimesIs(need, l.g.cb);
      TimesMonotone(need, l.n - 2, l.g.cb);
    }
  }

  lemma FreeCount(fat: seq<nat>)
    requires |fat| >= 2
    ensures |FreeList(fat)| <= |fat| - 2
  {
    FreeFromCount(fat, 2);
  }

  /** Writing a file and reading it by its converted name gives back exactly its bytes, for every
      content, cluster size and layout of the free clusters, when the write returns 0 and no slot
      before the new one carries the same name. */
  method WriteThenRead(d: Driver, path: seq<byte>, data: array<byte>, size: dword, parent: Parent,
          ghost dir: seq<nat>, ghost owned: map<nat, seq<nat>>)
    returns (code: int, r: ReadResult)
    requires d.Valid() && data != d.drive.media && 0 !in path && (path == [] || path[0] != UNUSED)
    requires Volume(d.Files(), d.Lay().g, dir, owned) && dir[0] == d.ParentCluster(parent) && d.IsDirectory(parent)
    requires RoundUp(size, d.Lay().g.bps) <= data.Length
    requires Packable(FreeSpot(d.Files(), dir), d.Lay().g.bps)
    requires Fresh(Content(d.Files(), dir), path)
    modifies d.drive`fileOffset, d.drive.media
    ensures code == WriteFile(old(d.Files()), d.Lay().g, dir, path, old(data[..]), size).code
    ensures code == 0 ==> r.Buffer? && r.data[..] == old(data[..size]) + [0]
  {
    hide WriteFile, View, Find, Content, RoundUp, Name8, Ext3, OwnersAfter, WellFormed, ZeroTail, Owns, Separate,
         LayoutOf, ValidVolume, Kept, Abs, Driver.Valid, Layout.Valid, Fresh, WritePacked, FreeSpot, Packable;
    ghost var fs, l, bytes := d.Files(), d.Lay(), data[..];
    code := d.FatWrite(path, data, size, parent, dir);
    ghost var w := WriteFile(fs, l.g, dir, path, bytes, size);
    r := NoFile;
    if code == 0 {
      WriteFits(fs, l, d.drive.media.Length, dir, path, bytes, size);
      WrittenFound(fs, l.g, dir, owned, path, bytes, size);
      WrittenView(fs, l.g, dir, owned, path, bytes, size);
      r := ReadView(d, Name8(path), Ext3(path), parent, dir, OwnersAfter(owned, path, size, w), []);
    }
  }

  lemma {:induction false} WrittenView(fs: Fs, g: Geometry, dir: seq<nat>, owned: map<nat, seq<nat>>,
          path: seq<byte>, bytes: seq<byte>, size: dword)
    requires Volume(fs, g, dir, owned) && RoundUp(size, g.bps) <= |bytes| && 0 !in path
    requires (path == [] || path[0] != UNUSED) && Fresh(Content(fs, dir), path)
    requires WriteFile(fs, g, dir, path, bytes, size).code == 0
    ensures var w := WriteFile(fs, g, dir, path, bytes, size);
      var owners := OwnersAfter(owned, path, size, w);
      Volume(w.fs, g, dir, owners) && View(w.fs, g, dir, owners, Name8(path), Ext3(path)) == File(bytes[..size])
  {
    hide WriteFile, View, Find, FindFree, Content, RoundUp, Name8, Ext3, OwnersAfter, WellFormed, ZeroTail, Owns,
        Separate;
    WriteCodes(fs, g, dir, path, bytes, size);
    RoundTrip(fs, g, dir, owned, path, bytes, size);
  }
}
