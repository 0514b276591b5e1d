/** A client that writes any number of files and reads one back, on the disk. */
module FatSession {
  import opened Bytes
  import opened FatChains
  import opened FatClient
  import opened FatDirectory
  import opened FatDriver
  import opened FatFiles
  import opened FatGeometry
  import opened FatMap
  import opened FatPacked
  import opened FatRuns
  import opened FatSearch

  // ---- Slots that can be packed ----

  ghost function SpotAt(fs: Fs, dir: seq<nat>, j: nat): Spot
    requires Within(dir, |fs.data|) && SLOT * j + SLOT <= |Content(fs, dir)|
  {
    At(Place(fs, dir, SLOT * j).0, Place(fs, dir, SLOT * j).1)
  }

  /** The place of every free slot of the directory is packed without loss. */
  ghost predicate SlotsPack(fs: Fs, g: Geometry, dir: seq<nat>) {
    && g.Valid() && Within(dir, |fs.data|)
    && forall j: nat :: SLOT * j + SLOT <= |Content(fs, dir)| && Free(Slot(Content(fs, dir), j)) ==>
         Packable(SpotAt(fs, dir, j), g.bps)
  }

  lemma FirstPacks(fs: Fs, g: Geometry, dir: seq<nat>)
    requires SlotsPack(fs, g, dir) && WellFormed(fs, g.cb) && Chain(fs.fat, dir)
    ensures Packable(FreeSpot(fs, dir), g.bps)
  {
    hide Packable, Content, Slot, FindFree;
    FreeSpotIsFirst(fs, dir);
    var free := FindFree(Content(fs, dir), 0);
    if free.Hit? {
      assert FreeSpot(fs, dir) == SpotAt(fs, dir, free.index);
    } else {
      NowhereAtAll(FreeSpot(fs, dir), g.bps);
    }
  }

  lemma NowhereAtAll(spot: Spot, bps: nat)
    requires bps > 0 && spot == Nowhere
    ensures Packable(spot, bps)
  {
  }

  lemma {:induction false} PlaceSame(fs: Fs, fs': Fs, ch: seq<nat>, pos: nat)
    requires Within(ch, |fs.data|) && |fs'.data| == |fs.data| && pos < |Content(fs, ch)|
    requires forall x :: x in ch ==> |fs'.data[x]| == |fs.data[x]|
    ensures pos < |Content(fs', ch)| && Place(fs', ch, pos) == Place(fs, ch, pos)
    decreases |ch|
  {
    LengthSame(fs, fs', ch);
    if pos >= |fs.data[ch[0]]| {
      PlaceSame(fs, fs', ch[1..], pos - |fs.data[ch[0]]|);
    }
  }

  lemma {:induction false} LengthSame(fs: Fs, fs': Fs, ch: seq<nat>)
    requires Within(ch, |fs.data|) && |fs'.data| == |fs.data|
    requires forall x :: x in ch ==> |fs'.data[x]| == |fs.data[x]|
    ensures |Content(fs', ch)| == |Content(fs, ch)|
    decreases |ch|
  {
    if ch != [] {
      LengthSame(fs, fs', ch[1..]);
    }
  }

  /** A directory whose free slots are among those of another of the same clusters packs, too. */
  lemma FewerFreePack(fs: Fs, fs': Fs, g: Geometry, dir: seq<nat>)
    requires SlotsPack(fs, g, dir) && WellFormed(fs, g.cb) && WellFormed(fs', g.cb) && |fs'.data| == |fs.data|
    requires Chain(fs.fat, dir) && |Content(fs', dir)| == |Content(fs, dir)|
    requires forall j: nat :: SLOT * j + SLOT <= |Content(fs, dir)| && Free(Slot(Content(fs', dir), j)) ==>
               Free(Slot(Content(fs, dir), j))
    ensures SlotsPack(fs', g, dir)
  {
    hide Packable, Content, Slot, Free, Place;
    forall j: nat | SLOT * j + SLOT <= |Content(fs', dir)| && Free(Slot(Content(fs', dir), j))
      ensures Packable(SpotAt(fs', dir, j), g.bps)
    {
      assert Free(Slot(Content(fs, dir), j));
      PlaceSame(fs, fs', dir, SLOT * j);
      assert SpotAt(fs', dir, j) == SpotAt(fs, dir, j);
    }
  }

  /** A write fills a free slot and frees none. */
  lemma {:induction false} WriteKeepsPack(fs: Fs, g: Geometry, dir: seq<nat>, path: seq<byte>, bytes: seq<byte>,
          size: dword)
    requires SlotsPack(fs, g, dir) && WellFormed(fs, g.cb) && Chain(fs.fat, dir) && RoundUp(size, g.bps) <= |bytes|
    ensures SlotsPack(WriteFile(fs, g, dir, path, bytes, size).fs, g, dir)
  {
    hide SlotsPack, Store, Pieces, Content, Slot, FindFree, EntryFor, PutSlot, WellFormed;
    SlotsPackParts(fs, g, dir);
    DataLengths(fs, g.cb);
    var st, w := Store(fs, Pieces(bytes, size, g), 0), WriteFile(fs, g, dir, path, bytes, size);
    DirectoryStays(fs, g, dir, bytes, size);
    SameSize(fs, bytes, size, g);
    FewerFreePack(fs, st.fs, g, dir);
    if w.code == 0 {
      var e := EntryFor(path, st.chain[0], size);
      PutSlotContent(st.fs, g, dir, w.slot, e);
      forall j: nat | SLOT * j + SLOT <= |Content(st.fs, dir)| && Free(Slot(Content(w.fs, dir), j))
        ensures Free(Slot(Content(st.fs, dir), j))
      {
        InsertSlot(Content(st.fs, dir), w.slot, e, j);
      }
      FewerFreePack(st.fs, w.fs, g, dir);
    }
  }

  lemma SlotsPackParts(fs: Fs, g: Geometry, dir: seq<nat>)
    requires SlotsPack(fs, g, dir)
    ensures g.Valid() && Within(dir, |fs.data|)
  {
  }

  lemma SameSize(fs: Fs, bytes: seq<byte>, size: dword, g: Geometry)
    requires g.Valid() && WellFormed(fs, g.cb) && RoundUp(size, g.bps) <= |bytes|
    ensures |fs.fat| == |fs.data| && |Store(fs, Pieces(bytes, size, g), 0).fs.data| == |fs.data|
  {
  }

  // ---- Files without clusters ----

  /** The initial slots that carry a name either own chains or are empty: then `rests` says what
      FatRead walks for them, through clusters that are in use. */
  ghost predicate Readable(fs: Fs, dir: seq<nat>, owned: map<nat, seq<nat>>, rests: map<nat, seq<nat>>,
          name: seq<byte>, ext: seq<byte>)
    requires Within(dir, |fs.data|) && |name| == 8 && |ext| == 3
  {
    forall j: nat :: Carrying(Content(fs, dir), j, name, ext) && j !in owned ==>
      && j in rests && SlotSize(Slot(Content(fs, dir), j)) == 0
      && Follows(fs.fat, Slot(Content(fs, dir), j), rests[j])
      && forall x :: x in rests[j] ==> x < |fs.fat| && fs.fat[x] != 0
  }

  lemma FollowsSame(fat: seq<nat>, fat': seq<nat>, slot: Slot32, ch: seq<nat>)
    requires Follows(fat, slot, ch) && |fat'| == |fat| && forall x :: x in ch ==> x < |fat| && fat'[x] == fat[x]
    ensures Follows(fat', slot, ch)
  {
    assert forall i :: 0 <= i < |ch| ==> ch[i] in ch;
  }

  lemma {:induction false} StoreKeepsReadable(fs: Fs, pieces: seq<seq<byte>>, dir: seq<nat>,
          owned: map<nat, seq<nat>>, rests: map<nat, seq<nat>>, name: seq<byte>, ext: seq<byte>)
    requires |fs.data| == |fs.fat| && Chain(fs.fat, dir) && |name| == 8 && |ext| == 3
    requires Readable(fs, dir, owned, rests, name, ext)
    ensures Readable(Store(fs, pieces, 0).fs, dir, owned, rests, name, ext)
  {
    hide Store, Follows, SlotSize, Slot, Names;
    var r := Store(fs, pieces, 0).fs;
    StoreKeeps(fs, pieces, dir);
    StoreTakesFree(fs, pieces, 0);
    forall j: nat | Carrying(Content(r, dir), j, name, ext) && j !in owned
      ensures Follows(r.fat, Slot(Content(r, dir), j), rests[j])
      ensures forall x :: x in rests[j] ==> r.fat[x] != 0
    {
      forall x | x in rests[j]
        ensures r.fat[x] == fs.fat[x]
      {
        StoreFrame(fs, pieces, 0, x);
      }
      FollowsSame(fs.fat, r.fat, Slot(Content(fs, dir), j), rests[j]);
    }
  }

  lemma {:induction false} WriteKeepsReadable(fs: Fs, g: Geometry, dir: seq<nat>, owned: map<nat, seq<nat>>,
          rests: map<nat, seq<nat>>, path: seq<byte>, bytes: seq<byte>, size: dword, name: seq<byte>, ext: seq<byte>)
    requires Volume(fs, g, dir, owned) && RoundUp(size, g.bps) <= |bytes| && 0 !in path
    requires |name| == 8 && |ext| == 3 && Readable(fs, dir, owned, rests, name, ext)
    ensures var w := WriteFile(fs, g, dir, path, bytes, size);
      Within(dir, |w.fs.data|) && Readable(w.fs, dir, OwnersAfter(owned, path, size, w), rests, name, ext)
  {
    hide Store, Pieces, Follows, SlotSize, Slot, EntryFor, PutSlot, Content, FindFree, Names, IsFile;
    var st, w := Store(fs, Pieces(bytes, size, g), 0), WriteFile(fs, g, dir, path, bytes, size);
    DirectoryStays(fs, g, dir, bytes, size);
    StoreKeepsReadable(fs, Pieces(bytes, size, g), dir, owned, rests, name, ext);
    if w.code == 0 {
      var e := EntryFor(path, st.chain[0], size);
      PutSlotContent(st.fs, g, dir, w.slot, e);
      NamedIsFile(e, name, ext);
      forall j: nat | Carrying(Content(w.fs, dir), j, name, ext) && j != w.slot
        ensures Carrying(Content(st.fs, dir), j, name, ext)
        ensures Slot(Content(w.fs, dir), j) == Slot(Content(st.fs, dir), j)
      {
        InsertSlot(Content(st.fs, dir), w.slot, e, j);
      }
      InsertSlot(Content(st.fs, dir), w.slot, e, w.slot);
    }
  }

  lemma NamedIsFile(e: seq<byte>, name: seq<byte>, ext: seq<byte>)
    requires |e| == SLOT && e[11] == ARCHIVE && |name| == 8 && |ext| == 3
    ensures Names(e, name, ext) ==> IsFile(e)
  {
  }

  // ---- The session ----

  /** What FatRead reports for a lookup. */
  ghost predicate Reports(r: ReadResult, seen: Lookup)
    reads if r.Buffer? then {r.data} else {}
  {
    match seen
    case Absent => r == NoFile
    case File(bytes) => if |bytes| == 0xFFFF_FFFF then r == Panicked else r.Buffer? && r.data[..] == bytes + [0]
  }

  /** A volume on which the directory's slots can be packed and the name can be read. */
  ghost predicate Ready(fs: Fs, g: Geometry, dir: seq<nat>, owned: map<nat, seq<nat>>, rests: map<nat, seq<nat>>,
          name: seq<byte>, ext: seq<byte>)
    requires |name| == 8 && |ext| == 3
  {
    Volume(fs, g, dir, owned) && SlotsPack(fs, g, dir) && Readable(fs, dir, owned, rests, name, ext)
  }

  /** What the writes of a run return. */
  ghost function RunCodes(fs: Fs, g: Geometry, dir: seq<nat>, owned: map<nat, seq<nat>>, qs: seq<WriteRequest>)
    : seq<int>
    requires Volume(fs, g, dir, owned) && forall q :: q in qs ==> Writable(g, q)
    decreases |qs|
  {
    if qs == [] then []
    else
      assert qs[0] in qs && Writable(g, qs[0]);
      var w := WriteFile(fs, g, dir, qs[0].path, qs[0].bytes, qs[0].size);
      WriteKeepsVolume(fs, g, dir, owned, qs[0].path, qs[0].bytes, qs[0].size);
      [w.code] + RunCodes(w.fs, g, dir, OwnersAfter(owned, qs[0].path, qs[0].size, w), qs[1..])
  }

  /** Any number of FatWrite calls are the run of writes on the volume. */
  method WriteAll(d: Driver, qs: seq<WriteRequest>, parent: Parent, ghost dir: seq<nat>,
          ghost owned: map<nat, seq<nat>>, ghost rests: map<nat, seq<nat>>, ghost name: seq<byte>, ghost ext: seq<byte>)
    returns (codes: seq<int>, ghost owners: map<nat, seq<nat>>)
    requires d.Valid() && |name| == 8 && |ext| == 3 && dir != [] && dir[0] == d.ParentCluster(parent)
    requires Ready(d.Files(), d.Lay().g, dir, owned, rests, name, ext)
    requires forall q :: q in qs ==> Writable(d.Lay().g, q)
    modifies d.drive`fileOffset, d.drive.media
    ensures (d.Files(), owners) == Run(old(d.Files()), d.Lay().g, dir, owned, qs)
    ensures codes == RunCodes(old(d.Files()), d.Lay().g, dir, owned, qs)
    ensures Ready(d.Files(), d.Lay().g, dir, owners, rests, name, ext)
    decreases |qs|
  {
    hide Volume, SlotsPack, Readable, WriteFile, Run, RunCodes, OwnersAfter, Driver.Valid, Driver.Lay, Driver.Files,
         RoundUp, WellFormed, Chain, Packable, FreeSpot;
    ghost var g, now := d.Lay().g, d.Files();
    if qs == [] {
      RunEnds(now, g, dir, owned, qs);
      return [], owned;
    }
    var q := qs[0];
    ReadyStep(now, g, dir, owned, rests, name, ext, qs);
    var code := WriteOne(d, q, parent, dir);
    ghost var next := OwnersAfter(owned, q.path, q.size, WriteFile(now, g, dir, q.path, q.bytes, q.size));
    codes, owners := WriteAll(d, qs[1..], parent, dir, next, rests, name, ext);
    codes := [code] + codes;
  }

  lemma RunEnds(fs: Fs, g: Geometry, dir: seq<nat>, owned: map<nat, seq<nat>>, qs: seq<WriteRequest>)
    requires Volume(fs, g, dir, owned) && qs == []
    ensures Run(fs, g, dir, owned, qs) == (fs, owned) && RunCodes(fs, g, dir, owned, qs) == []
  {
  }

  lemma {:induction false} ReadyStep(fs: Fs, g: Geometry, dir: seq<nat>, owned: map<nat, seq<nat>>,
          rests: map<nat, seq<nat>>, name: seq<byte>, ext: seq<byte>, qs: seq<WriteRequest>)
    requires |name| == 8 && |ext| == 3 && Ready(fs, g, dir, owned, rests, name, ext)
    requires qs != [] && forall q :: q in qs ==> Writable(g, q)
    ensures Writable(g, qs[0]) && WellFormed(fs, g.cb) && Chain(fs.fat, dir) && Packable(FreeSpot(fs, dir), g.bps)
    ensures var w := WriteFile(fs, g, dir, qs[0].path, qs[0].bytes, qs[0].size);
      var owners := OwnersAfter(owned, qs[0].path, qs[0].size, w);
      && Ready(w.fs, g, dir, owners, rests, name, ext)
      && Run(fs, g, dir, owned, qs) == Run(w.fs, g, dir, owners, qs[1..])
      && RunCodes(fs, g, dir, owned, qs) == [w.code] + RunCodes(w.fs, g, dir, owners, qs[1..])
  {
    hide SlotsPack, Readable, WriteFile, OwnersAfter, Packable;
    var q := qs[0];
    assert q in qs;
    WriteKeepsVolume(fs, g, dir, owned, q.path, q.bytes, q.size);
    WriteKeepsPack(fs, g, dir, q.path, q.bytes, q.size);
    WriteKeepsReadable(fs, g, dir, owned, rests, q.path, q.bytes, q.size, name, ext);
    FirstPacks(fs, g, dir);
  }

  /** FatWrite of a request whose bytes are put into a buffer. */
  method WriteOne(d: Driver, q: WriteRequest, parent: Parent, ghost dir: seq<nat>) returns (code: int)
    requires d.Valid() && Writable(d.Lay().g, q) && WellFormed(d.Files(), d.Lay().g.cb)
    requires Chain(d.Files().fat, dir) && dir[0] == d.ParentCluster(parent)
    requires Packable(FreeSpot(d.Files(), dir), d.Lay().g.bps)
    modifies d.drive`fileOffset, d.drive.media
    ensures var w := WriteFile(old(d.Files()), d.Lay().g, dir, q.path, q.bytes, q.size);
      d.Files() == w.fs && code == w.code
  {
    hide WriteFile, WritePacked, Packable, RoundUp, WellFormed, Driver.Valid;
    var data := new byte[|q.bytes|](k requires 0 <= k < |q.bytes| => q.bytes[k]);
    assert data[..] == q.bytes;
    code := d.FatWrite(q.path, data, q.size, parent, dir);
  }

  /** The run law on the disk: after any number of writes, whatever they return, reading a name
      gives the bytes of the lowest slot that carries it, be it an initial one or that of a write
      which returned 0. */
  method WriteAllThenRead(d: Driver, qs: seq<WriteRequest>, name: seq<byte>, ext: seq<byte>, parent: Parent,
          ghost dir: seq<nat>, ghost owned: map<nat, seq<nat>>, ghost rests: map<nat, seq<nat>>)
    returns (r: ReadResult, ghost seen: Lookup)
    requires d.Valid() && |name| == 8 && |ext| == 3
    requires dir != [] && dir[0] == d.ParentCluster(parent) && d.IsDirectory(parent)
    requires Ready(d.Files(), d.Lay().g, dir, owned, rests, name, ext)
    requires forall q :: q in qs ==> Writable(d.Lay().g, q)
    modifies d.drive`fileOffset, d.drive.media
    ensures var fs, g := old(d.Files()), d.Lay().g;
      && seen == View(Run(fs, g, dir, owned, qs).0, g, dir, Run(fs, g, dir, owned, qs).1, name, ext)
      && GivesLowest(HeldAfter(fs, g, dir, owned, qs, name, ext, Holders(fs, g, dir, owned, name, ext)), seen)
    ensures Reports(r, seen)
  {
    hide Volume, SlotsPack, Readable, Writable, Run, Driver.Valid, Driver.Lay, Driver.Files, Driver.IsDirectory, View;
    ghost var fs, g := d.Files(), d.Lay().g;
    var codes, owners := WriteAll(d, qs, parent, dir, owned, rests, name, ext);
    RunLaw(fs, g, dir, owned, qs, name, ext);
    seen := View(d.Files(), g, dir, owners, name, ext);
    HitReadable(d.Files(), g, dir, owners, rests, name, ext);
    ghost var hit := Find(Content(d.Files(), dir), name, ext, 0);
    r := ReadView(d, name, ext, parent, dir, owners, if hit.Hit? && hit.index in rests then rests[hit.index] else []);
  }

  lemma HitReadable(fs: Fs, g: Geometry, dir: seq<nat>, owned: map<nat, seq<nat>>, rests: map<nat, seq<nat>>,
          name: seq<byte>, ext: seq<byte>)
    requires Volume(fs, g, dir, owned) && |name| == 8 && |ext| == 3 && Readable(fs, dir, owned, rests, name, ext)
    ensures Within(dir, |fs.data|)
    ensures var hit := Find(Content(fs, dir), name, ext, 0);
      hit.Hit? && hit.index !in owned ==>
        && hit.index in rests && SlotSize(Slot(Content(fs, dir), hit.index)) == 0
        && Follows(fs.fat, Slot(Content(fs, dir), hit.index), rests[hit.index])
  {
    hide Follows, SlotSize, Slot, Names;
    var hit := Find(Content(fs, dir), name, ext, 0);
    if hit.Hit? {
      assert Carrying(Content(fs, dir), hit.index, name, ext);
    }
  }
}
