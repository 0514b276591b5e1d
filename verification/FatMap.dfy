/** What FatWrite and FatRead promise together: a volume is a map from 8.3 names to byte strings,
    a write updates it at one name, and a run of writes never changes a file that is there. */
module FatMap {
  import opened Bytes
  import opened FatChains
  import opened FatDirectory
  import opened FatFiles

  /** The chain of a successful store holds the bytes that were given. */
  lemma {:induction false} StoredBytes(fs: Fs, g: Geometry, bytes: seq<byte>, size: dword)
    requires g.Valid() && WellFormed(fs, g.cb) && RoundUp(size, g.bps) <= |bytes|
    ensures var st := Store(fs, Pieces(bytes, size, g), 0);
      st.ok && st.chain != [] ==> Chain(st.fs.fat, st.chain) && Within(st.chain, |st.fs.data|)
                                  && Take(Content(st.fs, st.chain), size) == bytes[..size]
  {
    var pieces := Pieces(bytes, size, g);
    var st := Store(fs, pieces, 0);
    StoreChain(fs, pieces, 0);
    if st.ok && st.chain != [] {
      StoreAllocates(fs, pieces, 0);
      PiecesFit(bytes, size, g);
      StoreWellFormed(fs, g.cb, pieces, 0);
      forall i | 0 <= i < |st.chain|
        ensures pieces[i] <= st.fs.data[st.chain[i]]
      {
        StoreContent(fs, pieces, 0, i);
      }
      PiecesContent(st.fs, g, st.chain, bytes, size);
    }
  }

  /** A write returns -1 exactly when the file is empty or needs more clusters than are free, and
      -2 exactly when otherwise the directory has no free slot. The clusters it takes are the
      lowest free ones, as many as the file needs (or all, when that is not enough). */
  lemma {:induction false} WriteCodes(fs: Fs, g: Geometry, dir: seq<nat>, path: seq<byte>, bytes: seq<byte>,
          size: dword)
    requires g.Valid() && WellFormed(fs, g.cb) && Chain(fs.fat, dir) && RoundUp(size, g.bps) <= |bytes|
    ensures var w, free, need := WriteFile(fs, g, dir, path, bytes, size), FreeList(fs.fat), ClustersNeeded(size, g.cb);
      && (w.code == -1 <==> size == 0 || need > |free|)
      && (w.code == -2 <==> 0 < need <= |free| && FindFree(Content(fs, dir), 0) == Missed)
      && (w.code == 0 <==> 0 < need <= |free| && FindFree(Content(fs, dir), 0).Hit?)
      && (w.code == 0 ==> FindFree(Content(fs, dir), 0) == Hit(w.slot))
      && w.chain == free[..Min(need, |free|)]
      && FreeList(w.fs.fat) == free[|w.chain|..]
  {
    PiecesCount(bytes, size, g);
    StoreSucceedsIff(fs, Pieces(bytes, size, g));
    DirectoryStays(fs, g, dir, bytes, size);
  }

  /** The name of a new entry, found by a search that did not find it earlier, gives its bytes;
      every other name gives what it gave. */
  lemma {:induction false} PutUpdatesView(fs: Fs, g: Geometry, dir: seq<nat>, owned: map<nat, seq<nat>>, f: nat,
          e: seq<byte>, ch: seq<nat>, name: seq<byte>, ext: seq<byte>)
    requires Volume(fs, g, dir, owned) && |e| == SLOT && e[0] != 0 && e[11] == ARCHIVE
    requires FindFree(Content(fs, dir), 0) == Hit(f)
    requires Chain(fs.fat, ch) && Disjoint(ch, dir) && SlotCluster(e) == ch[0]
    requires forall j :: j in owned ==> Disjoint(ch, owned[j])
    requires |name| == 8 && |ext| == 3
    ensures var r, owners, was :=
        PutSlot(fs, dir, f, e), NewOwners(owned, f, e, ch), Find(Content(fs, dir), name, ext, 0);
      && Volume(r, g, dir, owners)
      && View(r, g, dir, owners, name, ext) ==
         if Names(e, name, ext) && !(was.Hit? && was.index < f) then File(Take(Content(fs, ch), SlotSize(e)))
         else View(fs, g, dir, owned, name, ext)
  {
    hide Content, PutSlot, Find, FindFree, ZeroTail, Slot, Take, SlotSize, SlotCluster;
    var content, r := Content(fs, dir), PutSlot(fs, dir, f, e);
    PutSlotContent(fs, g, dir, f, e);
    PutKeepsContents(fs, g, dir, owned, f, e, ch);
    PutKeepsVolume(fs, g, dir, owned, f, e, ch);
    var was := Find(content, name, ext, 0);
    if Names(e, name, ext) {
      InsertFindsNew(content, f, e, name, ext, 0);
    } else {
      InsertKeepsOthers(content, f, e, name, ext, 0);
    }
    if was.Hit? {
      InsertSlot(content, f, e, was.index);
    }
    InsertSlot(content, f, e, f);
  }

  /** FatWrite refines one update of the map: on success the written name gives the written
      bytes, unless a slot before the new one carries the same name; everything else, and
      everything after a failure, is unchanged. */
  lemma {:induction false} WriteUpdatesView(fs: Fs, g: Geometry, dir: seq<nat>, owned: map<nat, seq<nat>>,
          path: seq<byte>, bytes: seq<byte>, size: dword, name: seq<byte>, ext: seq<byte>)
    requires Volume(fs, g, dir, owned) && RoundUp(size, g.bps) <= |bytes| && 0 !in path
    requires |name| == 8 && |ext| == 3
    ensures var w := WriteFile(fs, g, dir, path, bytes, size);
      var owners, was := OwnersAfter(owned, path, size, w), Find(Content(fs, dir), name, ext, 0);
      && Volume(w.fs, g, dir, owners)
      && View(w.fs, g, dir, owners, name, ext) ==
         if w.code == 0 && Carries(path, name, ext) && !(was.Hit? && was.index < w.slot) then File(bytes[..size])
         else View(fs, g, dir, owned, name, ext)
  {
    var st := Store(fs, Pieces(bytes, size, g), 0);
    StoreKeepsVolume(fs, g, dir, owned, bytes, size);
    StoreKeepsView(fs, st.fs, g, dir, owned, name, ext);
    if st.ok && st.chain != [] {
      StoredBytes(fs, g, bytes, size);
      AddUpdatesView(st, g, dir, owned, path, bytes, size, name, ext);
    }
  }

  lemma StoreKeepsView(fs: Fs, fs': Fs, g: Geometry, dir: seq<nat>, owned: map<nat, seq<nat>>, name: seq<byte>,
          ext: seq<byte>)
    requires Volume(fs, g, dir, owned) && Volume(fs', g, dir, owned) && |name| == 8 && |ext| == 3
    requires Content(fs', dir) == Content(fs, dir)
    requires forall j :: j in owned ==> Content(fs', owned[j]) == Content(fs, owned[j])
    ensures View(fs', g, dir, owned, name, ext) == View(fs, g, dir, owned, name, ext)
  {
  }

  lemma {:induction false} EntryFacts(path: seq<byte>, cluster: nat, size: dword, name: seq<byte>, ext: seq<byte>)
    requires 0 !in path && cluster < WORD && |name| == 8 && |ext| == 3
    ensures var e := EntryFor(path, cluster, size);
      && e[0] != 0 && e[11] == ARCHIVE && SlotCluster(e) == cluster && SlotSize(e) == size
      && (Names(e, name, ext) <==> Carries(path, name, ext))
  {
    NameStarts(path);
    var e := EntryFor(path, cluster, size);
    assert e[0] == e[..8][0];
  }

  lemma {:induction false} AddUpdatesView(st: Stored, g: Geometry, dir: seq<nat>, owned: map<nat, seq<nat>>,
          path: seq<byte>, bytes: seq<byte>, size: dword, name: seq<byte>, ext: seq<byte>)
    requires Volume(st.fs, g, dir, owned) && 0 !in path && size <= |bytes|
    requires st.ok && st.chain != [] && Chain(st.fs.fat, st.chain) && Disjoint(st.chain, dir)
    requires forall j :: j in owned ==> Disjoint(st.chain, owned[j])
    requires Take(Content(st.fs, st.chain), size) == bytes[..size]
    requires |name| == 8 && |ext| == 3
    ensures var w := AddEntry(st, dir, path, size);
      var owners, was := OwnersAfter(owned, path, size, w), Find(Content(st.fs, dir), name, ext, 0);
      && Volume(w.fs, g, dir, owners)
      && View(w.fs, g, dir, owners, name, ext) ==
         if w.code == 0 && Carries(path, name, ext) && !(was.Hit? && was.index < w.slot) then File(bytes[..size])
         else View(st.fs, g, dir, owned, name, ext)
  {
    var w := AddEntry(st, dir, path, size);
    if w.code == 0 {
      var e := EntryFor(path, st.chain[0], size);
      EntryFacts(path, st.chain[0], size, name, ext);
      PutUpdatesView(st.fs, g, dir, owned, w.slot, e, st.chain, name, ext);
    }
  }

  /** A search for (name, ext) accepts the entry that FatWrite makes for `path`. */
  predicate Carries(path: seq<byte>, name: seq<byte>, ext: seq<byte>)
    requires |name| == 8 && |ext| == 3
  {
    Name8(path)[0] != 0 && Name8(path)[0] != UNUSED && SamePrefix(Name8(path), name) && SamePrefix(Ext3(path), ext)
  }

  lemma {:induction false} SamePrefixReflexive(a: seq<byte>)
    ensures SamePrefix(a, a)
  {
    if a != [] {
      SamePrefixReflexive(a[1..]);
    }
  }

  /** Reading what was written. After FatWrite(path) returned 0, reading FatConvert83(path) gives
      exactly the bytes written if no slot before the new one carries the name. It gives no file
      at all when the path starts with byte 0xE5, which marks unused slots. */
  lemma {:induction false} RoundTrip(fs: Fs, g: Geometry, dir: seq<nat>, owned: map<nat, seq<nat>>, path: seq<byte>,
          bytes: seq<byte>, size: dword)
    requires Volume(fs, g, dir, owned) && RoundUp(size, g.bps) <= |bytes| && 0 !in path
    requires WriteFile(fs, g, dir, path, bytes, size).code == 0
    ensures var w, was := WriteFile(fs, g, dir, path, bytes, size), Find(Content(fs, dir), Name8(path), Ext3(path), 0);
      var owners := OwnersAfter(owned, path, size, w);
      && Volume(w.fs, g, dir, owners)
      && View(w.fs, g, dir, owners, Name8(path), Ext3(path)) ==
         if path != [] && path[0] == UNUSED then Absent
         else if was.Hit? && was.index < w.slot then View(fs, g, dir, owned, Name8(path), Ext3(path))
         else File(bytes[..size])
  {
    WriteUpdatesView(fs, g, dir, owned, path, bytes, size, Name8(path), Ext3(path));
    NameStarts(path);
    SamePrefixReflexive(Name8(path));
    SamePrefixReflexive(Ext3(path));
  }

  // ---- Runs of writes ----

  datatype WriteRequest = WriteRequest(path: seq<byte>, bytes: seq<byte>, size: dword)

  predicate Writable(g: Geometry, q: WriteRequest) {
    g.Valid() && RoundUp(q.size, g.bps) <= |q.bytes| && 0 !in q.path
  }

  /** The volume after a sequence of FatWrite calls. */
  ghost function Run(fs: Fs, g: Geometry, dir: seq<nat>, owned: map<nat, seq<nat>>, qs: seq<WriteRequest>): (r: (Fs,
          map<nat, seq<nat>>))
    requires Volume(fs, g, dir, owned) && forall q :: q in qs ==> Writable(g, q)
    ensures Volume(r.0, g, dir, r.1)
    decreases |qs|
  {
    if qs == [] then (fs, owned)
    else
      assert qs[0] in qs && Writable(g, qs[0]);
      var w := WriteFile(fs, g, dir, qs[0].path, qs[0].bytes, qs[0].size);
      WriteKeepsVolume(fs, g, dir, owned, qs[0].path, qs[0].bytes, qs[0].size);
      Run(w.fs, g, dir, OwnersAfter(owned, qs[0].path, qs[0].size, w), qs[1..])
  }

  /** What the first successful write of the run under that name stored. */
  ghost function FirstWritten(fs: Fs, g: Geometry, dir: seq<nat>, owned: map<nat, seq<nat>>, qs: seq<WriteRequest>,
          name: seq<byte>, ext: seq<byte>): Lookup
    requires Volume(fs, g, dir, owned) && forall q :: q in qs ==> Writable(g, q)
    requires |name| == 8 && |ext| == 3
    decreases |qs|
  {
    if qs == [] then Absent
    else
      assert qs[0] in qs && Writable(g, qs[0]);
      var w := WriteFile(fs, g, dir, qs[0].path, qs[0].bytes, qs[0].size);
      WriteKeepsVolume(fs, g, dir, owned, qs[0].path, qs[0].bytes, qs[0].size);
      if w.code == 0 && Carries(qs[0].path, name, ext) then File(qs[0].bytes[..qs[0].size])
      else FirstWritten(w.fs, g, dir, OwnersAfter(owned, qs[0].path, qs[0].size, w), qs[1..], name, ext)
  }

  /** No slot of the directory was given back: the driver never deletes. */
  ghost predicate NoHoles(dir: seq<byte>) {
    forall j :: 0 <= j && SLOT * j + SLOT <= |dir| ==> Slot(dir, j)[0] != UNUSED
  }

  /** In such a directory names are found before the first free slot. */
  lemma {:induction false} FoundBeforeFree(dir: seq<byte>, name: seq<byte>, ext: seq<byte>, j: nat)
    requires |name| == 8 && |ext| == 3 && NoHoles(dir)
    requires Find(dir, name, ext, j).Hit? && FindFree(dir, j).Hit?
    ensures Find(dir, name, ext, j).index < FindFree(dir, j).index
    decreases |dir| - SLOT * j
  {
    if !Free(Slot(dir, j)) && !Names(Slot(dir, j), name, ext) {
      FoundBeforeFree(dir, name, ext, j + 1);
    }
  }

  lemma {:induction false} WriteKeepsNoHoles(fs: Fs, g: Geometry, dir: seq<nat>, path: seq<byte>, bytes: seq<byte>,
          size: dword)
    requires g.Valid() && WellFormed(fs, g.cb) && Chain(fs.fat, dir) && RoundUp(size, g.bps) <= |bytes|
    requires NoHoles(Content(fs, dir)) && Name8(path)[0] != UNUSED
    ensures var w := WriteFile(fs, g, dir, path, bytes, size);
      Within(dir, |w.fs.data|) && NoHoles(Content(w.fs, dir))
  {
    var st, w := Store(fs, Pieces(bytes, size, g), 0), WriteFile(fs, g, dir, path, bytes, size);
    DirectoryStays(fs, g, dir, bytes, size);
    if w.code == 0 {
      var e := EntryFor(path, st.chain[0], size);
      PutSlotContent(st.fs, g, dir, w.slot, e);
      forall j | 0 <= j && SLOT * j + SLOT <= |Content(w.fs, dir)|
        ensures Slot(Content(w.fs, dir), j)[0] != UNUSED
      {
        InsertSlot(Content(fs, dir), w.slot, e, j);
      }
    }
  }

  /** Over any run of writes, successful or not, a file that is there keeps its bytes, and a name
      that was absent gives what the first successful write under that name stored. */
  lemma {:induction false} FirstWriteWins(fs: Fs, g: Geometry, dir: seq<nat>, owned: map<nat, seq<nat>>,
          qs: seq<WriteRequest>, name: seq<byte>, ext: seq<byte>)
    requires Volume(fs, g, dir, owned) && forall q :: q in qs ==> Writable(g, q) && Name8(q.path)[0] != UNUSED
    requires NoHoles(Content(fs, dir)) && |name| == 8 && |ext| == 3
    ensures var (fs', owned') := Run(fs, g, dir, owned, qs);
      View(fs', g, dir, owned', name, ext) ==
      if View(fs, g, dir, owned, name, ext).File? then View(fs, g, dir, owned, name, ext)
      else FirstWritten(fs, g, dir, owned, qs, name, ext)
    decreases |qs|
  {
    if qs != [] {
      var q := qs[0];
      assert q in qs && Writable(g, q);
      var w, was := WriteFile(fs, g, dir, q.path, q.bytes, q.size), Find(Content(fs, dir), name, ext, 0);
      WriteUpdatesView(fs, g, dir, owned, q.path, q.bytes, q.size, name, ext);
      WriteCodes(fs, g, dir, q.path, q.bytes, q.size);
      if was.Hit? && w.code == 0 {
        FoundBeforeFree(Content(fs, dir), name, ext, 0);
      }
      WriteKeepsNoHoles(fs, g, dir, q.path, q.bytes, q.size);
      FirstWriteWins(w.fs, g, dir, OwnersAfter(owned, q.path, q.size, w), qs[1..], name, ext);
    }
  }
}
