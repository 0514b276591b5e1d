/** Runs of FatWrite: what the names of a directory give after any sequence of writes. */
module FatRuns {
  import opened Bytes
  import opened FatChains
  import opened FatDirectory
  import opened FatFiles
  import opened FatMap

  /** The slots that carry a name, each with the bytes of its file. */
  ghost function Holders(fs: Fs, g: Geometry, dir: seq<nat>, owned: map<nat, seq<nat>>, name: seq<byte>,
          ext: seq<byte>): (r: map<nat, seq<byte>>)
    requires Volume(fs, g, dir, owned) && |name| == 8 && |ext| == 3
    ensures forall j: nat :: Carrying(Content(fs, dir), j, name, ext) ==> j in r
    ensures forall j: nat :: j in r ==> Carrying(Content(fs, dir), j, name, ext) && r[j] == FileBytes(fs, dir, owned, j)
  {
    assert forall j: nat :: Carrying(Content(fs, dir), j, name, ext) ==> j < |Content(fs, dir)|;
    map j: nat | j < |Content(fs, dir)| && Carrying(Content(fs, dir), j, name, ext) :: FileBytes(fs, dir, owned, j)
  }

  predicate Carrying(content: seq<byte>, j: nat, name: seq<byte>, ext: seq<byte>)
    requires |name| == 8 && |ext| == 3
  {
    SLOT * j + SLOT <= |content| && Names(Slot(content, j), name, ext)
  }

  /** The lowest slot decides; without one the name is absent. */
  ghost predicate GivesLowest(holders: map<nat, seq<byte>>, r: Lookup) {
    match r
    case Absent => holders == map[]
    case File(bytes) => exists j :: j in holders && holders[j] == bytes && forall k :: k in holders ==> j <= k
  }

  lemma {:induction false} FindIsLowest(dir: seq<byte>, name: seq<byte>, ext: seq<byte>, j: nat)
    requires |name| == 8 && |ext| == 3 && ZeroTail(dir)
    ensures var r := Find(dir, name, ext, j);
      forall k: nat :: j <= k && Carrying(dir, k, name, ext) ==> r.Hit? && r.index <= k
    decreases |dir| - SLOT * j
  {
    if SLOT * j + SLOT <= |dir| {
      if Slot(dir, j)[0] == 0 {
        assert forall k :: j <= k && SLOT * k + SLOT <= |dir| ==> Slot(dir, k)[0] == 0;
      } else if !Names(Slot(dir, j), name, ext) {
        FindIsLowest(dir, name, ext, j + 1);
      }
    }
  }

  /** Reading a name gives the file of the lowest slot that carries it. */
  lemma {:induction false} ViewIsLowest(fs: Fs, g: Geometry, dir: seq<nat>, owned: map<nat, seq<nat>>, name: seq<byte>,
          ext: seq<byte>)
    requires Volume(fs, g, dir, owned) && |name| == 8 && |ext| == 3
    ensures GivesLowest(Holders(fs, g, dir, owned, name, ext), View(fs, g, dir, owned, name, ext))
  {
    hide Holders, ZeroTail, Owns, Separate, Content, FileBytes, Names;
    var h, r := Holders(fs, g, dir, owned, name, ext), Find(Content(fs, dir), name, ext, 0);
    FindIsLowest(Content(fs, dir), name, ext, 0);
    if r.Hit? {
      assert Carrying(Content(fs, dir), r.index, name, ext);
      assert r.index in h;
    } else {
      assert forall j :: j in h ==> Carrying(Content(fs, dir), j, name, ext);
      assert h == map[];
    }
  }

  /** A write adds its slot, with its bytes, to the slots of the name it carries, and changes no
      other slot. */
  lemma {:induction false} WriteUpdatesHolders(fs: Fs, g: Geometry, dir: seq<nat>, owned: map<nat, seq<nat>>,
          path: seq<byte>, bytes: seq<byte>, size: dword, name: seq<byte>, ext: seq<byte>)
    requires Volume(fs, g, dir, owned) && RoundUp(size, g.bps) <= |bytes| && 0 !in path
    requires |name| == 8 && |ext| == 3
    ensures var w := WriteFile(fs, g, dir, path, bytes, size);
      var owners, h := OwnersAfter(owned, path, size, w), Holders(fs, g, dir, owned, name, ext);
      && Volume(w.fs, g, dir, owners)
      && Holders(w.fs, g, dir, owners, name, ext) ==
         if w.code == 0 && Carries(path, name, ext) then h[w.slot := bytes[..size]] else h
  {
    var st := Store(fs, Pieces(bytes, size, g), 0);
    StoreKeepsVolume(fs, g, dir, owned, bytes, size);
    StoreKeepsHolders(fs, st.fs, g, dir, owned, name, ext);
    if st.ok && st.chain != [] {
      StoredBytes(fs, g, bytes, size);
      AddUpdatesHolders(st, g, dir, owned, path, bytes, size, name, ext);
    }
  }

  lemma StoreKeepsHolders(fs: Fs, fs': Fs, g: Geometry, dir: seq<nat>, owned: map<nat, seq<nat>>, name: seq<byte>,
          ext: seq<byte>)
    requires Volume(fs, g, dir, owned) && Volume(fs', g, dir, owned) && |name| == 8 && |ext| == 3
    requires Content(fs', dir) == Content(fs, dir)
    requires forall j :: j in owned ==> Content(fs', owned[j]) == Content(fs, owned[j])
    ensures Holders(fs', g, dir, owned, name, ext) == Holders(fs, g, dir, owned, name, ext)
  {
  }

  lemma {:induction false} AddUpdatesHolders(st: Stored, g: Geometry, dir: seq<nat>, owned: map<nat, seq<nat>>,
          path: seq<byte>, bytes: seq<byte>, size: dword, name: seq<byte>, ext: seq<byte>)
    requires Volume(st.fs, g, dir, owned) && 0 !in path && size <= |bytes|
    requires st.ok && st.chain != [] && Chain(st.fs.fat, st.chain) && Disjoint(st.chain, dir)
    requires forall j :: j in owned ==> Disjoint(st.chain, owned[j])
    requires Take(Content(st.fs, st.chain), size) == bytes[..size]
    requires |name| == 8 && |ext| == 3
    ensures var w := AddEntry(st, dir, path, size);
      var owners, h := OwnersAfter(owned, path, size, w), Holders(st.fs, g, dir, owned, name, ext);
      && Volume(w.fs, g, dir, owners)
      && Holders(w.fs, g, dir, owners, name, ext) ==
         if w.code == 0 && Carries(path, name, ext) then h[w.slot := bytes[..size]] else h
  {
    var w := AddEntry(st, dir, path, size);
    if w.code == 0 {
      var e := EntryFor(path, st.chain[0], size);
      EntryFacts(path, st.chain[0], size, name, ext);
      PutUpdatesHolders(st.fs, g, dir, owned, w.slot, e, st.chain, name, ext);
    }
  }

  lemma {:induction false} PutUpdatesHolders(fs: Fs, g: Geometry, dir: seq<nat>, owned: map<nat, seq<nat>>, f: nat,
          e: seq<byte>, ch: seq<nat>, name: seq<byte>, ext: seq<byte>)
    requires Volume(fs, g, dir, owned) && |e| == SLOT && e[0] != 0 && e[11] == ARCHIVE
    requires FindFree(Content(fs, dir), 0) == Hit(f)
    requires Chain(fs.fat, ch) && Disjoint(ch, dir) && SlotCluster(e) == ch[0]
    requires forall j :: j in owned ==> Disjoint(ch, owned[j])
    requires |name| == 8 && |ext| == 3
    ensures var r, owners, h :=
        PutSlot(fs, dir, f, e), NewOwners(owned, f, e, ch), Holders(fs, g, dir, owned, name, ext);
      && Volume(r, g, dir, owners)
      && Holders(r, g, dir, owners, name, ext) ==
         if Names(e, name, ext) then h[f := Take(Content(fs, ch), SlotSize(e))] else h
  {
    hide Content, PutSlot, Find, FindFree, ZeroTail, Slot, Take, SlotSize, SlotCluster, Holders, Owns, Separate;
    var content, r := Content(fs, dir), PutSlot(fs, dir, f, e);
    var owners := NewOwners(owned, f, e, ch);
    PutSlotContent(fs, g, dir, f, e);
    PutKeepsContents(fs, g, dir, owned, f, e, ch);
    PutKeepsVolume(fs, g, dir, owned, f, e, ch);
    var h, now := Holders(fs, g, dir, owned, name, ext), Holders(r, g, dir, owners, name, ext);
    var goal := if Names(e, name, ext) then h[f := Take(Content(fs, ch), SlotSize(e))] else h;
    forall j: nat
      ensures j in now <==> j in goal
      ensures j in now ==> now[j] == goal[j]
    {
      if SLOT * j + SLOT <= |content| {
        InsertSlot(content, f, e, j);
      }
    }
  }

  // ---- Runs ----

  /** The slots of a name after a run: the initial ones and those of the successful writes. */
  ghost function HeldAfter(fs: Fs, g: Geometry, dir: seq<nat>, owned: map<nat, seq<nat>>, qs: seq<WriteRequest>,
          name: seq<byte>, ext: seq<byte>, h: map<nat, seq<byte>>): map<nat, seq<byte>>
    requires Volume(fs, g, dir, owned) && forall q :: q in qs ==> Writable(g, q)
    requires |name| == 8 && |ext| == 3
    decreases |qs|
  {
    if qs == [] then h
    else
      assert qs[0] in qs && Writable(g, qs[0]);
      var q := qs[0];
      var w := WriteFile(fs, g, dir, q.path, q.bytes, q.size);
      WriteKeepsVolume(fs, g, dir, owned, q.path, q.bytes, q.size);
      HeldAfter(w.fs, g, dir, OwnersAfter(owned, q.path, q.size, w), qs[1..], name, ext,
                if w.code == 0 && Carries(q.path, name, ext) then h[w.slot := q.bytes[..q.size]] else h)
  }

  /** Over every run of writes, on every volume, a name gives the bytes of the lowest slot that
      carries it, be it an initial one or that of a successful write. */
  lemma {:induction false} RunLaw(fs: Fs, g: Geometry, dir: seq<nat>, owned: map<nat, seq<nat>>, qs: seq<WriteRequest>,
          name: seq<byte>, ext: seq<byte>)
    requires Volume(fs, g, dir, owned) && forall q :: q in qs ==> Writable(g, q)
    requires |name| == 8 && |ext| == 3
    ensures var (fs', owned') := Run(fs, g, dir, owned, qs);
      GivesLowest(HeldAfter(fs, g, dir, owned, qs, name, ext, Holders(fs, g, dir, owned, name, ext)),
                  View(fs', g, dir, owned', name, ext))
    decreases |qs|
  {
    if qs == [] {
      ViewIsLowest(fs, g, dir, owned, name, ext);
    } else {
      var q := qs[0];
      assert q in qs && Writable(g, q);
      var w := WriteFile(fs, g, dir, q.path, q.bytes, q.size);
      WriteUpdatesHolders(fs, g, dir, owned, q.path, q.bytes, q.size, name, ext);
      RunLaw(w.fs, g, dir, OwnersAfter(owned, q.path, q.size, w), qs[1..], name, ext);
    }
  }
}
