/** What FatWrite does with the place of the slot it fills, which it packs into 32 bits
    (src/modules/fat/main.c:322-392). */
module FatPacked {
  import opened Arith
  import opened Bytes
  import opened FatChains
  import opened FatDirectory
  import opened FatFiles
  import opened FatPack
  import opened FatSearch

  // ---- Places ----

  /** Sector and slot of an offset in a cluster. */
  function SectorIn(off: nat, bps: nat): nat
    requires bps > 0
  {
    Quotient(off, bps)
  }

  function IndexIn(off: nat, bps: nat): nat
    requires bps > 0
  {
    Remainder(off, bps) / SLOT
  }

  function LocationOf(spot: Spot, bps: nat): dword
    requires spot.At? && bps > 0
  {
    Pack(spot.cluster, SectorIn(spot.off, bps), IndexIn(spot.off, bps))
  }

  /** Packing loses nothing: the fields of the free slot, if there is one, fit. */
  predicate Packable(spot: Spot, bps: nat)
    requires bps > 0
  {
    spot.At? ==> spot.cluster < 0x1_0000 && IndexIn(spot.off, bps) < 0x100
  }

  function PlaceIn(location: dword, bps: nat): nat {
    Times(PackedSector(location), bps) + SLOT * PackedIndex(location)
  }

  /** An unpacked place is a slot of a data cluster. */
  predicate InData(location: dword, n: nat, g: Geometry) {
    && 2 <= PackedCluster(location) < n
    && Times(PackedSector(location), g.bps) + g.bps <= g.cb
    && SLOT * PackedIndex(location) + SLOT <= g.bps
  }

  /** The place of the free slot is packed without loss, or as 0, or it comes out as some slot of a
      data cluster. */
  predicate Lands(spot: Spot, n: nat, g: Geometry)
    requires g.bps > 0
  {
    spot.At? ==> Packable(spot, g.bps) || LocationOf(spot, g.bps) == 0 || InData(LocationOf(spot, g.bps), n, g)
  }

  /** Offset s * bps + 32 * i is slot i of sector s. */
  lemma OffsetParts(s: nat, i: nat, bps: nat)
    requires bps > 0 && SLOT * i + SLOT <= bps
    ensures SectorIn(Times(s, bps) + SLOT * i, bps) == s && IndexIn(Times(s, bps) + SLOT * i, bps) == i
  {
    var off := Times(s, bps) + SLOT * i;
    QuotientIs(off, bps);
    TimesIs(s, bps);
    DivisionUnique(off, bps, s, SLOT * i);
  }

  // ---- The first free slot ----

  lemma AddEntrySpots(st: Stored, g: Geometry, dir: seq<nat>, path: seq<byte>, size: dword)
    requires g.Valid() && WellFormed(st.fs, g.cb) && Chain(st.fs.fat, dir)
    requires st.ok && st.chain != [] ==> 2 <= st.chain[0]
    ensures !(st.ok && st.chain != [])
        ==> AddEntry(st, dir, path, size).code == -1 && AddEntry(st, dir, path, size).fs == st.fs
    ensures st.ok && st.chain != [] ==>
      var w := AddEntry(st, dir, path, size);
      match FreeSpot(st.fs, dir)
      case Nowhere => w.code == -2 && w.fs == st.fs
      case At(c, off) => w.code == 0 && c < |st.fs.data| && off + SLOT <= |st.fs.data[c]|
                         && w.fs == PutAt(st.fs, c, off, EntryFor(path, st.chain[0], size))
  {
    if st.ok && st.chain != [] {
      FreeSpotIsFirst(st.fs, dir);
      var free := FindFree(Content(st.fs, dir), 0);
      if free.Hit? {
        PutSlotContent(st.fs, g, dir, free.index, EntryFor(path, st.chain[0], size));
      }
    }
  }

  lemma {:induction false} FreeSpotIn(fs: Fs, ch: seq<nat>)
    requires Within(ch, |fs.data|) && FreeSpot(fs, ch).At?
    ensures FreeSpot(fs, ch).cluster in ch
    decreases |ch|
  {
    if !FindFree(fs.data[ch[0]], 0).Hit? {
      FreeSpotIn(fs, ch[1..]);
    }
  }

  lemma ChainHas(fat: seq<nat>, ch: seq<nat>, c: nat)
    requires Chain(fat, ch) && c in ch
    ensures 2 <= c < |fat|
  {
  }

  lemma {:induction false} FreeSpotIsFree(fs: Fs, ch: seq<nat>)
    requires Within(ch, |fs.data|) && FreeSpot(fs, ch).At?
    ensures var s := FreeSpot(fs, ch);
      && s.cluster in ch && s.off % SLOT == 0 && s.off + SLOT <= |fs.data[s.cluster]|
      && (fs.data[s.cluster][s.off] == 0 || fs.data[s.cluster][s.off] == UNUSED)
    decreases |ch|
  {
    var r := FindFree(fs.data[ch[0]], 0);
    if r.Hit? {
      assert Slot(fs.data[ch[0]], r.index)[0] == fs.data[ch[0]][SLOT * r.index];
    } else {
      FreeSpotIsFree(fs, ch[1..]);
    }
  }

  // ---- FatWrite with the packed place ----

  /** FatWrite after its data was stored: the entry goes to the place that comes out of packing and
      unpacking, and a place packed as 0 counts as "no free slot". */
  function AddPacked(st: Stored, g: Geometry, dir: seq<nat>, path: seq<byte>, size: dword): Written
    requires g.Valid() && WellFormed(st.fs, g.cb) && Within(dir, |st.fs.data|)
    requires Lands(FreeSpot(st.fs, dir), |st.fs.data|, g)
  {
    var w, spot := AddEntry(st, dir, path, size), FreeSpot(st.fs, dir);
    if w.code != 0 || Packable(spot, g.bps) then w
    else
      var location := LocationOf(spot, g.bps);
      if location == 0 then Written(st.fs, -2, st.chain, 0)
      else
        Written(PutAt(st.fs, PackedCluster(location), PlaceIn(location, g.bps), EntryFor(path, st.chain[0], size)),
                0, st.chain, 0)
  }

  /** What becomes of the entry, place by place. */
  lemma AddPackedSpots(st: Stored, g: Geometry, dir: seq<nat>, path: seq<byte>, size: dword)
    requires g.Valid() && WellFormed(st.fs, g.cb) && Chain(st.fs.fat, dir)
    requires Lands(FreeSpot(st.fs, dir), |st.fs.data|, g) && (st.ok && st.chain != [] ==> 2 <= st.chain[0])
    ensures !(st.ok && st.chain != []) ==>
      AddPacked(st, g, dir, path, size).code == -1 && AddPacked(st, g, dir, path, size).fs == st.fs
    ensures st.ok && st.chain != [] ==>
      var w, spot := AddPacked(st, g, dir, path, size), FreeSpot(st.fs, dir);
      if spot == Nowhere || (!Packable(spot, g.bps) && LocationOf(spot, g.bps) == 0) then w.code == -2 && w.fs == st.fs
      else
        var c := if Packable(spot, g.bps) then spot.cluster else PackedCluster(LocationOf(spot, g.bps));
        var off := if Packable(spot, g.bps) then spot.off else PlaceIn(LocationOf(spot, g.bps), g.bps);
        && w.code == 0 && c < |st.fs.data| && off + SLOT <= |st.fs.data[c]|
        && w.fs == PutAt(st.fs, c, off, EntryFor(path, st.chain[0], size))
  {
    hide LocationOf, InData, PlaceIn, PutAt, EntryFor, FreeSpot;
    AddEntrySpots(st, g, dir, path, size);
    if FreeSpot(st.fs, dir).At? && !Packable(FreeSpot(st.fs, dir), g.bps) {
      InDataFits(LocationOf(FreeSpot(st.fs, dir), g.bps), |st.fs.data|, g);
    }
  }

  lemma InDataFits(location: dword, n: nat, g: Geometry)
    ensures InData(location, n, g) ==> 2 <= PackedCluster(location) < n && PlaceIn(location, g.bps) + SLOT <= g.cb
  {
  }

  /** Where the driver's packing and unpacking lead from slot i of sector s. */
  lemma PlaceTaken(spot: Spot, c: nat, s: nat, i: nat, n: nat, spc: nat, g: Geometry)
    requires g.bps > 0 && g.cb == Times(spc, g.bps) && s < spc <= 0x100 && SLOT * i + SLOT <= g.bps && 2 <= c < n
    requires spot == At(c, Times(s, g.bps) + SLOT * i) && Lands(spot, n, g)
    ensures var location := Pack(c, s, i);
      && location == LocationOf(spot, g.bps)
      && (Packable(spot, g.bps) ==>
            location != 0 && PackedCluster(location) == c && PlaceIn(location, g.bps) == spot.off)
      && (location != 0 ==>
            2 <= PackedCluster(location) < n && PackedSector(location) < spc
            && SLOT * PackedIndex(location) + SLOT <= g.bps)
  {
    hide Pack;
    var location := Pack(c, s, i);
    OffsetParts(s, i, g.bps);
    if Packable(spot, g.bps) {
      PackLossless(c, s, i);
      PackNonZero(c, s, i);
    } else if location != 0 {
      SectorBelow(PackedSector(location), spc, g.bps);
    }
  }

  lemma SectorBelow(s: nat, spc: nat, bps: nat)
    requires bps > 0 && Times(s, bps) + bps <= Times(spc, bps)
    ensures s < spc
  {
    if spc <= s {
      TimesMonotone(spc, s, bps);
    }
  }

  /** FatWrite as the driver runs it. */
  ghost function WritePacked(fs: Fs, g: Geometry, dir: seq<nat>, path: seq<byte>, bytes: seq<byte>,
          size: dword): (r: Written)
    requires g.Valid() && WellFormed(fs, g.cb) && Chain(fs.fat, dir) && RoundUp(size, g.bps) <= |bytes|
    requires Lands(FreeSpot(fs, dir), |fs.data|, g)
    ensures Packable(FreeSpot(fs, dir), g.bps) ==> r == WriteFile(fs, g, dir, path, bytes, size)
  {
    DirectoryStays(fs, g, dir, bytes, size);
    StoreKeepsSpot(fs, Pieces(bytes, size, g), dir);
    AddPacked(Store(fs, Pieces(bytes, size, g), 0), g, dir, path, size)
  }

  /** Storing data leaves the first free slot where it was. */
  lemma StoreKeepsSpot(fs: Fs, pieces: seq<seq<byte>>, dir: seq<nat>)
    requires |fs.data| == |fs.fat| && Chain(fs.fat, dir)
    ensures FreeSpot(Store(fs, pieces, 0).fs, dir) == FreeSpot(fs, dir)
  {
    var r := Store(fs, pieces, 0);
    StoreKeeps(fs, pieces, dir);
    forall x | x in dir
      ensures r.fs.data[x] == fs.data[x]
    {
      StoreFrame(fs, pieces, 0, x);
    }
    FreeSpotFrame(fs, r.fs, dir);
  }

  lemma {:induction false} FreeSpotFrame(fs: Fs, fs': Fs, ch: seq<nat>)
    requires Within(ch, |fs.data|) && |fs'.data| == |fs.data| && forall x :: x in ch ==> fs'.data[x] == fs.data[x]
    ensures FreeSpot(fs', ch) == FreeSpot(fs, ch)
    decreases |ch|
  {
    if ch != [] {
      FreeSpotFrame(fs, fs', ch[1..]);
    }
  }

  // ---- When the packed place is the right one ----

  /** An entry written elsewhere leaves the free slot free. */
  lemma ElsewhereDiffers(fs: Fs, c: nat, off: nat, c': nat, off': nat, e: seq<byte>)
    requires c < |fs.data| && off % SLOT == 0 && off + SLOT <= |fs.data[c]|
    requires c' < |fs.data| && off' % SLOT == 0 && off' + SLOT <= |fs.data[c']|
    requires |e| == SLOT && e[0] != fs.data[c][off] && !(c' == c && off' == off)
    ensures PutAt(fs, c', off', e) != PutAt(fs, c, off, e)
  {
    var a, b := PutAt(fs, c', off', e).data[c], PutAt(fs, c, off, e).data[c];
    assert b[off] == e[0];
    assert a[off] == fs.data[c][off];
  }

  lemma PlaceIsSlot(location: dword, bps: nat)
    requires bps % SLOT == 0
    ensures PlaceIn(location, bps) % SLOT == 0
  {
    TimesMultiple(PackedSector(location), bps);
  }

  /** The fields of a location that stands for the free slot fit. */
  lemma RightPlacePacks(spot: Spot, n: nat, g: Geometry)
    requires spot.At? && g.Valid() && InData(LocationOf(spot, g.bps), n, g)
    requires PackedCluster(LocationOf(spot, g.bps)) == spot.cluster
    requires PlaceIn(LocationOf(spot, g.bps), g.bps) == spot.off
    ensures Packable(spot, g.bps)
  {
    hide Pack;
    var location := LocationOf(spot, g.bps);
    OffsetParts(PackedSector(location), PackedIndex(location), g.bps);
    PackLossless(spot.cluster, SectorIn(spot.off, g.bps), IndexIn(spot.off, g.bps));
  }

  /** The driver's write is the write into the first free slot exactly if it fails anyway or that
      slot's cluster number is below 65536 and its index in the sector below 256. */
  lemma {:induction false} WritePackedIff(fs: Fs, g: Geometry, dir: seq<nat>, path: seq<byte>, bytes: seq<byte>,
          size: dword)
    requires g.Valid() && WellFormed(fs, g.cb) && Chain(fs.fat, dir) && RoundUp(size, g.bps) <= |bytes|
    requires Lands(FreeSpot(fs, dir), |fs.data|, g)
    requires 0 !in path && (path == [] || path[0] != UNUSED)
    ensures var w, v := WritePacked(fs, g, dir, path, bytes, size), WriteFile(fs, g, dir, path, bytes, size);
      w.fs == v.fs && w.code == v.code <==> v.code != 0 || Packable(FreeSpot(fs, dir), g.bps)
  {
    hide Store, Pieces, FreeSpot, Packable, LocationOf, InData, PutAt, EntryFor, Name8, PlaceIn, RoundUp, WellFormed;
    DataLengths(fs, g.cb);
    var st, v := Store(fs, Pieces(bytes, size, g), 0), WriteFile(fs, g, dir, path, bytes, size);
    var spot := FreeSpot(fs, dir);
    DirectoryStays(fs, g, dir, bytes, size);
    StoreKeepsSpot(fs, Pieces(bytes, size, g), dir);
    StoreChain(fs, Pieces(bytes, size, g), 0);
    if v.code == 0 && !Packable(spot, g.bps) {
      AddEntrySpots(st, g, dir, path, size);
      NotPackable(st, g, dir, path, size);
    }
  }

  lemma {:induction false} NotPackable(st: Stored, g: Geometry, dir: seq<nat>, path: seq<byte>, size: dword)
    requires g.Valid() && WellFormed(st.fs, g.cb) && Chain(st.fs.fat, dir) && 0 !in path
    requires path == [] || path[0] != UNUSED
    requires Lands(FreeSpot(st.fs, dir), |st.fs.data|, g) && !Packable(FreeSpot(st.fs, dir), g.bps)
    requires AddEntry(st, dir, path, size).code == 0 && 2 <= st.chain[0]
    ensures AddPacked(st, g, dir, path, size).code != 0
            || AddPacked(st, g, dir, path, size).fs != AddEntry(st, dir, path, size).fs
  {
    hide Packable, LocationOf, InData, PutAt, EntryFor, Name8, Ext3, PlaceIn;
    var spot, e := FreeSpot(st.fs, dir), EntryFor(path, st.chain[0], size);
    assert spot.At? by {
      hide *;
      NotPackableIsAt(spot, g.bps);
    }
    AddEntrySpots(st, g, dir, path, size);
    FreeSpotIsFree(st.fs, dir);
    EntryStarts(path, st.chain[0], size);
    var location := LocationOf(spot, g.bps);
    if location != 0 {
      if PackedCluster(location) == spot.cluster && PlaceIn(location, g.bps) == spot.off {
        RightPlacePacks(spot, |st.fs.data|, g);
      }
      InDataFits(location, |st.fs.data|, g);
      PlaceIsSlot(location, g.bps);
      ElsewhereDiffers(st.fs, spot.cluster, spot.off, PackedCluster(location), PlaceIn(location, g.bps), e);
    }
  }

  lemma NotPackableIsAt(spot: Spot, bps: nat)
    requires bps > 0 && !Packable(spot, bps)
    ensures spot.At?
  {
  }

  lemma EntryStarts(path: seq<byte>, cluster: nat, size: dword)
    requires 0 !in path && (path == [] || path[0] != UNUSED)
    ensures EntryFor(path, cluster, size)[0] != 0 && EntryFor(path, cluster, size)[0] != UNUSED
  {
    NameStarts(path);
    var e := EntryFor(path, cluster, size);
    assert e[0] == e[..8][0];
  }

  /** The driver takes a free slot for none exactly if it is the first one of a cluster whose number
      is a multiple of 65536. A cluster has fewer than 256 sectors, and a sector fewer than 65536
      bytes. */
  lemma {:induction false} FreeSlotMissedIff(fs: Fs, g: Geometry, dir: seq<nat>, path: seq<byte>, bytes: seq<byte>,
          size: dword)
    requires g.Valid() && WellFormed(fs, g.cb) && Chain(fs.fat, dir) && RoundUp(size, g.bps) <= |bytes|
    requires Lands(FreeSpot(fs, dir), |fs.data|, g) && g.cb < Times(0x100, g.bps) && g.bps < 0x1_0000
    requires WriteFile(fs, g, dir, path, bytes, size).code == 0
    ensures FreeSpot(fs, dir).At?
    ensures WritePacked(fs, g, dir, path, bytes, size).code == -2 <==>
            FreeSpot(fs, dir).cluster % 0x1_0000 == 0 && FreeSpot(fs, dir).off == 0
  {
    hide Store, Pieces, FreeSpot, Packable, LocationOf, InData, PutAt, EntryFor, PlaceIn, RoundUp, WellFormed;
    DataLengths(fs, g.cb);
    var st, spot := Store(fs, Pieces(bytes, size, g), 0), FreeSpot(fs, dir);
    DirectoryStays(fs, g, dir, bytes, size);
    StoreKeepsSpot(fs, Pieces(bytes, size, g), dir);
    StoreChain(fs, Pieces(bytes, size, g), 0);
    AddEntrySpots(st, g, dir, path, size);
    FreeSpotIsFree(st.fs, dir);
    ChainHas(st.fs.fat, dir, spot.cluster);
    DataLength(st.fs, g.cb, spot.cluster);
    LocationZeroIff(spot, g);
  }

  lemma LocationZeroIff(spot: Spot, g: Geometry)
    requires spot.At? && g.Valid() && 2 <= spot.cluster && spot.off % SLOT == 0 && spot.off + SLOT <= g.cb
    requires g.cb < Times(0x100, g.bps) && g.bps < 0x1_0000
    ensures !Packable(spot, g.bps) && LocationOf(spot, g.bps) == 0 <==>
            spot.cluster % 0x1_0000 == 0 && spot.off == 0
  {
    hide Pack;
    DivideDown(spot.off, g.bps);
    var s, i := SectorIn(spot.off, g.bps), IndexIn(spot.off, g.bps);
    if 0x100 <= s {
      TimesMonotone(0x100, s, g.bps);
    }
    PackZeroIff(spot.cluster, s, i);
    TimesIs(s, g.bps);
    TimesMultiple(s, g.bps);
    assert spot.off == 0 <==> s == 0 && i == 0;
  }
}
