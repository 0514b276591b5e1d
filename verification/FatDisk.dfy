/** The bytes of a FAT32 volume on a flat device, and the abstract file system they stand for. */
module FatDisk {
  import opened Arith
  import opened Bytes
  import opened FatChains
  import opened FatFiles
  import opened FatGeometry

  const NIBBLE: int := 0x1000_0000

  /** The four bytes of entry c in the first table copy. */
  function RawEntry(l: Layout, m: seq<byte>, c: nat): (r: seq<byte>)
    requires l.fat + 4 * c + 4 <= |m|
    ensures |r| == 4
  {
    m[l.fat + 4 * c..l.fat + 4 * c + 4]
  }

  /** Table entries are the low 28 bits. */
  function Entry(l: Layout, m: seq<byte>, c: nat): nat
    requires l.fat + 4 * c + 4 <= |m|
  {
    LE32(RawEntry(l, m, c)) % NIBBLE
  }

  lemma ClusterRange(l: Layout, len: nat, c: nat)
    requires l.Valid(len) && 2 <= c < l.n
    ensures l.ClusterAt(c) + l.g.cb <= len && l.ClusterAt(c) + l.g.cb <= WORD
  {
    ClustersApart(l, c, l.n);
  }

  function ClusterBytes(l: Layout, m: seq<byte>, c: nat): seq<byte>
    requires l.Valid(|m|) && c < l.n
  {
    if c < 2 then [] else
      ClusterRange(l, |m|, c);
      m[l.ClusterAt(c)..l.ClusterAt(c) + l.g.cb]
  }

  /** The file system on the disk. */
  function Abs(l: Layout, m: seq<byte>): (fs: Fs)
    requires l.Valid(|m|)
    ensures |fs.fat| == |fs.data| == l.n
  {
    Fs(seq(l.n, c requires 0 <= c < l.n => Entry(l, m, c)),
       seq(l.n, c requires 0 <= c < l.n => ClusterBytes(l, m, c)))
  }

  lemma AbsAt(l: Layout, m: seq<byte>, c: nat)
    requires l.Valid(|m|) && c < l.n
    ensures Abs(l, m).fat[c] == Entry(l, m, c)
    ensures Abs(l, m).data[c] == ClusterBytes(l, m, c)
  {
  }

  lemma AbsWellFormed(l: Layout, m: seq<byte>)
    requires l.Valid(|m|)
    ensures WellFormed(Abs(l, m), l.g.cb)
  {
    forall c | 2 <= c < l.n
      ensures |Abs(l, m).data[c]| == l.g.cb
    {
      ClusterRange(l, |m|, c);
    }
  }

  /** The two table copies are byte-identical. */
  ghost predicate Mirrored(l: Layout, m: seq<byte>) {
    l.fat + 2 * l.fatBytes <= |m| &&
    m[l.fat..l.fat + l.fatBytes] == m[l.fat + l.fatBytes..l.fat + 2 * l.fatBytes]
  }

  /** Nothing changed outside the two table copies and the data clusters, and in the first copy
      neither the top four bits of any entry nor any entry beyond the last cluster. */
  ghost predicate SameOutside(l: Layout, m: seq<byte>, m': seq<byte>)
    requires l.Valid(|m|)
  {
    && |m'| == |m|
    && (forall a :: 0 <= a < |m| && (a < l.fat || l.fat + 2 * l.fatBytes <= a < l.data || l.ClusterAt(l.n) <= a) ==>
          m'[a] == m[a])
    && (forall e ::
          0 <= e && 4 * e + 4 <= l.fatBytes ==> LE32(RawEntry(l, m', e)) / NIBBLE == LE32(RawEntry(l, m, e)) / NIBBLE)
    && (forall e :: l.n <= e && 4 * e + 4 <= l.fatBytes ==> RawEntry(l, m', e) == RawEntry(l, m, e))
  }

  ghost predicate Kept(l: Layout, m: seq<byte>, m': seq<byte>)
    requires l.Valid(|m|)
  {
    SameOutside(l, m, m') && (Mirrored(l, m) ==> Mirrored(l, m'))
  }

  lemma KeptSelf(l: Layout, m: seq<byte>)
    requires l.Valid(|m|)
    ensures Kept(l, m, m)
  {
  }

  lemma KeptTrans(l: Layout, m: seq<byte>, m': seq<byte>, m'': seq<byte>)
    requires l.Valid(|m|) && l.Valid(|m'|) && Kept(l, m, m') && Kept(l, m', m'')
    ensures Kept(l, m, m'')
  {
  }

  // ---- FatSetCluster ----

  /** The dword that FatSetCluster stores: the old top four bits and 28 bits of `value`. */
  function NewEntry(raw: seq<byte>, value: nat): (r: seq<byte>)
    requires |raw| == 4
    ensures |r| == 4 && LE32(r) % NIBBLE == value % NIBBLE && LE32(r) / NIBBLE == LE32(raw) / NIBBLE
  {
    ToLE32(LE32(raw) / NIBBLE * NIBBLE + value % NIBBLE)
  }

  function NewSector(sector: seq<byte>, off: nat, value: nat): (r: seq<byte>)
    requires off + 4 <= |sector|
    ensures |r| == |sector|
  {
    Splice(sector, off, NewEntry(sector[off..off + 4], value))
  }

  /** The entry's sector, patched, written into both table copies. */
  function SetEntry(l: Layout, m: seq<byte>, c: nat, value: nat): (r: seq<byte>)
    requires l.Valid(|m|) && EntryFits(l, c)
    ensures |r| == |m|
  {
    var at := l.EntrySectorAt(c);
    WriteBoth(m, at, l.fatBytes, NewSector(m[at..at + l.g.bps], Remainder(4 * c, l.g.bps), value))
  }

  function WriteBoth(m: seq<byte>, at: nat, gap: nat, sector: seq<byte>): (r: seq<byte>)
    requires at + gap + |sector| <= |m|
    ensures |r| == |m|
  {
    Splice(Splice(m, at, sector), at + gap, sector)
  }

  /** The sector of entry c lies in the table, and the entry in the sector. */
  ghost predicate EntryFits(l: Layout, c: nat)
    requires l.g.bps > 0
  {
    l.EntrySectorAt(c) + l.g.bps <= l.fat + l.fatBytes && Remainder(4 * c, l.g.bps) + 4 <= l.g.bps
  }

  lemma EntryInSector(l: Layout, c: nat)
    requires l.g.bps > 0 && l.g.bps % 4 == 0
    ensures Remainder(4 * c, l.g.bps) % 4 == 0 && Remainder(4 * c, l.g.bps) + 4 <= l.g.bps
    ensures l.EntrySectorAt(c) + Remainder(4 * c, l.g.bps) == l.fat + 4 * c
  {
    RemainderMultiple(4 * c, l.g.bps);
  }

  /** Byte a of `m` after four bytes were stored at e. */
  function Patched(m: seq<byte>, e: nat, four: seq<byte>, a: nat): byte
    requires |four| == 4 && a < |m|
  {
    if e <= a < e + 4 then four[a - e] else m[a]
  }

  /** `r` is `m` with four bytes stored at e and the sector around them copied `gap` bytes on. */
  ghost predicate PatchedTwice(m: seq<byte>, r: seq<byte>, e: nat, four: seq<byte>, at: nat, len: nat, gap: nat)
    requires |four| == 4
  {
    && |r| == |m| && at <= e && e + 4 <= at + len && len <= gap && at + gap + len <= |m|
    && forall a {:trigger r[a]} :: 0 <= a < |m| ==>
         r[a] == Patched(m, e, four, if at + gap <= a < at + gap + len then a - gap else a)
  }

  lemma PatchTwice(m: seq<byte>, at: nat, len: nat, rem: nat, four: seq<byte>, gap: nat)
    requires |four| == 4 && len <= gap && at + gap + len <= |m| && rem + 4 <= len
    ensures PatchedTwice(m, WriteBoth(m, at, gap, Splice(m[at..at + len], rem, four)), at + rem, four, at, len, gap)
  {
  }

  lemma {:induction false} SetEntryPatches(l: Layout, m: seq<byte>, c: nat, value: nat)
    requires l.Valid(|m|) && EntryFits(l, c) && c < l.n
    ensures PatchedTwice(m, SetEntry(l, m, c, value), l.fat + 4 * c, NewEntry(RawEntry(l, m, c), value),
                         l.EntrySectorAt(c), l.g.bps, l.fatBytes)
  {
    hide Splice, WriteBoth, NewEntry, RawEntry, PatchedTwice, Remainder;
    var at, rem := l.EntrySectorAt(c), Remainder(4 * c, l.g.bps);
    var sector, four := m[at..at + l.g.bps], NewEntry(RawEntry(l, m, c), value);
    SectorHoldsEntry(l, m, c);
    PatchTwice(m, at, l.g.bps, rem, four, l.fatBytes);
    assert SetEntry(l, m, c, value) == WriteBoth(m, at, l.fatBytes, Splice(sector, rem, four));
  }

  lemma SectorHoldsEntry(l: Layout, m: seq<byte>, c: nat)
    requires l.Valid(|m|) && EntryFits(l, c) && c < l.n
    ensures var at, rem := l.EntrySectorAt(c), Remainder(4 * c, l.g.bps);
      at + rem == l.fat + 4 * c && m[at..at + l.g.bps][rem..rem + 4] == RawEntry(l, m, c)
  {
    EntryInSector(l, c);
    SliceOfSlice(m, l.EntrySectorAt(c), l.EntrySectorAt(c) + l.g.bps, Remainder(4 * c, l.g.bps),
        Remainder(4 * c, l.g.bps) + 4);
  }

  /** The dword at an entry's place in its sector gives the entry. */
  lemma EntryInSectorBytes(l: Layout, m: seq<byte>, c: nat, sector: seq<byte>)
    requires l.Valid(|m|) && EntryFits(l, c) && c < l.n
    requires sector == m[l.EntrySectorAt(c)..l.EntrySectorAt(c) + l.g.bps]
    ensures var rem := Remainder(4 * c, l.g.bps);
      rem + 4 <= |sector| && LE32(sector[rem..rem + 4]) % NIBBLE == Abs(l, m).fat[c]
  {
    SectorHoldsEntry(l, m, c);
  }

  lemma SliceOfSlice<T>(m: seq<T>, a: nat, b: nat, i: nat, j: nat)
    requires a <= b <= |m| && i <= j <= b - a
    ensures m[a..b][i..j] == m[a + i..a + j]
  {
    var x, y := m[a..b][i..j], m[a + i..a + j];
    assert forall k :: 0 <= k < j - i ==> x[k] == y[k];
  }

  lemma PatchedEntry(l: Layout, m: seq<byte>, r: seq<byte>, c: nat, four: seq<byte>, d: nat)
    requires l.Valid(|m|) && l.EntrySectorAt(c) + l.g.bps <= l.fat + l.fatBytes && 4 * d + 4 <= l.fatBytes
        && |four| == 4
    requires PatchedTwice(m, r, l.fat + 4 * c, four, l.EntrySectorAt(c), l.g.bps, l.fatBytes)
    ensures RawEntry(l, r, d) == if d == c then four else RawEntry(l, m, d)
  {
    var now := RawEntry(l, r, d);
    if d == c {
      assert now == four;
    } else {
      assert now == RawEntry(l, m, d);
    }
  }

  lemma PatchedMirrors(l: Layout, m: seq<byte>, r: seq<byte>, c: nat, four: seq<byte>)
    requires l.Valid(|m|) && l.EntrySectorAt(c) + l.g.bps <= l.fat + l.fatBytes && |four| == 4
    requires PatchedTwice(m, r, l.fat + 4 * c, four, l.EntrySectorAt(c), l.g.bps, l.fatBytes)
    requires Mirrored(l, m)
    ensures Mirrored(l, r)
  {
    var one, two := r[l.fat..l.fat + l.fatBytes], r[l.fat + l.fatBytes..l.fat + 2 * l.fatBytes];
    forall i | 0 <= i < l.fatBytes
      ensures one[i] == two[i]
    {
      assert m[l.fat + i] == m[l.fat..l.fat + l.fatBytes][i] == m[l.fat + l.fatBytes..l.fat + 2 * l.fatBytes][i];
      assert one[i] == r[l.fat + i] && two[i] == r[l.fat + l.fatBytes + i];
    }
  }

  /** On the table FatSetCluster is one update; no cluster changes. */
  lemma {:induction false} SetEntryAbs(l: Layout, m: seq<byte>, c: nat, value: nat)
    requires l.Valid(|m|) && EntryFits(l, c) && c < l.n
    ensures var r := SetEntry(l, m, c, value);
      Abs(l, r) == Fs(Abs(l, m).fat[c := value % NIBBLE], Abs(l, m).data)
  {
    hide SetEntry, NewEntry, Remainder;
    var r, four := SetEntry(l, m, c, value), NewEntry(RawEntry(l, m, c), value);
    SetEntryPatches(l, m, c, value);
    forall d | 0 <= d < l.n
      ensures Abs(l, r).fat[d] == Abs(l, m).fat[c := value % NIBBLE][d]
    {
      PatchedEntry(l, m, r, c, four, d);
    }
    forall d | 0 <= d < l.n
      ensures Abs(l, r).data[d] == Abs(l, m).data[d]
    {
      if d >= 2 {
        ClusterRange(l, |m|, d);
        assert ClusterBytes(l, r, d) == ClusterBytes(l, m, d);
      }
    }
  }

  /** It keeps everything else, and the two copies identical. */
  lemma {:induction false} SetEntryKeeps(l: Layout, m: seq<byte>, c: nat, value: nat)
    requires l.Valid(|m|) && EntryFits(l, c) && c < l.n
    ensures Kept(l, m, SetEntry(l, m, c, value))
  {
    var r, four := SetEntry(l, m, c, value), NewEntry(RawEntry(l, m, c), value);
    SetEntryPatches(l, m, c, value);
    forall e | 0 <= e && 4 * e + 4 <= l.fatBytes
      ensures RawEntry(l, r, e) == if e == c then four else RawEntry(l, m, e)
    {
      PatchedEntry(l, m, r, c, four, e);
    }
    if Mirrored(l, m) {
      PatchedMirrors(l, m, r, c, four);
    }
  }

  /** What writing the patched sector into both copies comes to. */
  lemma SetEntryDone(l: Layout, m: seq<byte>, c: nat, value: nat, sector: seq<byte>)
    requires l.Valid(|m|) && EntryFits(l, c) && c < l.n
    requires sector == NewSector(m[l.EntrySectorAt(c)..l.EntrySectorAt(c) + l.g.bps], Remainder(4 * c, l.g.bps), value)
    ensures var r := WriteBoth(m, l.EntrySectorAt(c), l.fatBytes, sector);
      Abs(l, r) == Fs(Abs(l, m).fat[c := value % NIBBLE], Abs(l, m).data) && Kept(l, m, r)
  {
    hide Abs, Kept, NewSector, WriteBoth, EntryFits;
    SetEntryAbs(l, m, c, value);
    SetEntryKeeps(l, m, c, value);
  }

  // ---- Writing into a cluster ----

  /** A write at or beyond the data area leaves the table alone. */
  lemma EntryBelow(l: Layout, m: seq<byte>, at: nat, bytes: seq<byte>, d: nat)
    requires l.Valid(|m|) && d < l.n && l.data <= at && at + |bytes| <= |m|
    ensures RawEntry(l, Splice(m, at, bytes), d) == RawEntry(l, m, d)
  {
    var now := RawEntry(l, Splice(m, at, bytes), d);
    assert forall k :: 0 <= k < 4 ==> now[k] == RawEntry(l, m, d)[k];
  }

  lemma ClusterAfterWrite(l: Layout, m: seq<byte>, c: nat, off: nat, bytes: seq<byte>, d: nat)
    requires l.Valid(|m|) && 2 <= c < l.n && 2 <= d < l.n && off + |bytes| <= l.g.cb
    requires l.ClusterAt(c) + l.g.cb <= |m|
    ensures |ClusterBytes(l, m, c)| == l.g.cb
    ensures ClusterBytes(l, Splice(m, l.ClusterAt(c) + off, bytes), d) ==
            if d == c then Splice(ClusterBytes(l, m, c), off, bytes) else ClusterBytes(l, m, d)
  {
    ClusterRange(l, |m|, d);
    if d < c {
      ClustersApart(l, d, c);
    } else if c < d {
      ClustersApart(l, c, d);
    }
  }

  /** Bytes written into a cluster change that cluster only. */
  lemma ClusterWriteAbs(l: Layout, m: seq<byte>, c: nat, off: nat, bytes: seq<byte>)
    requires l.Valid(|m|) && 2 <= c < l.n && off + |bytes| <= l.g.cb
    ensures l.ClusterAt(c) + off + |bytes| <= |m|
    ensures var r := Splice(m, l.ClusterAt(c) + off, bytes);
      && off + |bytes| <= |Abs(l, m).data[c]|
      && Abs(l, r) == PutAt(Abs(l, m), c, off, bytes)
  {
    ClusterRange(l, |m|, c);
    var r := Splice(m, l.ClusterAt(c) + off, bytes);
    hide Splice, RawEntry, ClusterBytes;
    forall d | 0 <= d < l.n
      ensures Abs(l, r).fat[d] == Abs(l, m).fat[d]
    {
      EntryBelow(l, m, l.ClusterAt(c) + off, bytes, d);
    }
    ClusterAfterWrite(l, m, c, off, bytes, c);
    forall d | 0 <= d < l.n
      ensures Abs(l, r).data[d] == PutAt(Abs(l, m), c, off, bytes).data[d]
    {
      if 2 <= d {
        ClusterAfterWrite(l, m, c, off, bytes, d);
      } else {
        LowClusters(l, m, d);
        LowClusters(l, r, d);
      }
    }
  }

  lemma LowClusters(l: Layout, m: seq<byte>, d: nat)
    requires l.Valid(|m|) && d < 2
    ensures ClusterBytes(l, m, d) == []
  {
  }

  lemma ClusterWriteKeeps(l: Layout, m: seq<byte>, c: nat, off: nat, bytes: seq<byte>)
    requires l.Valid(|m|) && 2 <= c < l.n && off + |bytes| <= l.g.cb
    requires l.ClusterAt(c) + off + |bytes| <= |m|
    ensures Kept(l, m, Splice(m, l.ClusterAt(c) + off, bytes))
  {
    var r := Splice(m, l.ClusterAt(c) + off, bytes);
    ClustersApart(l, c, l.n);
    forall e | 0 <= e && 4 * e + 4 <= l.fatBytes
      ensures RawEntry(l, r, e) == RawEntry(l, m, e)
    {
    }
    if Mirrored(l, m) {
      assert r[l.fat..l.fat + l.fatBytes] == m[l.fat..l.fat + l.fatBytes];
      assert r[l.fat + l.fatBytes..l.fat + 2 * l.fatBytes] == m[l.fat + l.fatBytes..l.fat + 2 * l.fatBytes];
    }
  }
}
