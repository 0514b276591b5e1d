/** Writing and reading files by name (src/modules/fat/main.c) on the abstract file system: a
    directory refines a map from 8.3 names to byte strings. */
module FatFiles {
  import opened Arith
  import opened Bytes
  import opened FatChains
  import opened FatDirectory

  // ---- Cutting a file into clusters ----

  /** `cb` is a whole number of sectors of `bps` bytes. */
  predicate WholeSectors(cb: nat, bps: nat)
    requires bps > 0
  {
    cb == 0 || (cb >= bps && WholeSectors(cb - bps, bps))
  }

  /** Bytes per sector and per cluster. */
  datatype Geometry = Geometry(bps: nat, cb: nat)
  {
    predicate Valid() {
      bps > 0 && cb > 0 && WholeSectors(cb, bps) && bps % SLOT == 0 && cb % SLOT == 0
    }
  }

  /** `n` rounded up to whole sectors. */
  function RoundUp(n: nat, bps: nat): (r: nat)
    requires bps > 0
    ensures n <= r < n + bps
  {
    if n == 0 then 0 else if n <= bps then bps else bps + RoundUp(n - bps, bps)
  }

  lemma {:induction false} RoundUpCluster(n: nat, bps: nat, cb: nat)
    requires bps > 0 && WholeSectors(cb, bps)
    ensures n <= cb ==> RoundUp(n, bps) <= cb
    ensures n >= cb ==> RoundUp(n, bps) == cb + RoundUp(n - cb, bps)
    decreases cb
  {
    if cb > 0 && n > bps {
      RoundUpCluster(n - bps, bps, cb - bps);
    }
  }

  /** What FatWriteData writes into each cluster: a cluster's worth of `bytes`, and for the last
      one whole sectors, read on beyond `size`. */
  function Pieces(bytes: seq<byte>, size: nat, g: Geometry): (r: seq<seq<byte>>)
    requires g.Valid() && RoundUp(size, g.bps) <= |bytes|
    decreases size
  {
    if size == 0 then []
    else
      RoundUpCluster(size, g.bps, g.cb);
      if size <= g.cb then [bytes[..RoundUp(size, g.bps)]]
      else [bytes[..g.cb]] + Pieces(bytes[g.cb..], size - g.cb, g)
  }

  /** ceil(size / cb) */
  function ClustersNeeded(size: nat, cb: nat): nat
    requires cb > 0
  {
    if size == 0 then 0 else if size <= cb then 1 else 1 + ClustersNeeded(size - cb, cb)
  }

  lemma {:induction false} NeededIsCeiling(size: nat, cb: nat)
    requires cb > 0
    ensures size <= ClustersNeeded(size, cb) * cb
    ensures size > 0 ==> (ClustersNeeded(size, cb) - 1) * cb < size
    decreases size
  {
    if size > cb {
      NeededIsCeiling(size - cb, cb);
      var n := ClustersNeeded(size, cb);
      assert n * cb == (n - 1) * cb + cb && (n - 1) * cb == (n - 2) * cb + cb;
    }
  }

  lemma {:induction false} PiecesCount(bytes: seq<byte>, size: nat, g: Geometry)
    requires g.Valid() && RoundUp(size, g.bps) <= |bytes|
    ensures |Pieces(bytes, size, g)| == ClustersNeeded(size, g.cb)
    decreases size
  {
    if size > g.cb {
      RoundUpCluster(size, g.bps, g.cb);
      PiecesCount(bytes[g.cb..], size - g.cb, g);
    }
  }

  lemma {:induction false} PiecesFit(bytes: seq<byte>, size: nat, g: Geometry)
    requires g.Valid() && RoundUp(size, g.bps) <= |bytes|
    ensures forall p :: p in Pieces(bytes, size, g) ==> |p| <= g.cb
    decreases size
  {
    RoundUpCluster(size, g.bps, g.cb);
    if size > g.cb {
      PiecesFit(bytes[g.cb..], size - g.cb, g);
    }
  }

  lemma {:induction false} StoreWellFormed(fs: Fs, cb: nat, pieces: seq<seq<byte>>, prev: nat)
    requires WellFormed(fs, cb) && prev < |fs.fat|
    requires forall p :: p in pieces ==> |p| <= cb
    ensures WellFormed(Store(fs, pieces, prev).fs, cb)
    decreases |pieces|
  {
    var c := FirstFree(fs.fat);
    if pieces != [] && c != 0 {
      assert pieces[0] in pieces;
      StoreWellFormed(StoreCluster(fs, prev, c, pieces[0]), cb, pieces[1..], c);
    }
  }

  lemma JoinPrefix(head: seq<byte>, tail: seq<byte>, bytes: seq<byte>, size: nat)
    requires |head| <= size <= |bytes| && head == bytes[..|head|]
    requires size - |head| <= |tail| && tail[..size - |head|] == bytes[|head|..][..size - |head|]
    ensures (head + tail)[..size] == bytes[..size]
  {
    assert (head + tail)[..size] == head + tail[..size - |head|];
    assert bytes[..size] == bytes[..|head|] + bytes[|head|..][..size - |head|];
  }

  /** Clusters that start with the pieces of a file hold its bytes, one after the other. */
  lemma {:induction false} PiecesContent(fs: Fs, g: Geometry, ch: seq<nat>, bytes: seq<byte>, size: nat)
    requires g.Valid() && RoundUp(size, g.bps) <= |bytes|
    requires Within(ch, |fs.data|) && |ch| == |Pieces(bytes, size, g)|
    requires forall i :: 0 <= i < |ch| ==> |fs.data[ch[i]]| == g.cb && Pieces(bytes, size, g)[i] <= fs.data[ch[i]]
    ensures size <= |Content(fs, ch)| && Content(fs, ch)[..size] == bytes[..size]
    decreases size
  {
    hide RoundUp;
    if size > 0 {
      PiecesStep(bytes, size, g);
      var pieces, head, tail := Pieces(bytes, size, g), fs.data[ch[0]], Content(fs, ch[1..]);
      assert pieces[0] == head[..|pieces[0]|];
      if size <= g.cb {
        assert (head + tail)[..size] == pieces[0][..size] == bytes[..size];
      } else {
        assert pieces[1..] == Pieces(bytes[g.cb..], size - g.cb, g);
        PiecesContent(fs, g, ch[1..], bytes[g.cb..], size - g.cb);
        JoinPrefix(head, tail, bytes, size);
      }
    }
  }

  /** The first piece and what is left after it. */
  lemma PiecesStep(bytes: seq<byte>, size: nat, g: Geometry)
    requires g.Valid() && RoundUp(size, g.bps) <= |bytes| && size > 0
    ensures var n := Min(size, g.cb);
      && RoundUp(n, g.bps) <= g.cb && RoundUp(n, g.bps) <= |bytes|
      && n <= |bytes| && RoundUp(size - n, g.bps) <= |bytes| - n
      && Pieces(bytes, size, g) == [bytes[..RoundUp(n, g.bps)]] + Pieces(bytes[n..], size - n, g)
  {
    RoundUpCluster(size, g.bps, g.cb);
    RoundUpCluster(g.cb, g.bps, g.cb);
  }

  // ---- Writing into a directory cluster ----

  /** The cluster of `ch` and the offset in it where byte `pos` of its content lies. */
  function Place(fs: Fs, ch: seq<nat>, pos: nat): (r: (nat, nat))
    requires Within(ch, |fs.data|) && pos < |Content(fs, ch)|
    ensures r.0 in ch && r.1 < |fs.data[r.0]|
    decreases |ch|
  {
    var head := |fs.data[ch[0]]|;
    if pos < head then (ch[0], pos) else Place(fs, ch[1..], pos - head)
  }

  /** With clusters of one size, position and cluster are a quotient and a remainder. */
  lemma {:induction false} PlaceIs(fs: Fs, cb: nat, ch: seq<nat>, pos: nat)
    requires Within(ch, |fs.data|) && pos < |Content(fs, ch)| && cb > 0
    requires forall i :: 0 <= i < |ch| ==> |fs.data[ch[i]]| == cb
    ensures pos / cb < |ch| && Place(fs, ch, pos) == (ch[pos / cb], pos % cb)
    decreases |ch|
  {
    PlaceQuotient(fs, cb, ch, pos);
    QuotientIs(pos, cb);
  }

  lemma {:induction false} PlaceQuotient(fs: Fs, cb: nat, ch: seq<nat>, pos: nat)
    requires Within(ch, |fs.data|) && pos < |Content(fs, ch)| && cb > 0
    requires forall i :: 0 <= i < |ch| ==> |fs.data[ch[i]]| == cb
    ensures Quotient(pos, cb) < |ch| && Place(fs, ch, pos) == (ch[Quotient(pos, cb)], Remainder(pos, cb))
    decreases |ch|
  {
    ContentLength(fs, ch);
    if pos >= cb {
      PlaceQuotient(fs, cb, ch[1..], pos - cb);
    }
  }

  lemma ContentLength(fs: Fs, ch: seq<nat>)
    requires Within(ch, |fs.data|)
    ensures |Content(fs, ch)| == if ch == [] then 0 else |fs.data[ch[0]]| + |Content(fs, ch[1..])|
  {
  }

  lemma SlotsFit(pos: nat, cb: nat)
    requires pos % SLOT == 0 && cb % SLOT == 0
    ensures if pos < cb then pos + SLOT <= cb else (pos - cb) % SLOT == 0
  {
  }

  lemma {:induction false} PlaceFits(fs: Fs, cb: nat, ch: seq<nat>, pos: nat)
    requires Within(ch, |fs.data|) && pos < |Content(fs, ch)| && cb % SLOT == 0 && pos % SLOT == 0
    requires forall i :: 0 <= i < |ch| ==> |fs.data[ch[i]]| == cb
    ensures Place(fs, ch, pos).1 % SLOT == 0 && Place(fs, ch, pos).1 + SLOT <= cb
    decreases |ch|
  {
    hide Content;
    ContentLength(fs, ch);
    SlotsFit(pos, cb);
    if pos >= cb {
      PlaceFits(fs, cb, ch[1..], pos - cb);
    }
  }

  function PutAt(fs: Fs, c: nat, off: nat, e: seq<byte>): (r: Fs)
    requires c < |fs.data| && off + |e| <= |fs.data[c]|
    ensures r.fat == fs.fat && |r.data| == |fs.data|
  {
    Fs(fs.fat, fs.data[c := Splice(fs.data[c], off, e)])
  }

  lemma {:induction false} PutContent(fs: Fs, ch: seq<nat>, pos: nat, e: seq<byte>)
    requires Within(ch, |fs.data|) && pos < |Content(fs, ch)|
    requires forall i, j :: 0 <= i < j < |ch| ==> ch[i] != ch[j]
    requires Place(fs, ch, pos).1 + |e| <= |fs.data[Place(fs, ch, pos).0]|
    ensures var r := PutAt(fs, Place(fs, ch, pos).0, Place(fs, ch, pos).1, e);
      pos + |e| <= |Content(fs, ch)| && Content(r, ch) == Splice(Content(fs, ch), pos, e)
    decreases |ch|
  {
    var (c, off) := Place(fs, ch, pos);
    var r := PutAt(fs, c, off, e);
    var head, tail := fs.data[ch[0]], Content(fs, ch[1..]);
    if pos < |head| {
      assert c == ch[0] && c !in ch[1..];
      ContentFrame(fs, r, ch[1..]);
      assert Splice(head + tail, pos, e) == Splice(head, pos, e) + tail;
    } else {
      PutContent(fs, ch[1..], pos - |head|, e);
      assert c in ch[1..] && r.data[ch[0]] == head;
      assert Splice(head + tail, pos, e) == head + Splice(tail, pos - |head|, e);
    }
  }

  /** The file system after entry `e` went into slot f of the directory. */
  function PutSlot(fs: Fs, dir: seq<nat>, f: nat, e: seq<byte>): (r: Fs)
    requires Within(dir, |fs.data|) && SLOT * f < |Content(fs, dir)|
    ensures r.fat == fs.fat && |r.data| == |fs.data|
  {
    var (c, off) := Place(fs, dir, SLOT * f);
    if off + |e| <= |fs.data[c]| then PutAt(fs, c, off, e) else fs
  }

  lemma {:induction false} PutSlotContent(fs: Fs, g: Geometry, dir: seq<nat>, f: nat, e: seq<byte>)
    requires g.Valid() && WellFormed(fs, g.cb) && Chain(fs.fat, dir) && |e| == SLOT
    requires SLOT * f + SLOT <= |Content(fs, dir)|
    ensures var r, at := PutSlot(fs, dir, f, e), Place(fs, dir, SLOT * f);
      && at.1 + SLOT <= g.cb && at.1 % SLOT == 0
      && WellFormed(r, g.cb)
      && Content(r, dir) == Insert(Content(fs, dir), f, e)
      && (forall x :: 0 <= x < |fs.data| && x !in dir ==> r.data[x] == fs.data[x])
  {
    PlaceFits(fs, g.cb, dir, SLOT * f);
    forall i, j | 0 <= i < j < |dir|
      ensures dir[i] != dir[j]
    {
      WalkDistinct(fs.fat, dir, i, j);
    }
    PutContent(fs, dir, SLOT * f, e);
  }

  lemma PieceStored(fs: Fs, prev: nat, c: nat, piece: seq<byte>)
    requires |fs.data| == |fs.fat| && prev < |fs.fat| && 0 < c < |fs.fat| && |piece| <= |fs.data[c]|
    ensures StoreCluster(fs, prev, c, piece) == PutAt(Fs(Link(fs.fat, prev, c), fs.data), c, 0, piece)
  {
    assert Overlay(fs.data[c], piece) == Splice(fs.data[c], 0, piece);
  }

  /** One round of storing a file. */
  lemma StoreRound(fs: Fs, g: Geometry, bytes: seq<byte>, size: nat, prev: nat, c: nat)
    requires g.Valid() && WellFormed(fs, g.cb) && RoundUp(size, g.bps) <= |bytes| && size > 0
    requires prev < |fs.fat| && c == FirstFree(fs.fat)
    ensures c == 0 ==> Store(fs, Pieces(bytes, size, g), prev) == Stored(fs, [], false)
    ensures c != 0 ==>
      var n := Min(size, g.cb);
      && RoundUp(n, g.bps) <= |fs.data[c]| && RoundUp(n, g.bps) <= |bytes|
      && n <= |bytes| && RoundUp(size - n, g.bps) <= |bytes| - n
      && var piece := bytes[..RoundUp(n, g.bps)];
        var next := PutAt(Fs(Link(fs.fat, prev, c), fs.data), c, 0, piece);
        var rest := Store(next, Pieces(bytes[n..], size - n, g), c);
        Store(fs, Pieces(bytes, size, g), prev) == Stored(rest.fs, [c] + rest.chain, rest.ok)
  {
    hide RoundUp, Pieces, Splice, PutAt, Link, FirstFree;
    PiecesStep(bytes, size, g);
    if c != 0 {
      var n := Min(size, g.cb);
      var piece := bytes[..RoundUp(n, g.bps)];
      PieceStored(fs, prev, c, piece);
      assert Pieces(bytes, size, g)[1..] == Pieces(bytes[n..], size - n, g);
    }
  }

  /** A store that has taken the clusters `sofar`, the last of them `prev`, and has `size` bytes
      to go ends with the result `st`. */
  ghost predicate OnCourse(st: Stored, sofar: seq<nat>, fs: Fs, g: Geometry, bytes: seq<byte>, size: nat, prev: nat) {
    && g.Valid() && |fs.data| == |fs.fat| && prev < |fs.fat| && RoundUp(size, g.bps) <= |bytes|
    && var rest := Store(fs, Pieces(bytes, size, g), prev);
      st == Stored(rest.fs, sofar + rest.chain, rest.ok)
  }

  lemma StoreStarts(fs: Fs, g: Geometry, bytes: seq<byte>, size: nat)
    requires g.Valid() && |fs.data| == |fs.fat| && 0 < |fs.fat| && RoundUp(size, g.bps) <= |bytes|
    ensures OnCourse(Store(fs, Pieces(bytes, size, g), 0), [], fs, g, bytes, size, 0)
  {
    var st := Store(fs, Pieces(bytes, size, g), 0);
    assert [] + st.chain == st.chain;
  }

  lemma StoreEnds(st: Stored, sofar: seq<nat>, fs: Fs, g: Geometry, bytes: seq<byte>, prev: nat)
    requires OnCourse(st, sofar, fs, g, bytes, 0, prev)
    ensures st == Stored(fs, sofar, true)
  {
    assert sofar + [] == sofar;
  }

  lemma StoreGoesOn(st: Stored, sofar: seq<nat>, fs: Fs, g: Geometry, bytes: seq<byte>, size: nat, prev: nat, c: nat)
    requires OnCourse(st, sofar, fs, g, bytes, size, prev) && WellFormed(fs, g.cb) && size > 0 && c == FirstFree(fs.fat)
    ensures c == 0 ==> st == Stored(fs, sofar, false)
    ensures c != 0 ==>
      var n := Min(size, g.cb);
      && n <= |bytes| && RoundUp(n, g.bps) <= |fs.data[c]| && RoundUp(n, g.bps) <= |bytes|
      && var next := PutAt(Fs(Link(fs.fat, prev, c), fs.data), c, 0, bytes[..RoundUp(n, g.bps)]);
        OnCourse(st, sofar + [c], next, g, bytes[n..], size - n, c)
  {
    hide Store, Pieces, PutAt, Link, FirstFree, RoundUp, WellFormed;
    DataLengths(fs, g.cb);
    StoreRound(fs, g, bytes, size, prev, c);
    if c == 0 {
      assert sofar + [] == sofar;
    } else {
      var n := Min(size, g.cb);
      var next := PutAt(Fs(Link(fs.fat, prev, c), fs.data), c, 0, bytes[..RoundUp(n, g.bps)]);
      var rest := Store(next, Pieces(bytes[n..], size - n, g), c);
      assert sofar + ([c] + rest.chain) == (sofar + [c]) + rest.chain;
    }
  }

  // ---- FatWrite and FatRead ----

  datatype Written = Written(fs: Fs, code: int, chain: seq<nat>, slot: nat)

  /** FatWrite into the directory whose clusters are `dir`: 0, or -1 when no cluster was or could
      be stored, or -2 when the directory has no free slot. */
  ghost function WriteFile(fs: Fs, g: Geometry, dir: seq<nat>, path: seq<byte>, bytes: seq<byte>,
          size: dword): (r: Written)
    requires g.Valid() && WellFormed(fs, g.cb) && Chain(fs.fat, dir) && RoundUp(size, g.bps) <= |bytes|
  {
    DirectoryStays(fs, g, dir, bytes, size);
    AddEntry(Store(fs, Pieces(bytes, size, g), 0), dir, path, size)
  }

  /** The entry FatWrite makes for a stored file. */
  function EntryFor(path: seq<byte>, cluster: nat, size: dword): (e: seq<byte>)
    ensures |e| == SLOT && e[11] == ARCHIVE == 0x20
  {
    MakeSlot(Name8(path), Ext3(path), Wrap(cluster), size)
  }

  /** FatWrite after its data was stored. */
  function AddEntry(st: Stored, dir: seq<nat>, path: seq<byte>, size: dword): Written
    requires Within(dir, |st.fs.data|)
  {
    if !st.ok || st.chain == [] then Written(st.fs, -1, st.chain, 0)
    else
      match FindFree(Content(st.fs, dir), 0)
      case Hit(f) => Written(PutSlot(st.fs, dir, f, EntryFor(path, st.chain[0], size)), 0, st.chain, f)
      case _ => Written(st.fs, -2, st.chain, 0)
  }

  /** Storing a file's data leaves the directory, and the shape of the file system, as they were. */
  lemma {:induction false} DirectoryStays(fs: Fs, g: Geometry, dir: seq<nat>, bytes: seq<byte>, size: dword)
    requires g.Valid() && WellFormed(fs, g.cb) && Chain(fs.fat, dir) && RoundUp(size, g.bps) <= |bytes|
    ensures var r := Store(fs, Pieces(bytes, size, g), 0).fs;
      && WellFormed(r, g.cb) && Chain(r.fat, dir)
      && Content(r, dir) == Content(fs, dir)
      && (forall i :: 0 <= i < |dir| ==> |r.data[dir[i]]| == g.cb)
  {
    PiecesFit(bytes, size, g);
    StoreWellFormed(fs, g.cb, Pieces(bytes, size, g), 0);
    StoreKeeps(fs, Pieces(bytes, size, g), dir);
  }

  /** The `size` bytes FatRead copies from a chain; its buffer starts out as zeros. */
  function Take(content: seq<byte>, size: nat): (r: seq<byte>)
    ensures |r| == size
  {
    if size <= |content| then content[..size] else content + seq(size - |content|, _ => 0)
  }

  // ---- Volumes ----

  /** Slot j is in use by a file that has clusters. */
  predicate HasChain(content: seq<byte>, j: nat) {
    SLOT * j + SLOT <= |content| && IsFile(Slot(content, j)) && SlotCluster(Slot(content, j)) != 0
  }

  /** The chain of each file of the directory, by slot. Keys past the last slot stand for any
      other chains of the file system, such as those of subdirectories and of files elsewhere. */
  ghost predicate Owns(fat: seq<nat>, content: seq<byte>, owned: map<nat, seq<nat>>) {
    && (forall j: nat :: HasChain(content, j) ==> j in owned)
    && (forall j :: j in owned ==> Chain(fat, owned[j]))
    && (forall j :: j in owned && SLOT * j + SLOT <= |content| ==>
          HasChain(content, j) && owned[j][0] == SlotCluster(Slot(content, j)))
  }

  ghost predicate Separate(dir: seq<nat>, owned: map<nat, seq<nat>>) {
    && (forall j :: j in owned ==> Disjoint(owned[j], dir))
    && (forall i, j :: i in owned && j in owned && i != j ==> Disjoint(owned[i], owned[j]))
  }

  /** A file system seen from one directory, which may be a subdirectory with its entries "." and
      "..": its chain, its files' and the others are a forest, and it has only zero slots after
      its first one. */
  ghost predicate Volume(fs: Fs, g: Geometry, dir: seq<nat>, owned: map<nat, seq<nat>>) {
    && g.Valid() && WellFormed(fs, g.cb) && Chain(fs.fat, dir)
    && ZeroTail(Content(fs, dir))
    && Owns(fs.fat, Content(fs, dir), owned)
    && Separate(dir, owned)
  }

  datatype Lookup = Absent | File(bytes: seq<byte>)

  /** What FatRead returns for slot j, without the NUL: an entry without a chain of its own, such
      as an empty file's or a subdirectory's, stands for no bytes. */
  ghost function FileBytes(fs: Fs, dir: seq<nat>, owned: map<nat, seq<nat>>, j: nat): seq<byte>
    requires Within(dir, |fs.data|) && SLOT * j + SLOT <= |Content(fs, dir)|
    requires j in owned ==> Within(owned[j], |fs.data|)
  {
    Take(if j in owned then Content(fs, owned[j]) else [], SlotSize(Slot(Content(fs, dir), j)))
  }

  /** The map a volume stands for: what reading a name gives. */
  ghost function View(fs: Fs, g: Geometry, dir: seq<nat>, owned: map<nat, seq<nat>>, name: seq<byte>,
          ext: seq<byte>): Lookup
    requires Volume(fs, g, dir, owned) && |name| == 8 && |ext| == 3
  {
    match Find(Content(fs, dir), name, ext, 0)
    case Hit(j) => File(FileBytes(fs, dir, owned, j))
    case _ => Absent
  }

  /** Storing data, successful or not, changes no file. */
  lemma {:induction false} StoreKeepsVolume(fs: Fs, g: Geometry, dir: seq<nat>, owned: map<nat, seq<nat>>,
          bytes: seq<byte>, size: dword)
    requires Volume(fs, g, dir, owned) && RoundUp(size, g.bps) <= |bytes|
    ensures var r := Store(fs, Pieces(bytes, size, g), 0);
      && Volume(r.fs, g, dir, owned)
      && Content(r.fs, dir) == Content(fs, dir)
      && Disjoint(r.chain, dir)
      && (forall j :: j in owned ==> Disjoint(r.chain, owned[j]) && Content(r.fs, owned[j]) == Content(fs, owned[j]))
  {
    DirectoryStays(fs, g, dir, bytes, size);
    StoreKeeps(fs, Pieces(bytes, size, g), dir);
    forall j | j in owned
      ensures var r := Store(fs, Pieces(bytes, size, g), 0);
        Chain(r.fs.fat, owned[j]) && Disjoint(r.chain, owned[j]) && Content(r.fs, owned[j]) == Content(fs, owned[j])
    {
      StoreKeeps(fs, Pieces(bytes, size, g), owned[j]);
    }
  }

  /** The owners after an entry went into slot f: the new file owns its chain, unless the entry
      does not count as in use. */
  function NewOwners(owned: map<nat, seq<nat>>, f: nat, e: seq<byte>, ch: seq<nat>): map<nat, seq<nat>>
    requires |e| == SLOT
  {
    if IsFile(e) then owned[f := ch] else owned
  }

  /** Filling the first free slot with an entry for a separate chain keeps every file's bytes. */
  lemma {:induction false} PutKeepsContents(fs: Fs, g: Geometry, dir: seq<nat>, owned: map<nat, seq<nat>>, f: nat,
          e: seq<byte>, ch: seq<nat>)
    requires Volume(fs, g, dir, owned) && |e| == SLOT
    requires FindFree(Content(fs, dir), 0) == Hit(f)
    requires Chain(fs.fat, ch) && Disjoint(ch, dir)
    ensures var r := PutSlot(fs, dir, f, e);
      && Content(r, ch) == Content(fs, ch)
      && (forall j :: j in owned ==> j != f && Content(r, owned[j]) == Content(fs, owned[j]))
  {
    var r := PutSlot(fs, dir, f, e);
    PutSlotContent(fs, g, dir, f, e);
    ContentFrame(fs, r, ch);
    forall j | j in owned
      ensures j != f && Content(r, owned[j]) == Content(fs, owned[j])
    {
      ContentFrame(fs, r, owned[j]);
      assert SLOT * j + SLOT <= |Content(fs, dir)| ==> HasChain(Content(fs, dir), j);
    }
  }

  /** It keeps the volume, too. */
  lemma {:induction false} PutKeepsVolume(fs: Fs, g: Geometry, dir: seq<nat>, owned: map<nat, seq<nat>>, f: nat,
          e: seq<byte>, ch: seq<nat>)
    requires Volume(fs, g, dir, owned) && |e| == SLOT && e[0] != 0
    requires FindFree(Content(fs, dir), 0) == Hit(f)
    requires Chain(fs.fat, ch) && Disjoint(ch, dir) && SlotCluster(e) == ch[0]
    requires forall j :: j in owned ==> Disjoint(ch, owned[j])
    ensures Volume(PutSlot(fs, dir, f, e), g, dir, NewOwners(owned, f, e, ch))
  {
    PutSlotContent(fs, g, dir, f, e);
    InsertKeepsZeroTail(Content(fs, dir), f, e);
    PutOwns(fs.fat, Content(fs, dir), owned, f, e, ch);
    PutSeparate(dir, owned, f, e, ch);
  }

  lemma PutSeparate(dir: seq<nat>, owned: map<nat, seq<nat>>, f: nat, e: seq<byte>, ch: seq<nat>)
    requires Separate(dir, owned) && |e| == SLOT && Disjoint(ch, dir)
    requires forall j :: j in owned ==> Disjoint(ch, owned[j])
    ensures Separate(dir, NewOwners(owned, f, e, ch))
  {
  }

  lemma {:induction false} PutOwns(fat: seq<nat>, content: seq<byte>, owned: map<nat, seq<nat>>, f: nat,
          e: seq<byte>, ch: seq<nat>)
    requires Owns(fat, content, owned) && |e| == SLOT && SLOT * f + SLOT <= |content|
    requires Free(Slot(content, f)) && Chain(fat, ch) && SlotCluster(e) == ch[0]
    ensures Owns(fat, Insert(content, f, e), NewOwners(owned, f, e, ch))
  {
    var now, owners := Insert(content, f, e), NewOwners(owned, f, e, ch);
    forall j: nat
      ensures HasChain(now, j) ==> j in owners
      ensures j in owners ==> Chain(fat, owners[j])
      ensures j in owners && SLOT * j + SLOT <= |now| ==> HasChain(now, j) && owners[j][0] == SlotCluster(Slot(now, j))
    {
      if SLOT * j + SLOT <= |content| {
        InsertSlot(content, f, e, j);
      }
      assert HasChain(content, j) ==> j in owned;
    }
  }

  /** The owners after a write with result `w`. */
  function OwnersAfter(owned: map<nat, seq<nat>>, path: seq<byte>, size: dword, w: Written): map<nat, seq<nat>> {
    if w.code == 0 && w.chain != [] then NewOwners(owned, w.slot, EntryFor(path, w.chain[0], size), w.chain) else owned
  }

  /** Every write, whatever it returns, keeps the volume: a forest of chains, one for each file. */
  lemma {:induction false} WriteKeepsVolume(fs: Fs, g: Geometry, dir: seq<nat>, owned: map<nat, seq<nat>>,
          path: seq<byte>, bytes: seq<byte>, size: dword)
    requires Volume(fs, g, dir, owned) && RoundUp(size, g.bps) <= |bytes| && 0 !in path
    ensures var w := WriteFile(fs, g, dir, path, bytes, size);
      Volume(w.fs, g, dir, OwnersAfter(owned, path, size, w))
  {
    var st := Store(fs, Pieces(bytes, size, g), 0);
    StoreKeepsVolume(fs, g, dir, owned, bytes, size);
    if st.ok && st.chain != [] {
      StoreChain(fs, Pieces(bytes, size, g), 0);
      AddKeepsVolume(st, g, dir, owned, path, size);
    }
  }

  /** And every chain of it keeps its clusters and its bytes, also those that belong to no file of
      this directory. */
  lemma {:induction false} WriteKeepsContents(fs: Fs, g: Geometry, dir: seq<nat>, owned: map<nat, seq<nat>>,
          path: seq<byte>, bytes: seq<byte>, size: dword, j: nat)
    requires Volume(fs, g, dir, owned) && RoundUp(size, g.bps) <= |bytes| && 0 !in path && j in owned
    ensures var w := WriteFile(fs, g, dir, path, bytes, size);
      var owners := OwnersAfter(owned, path, size, w);
      && j in owners && owners[j] == owned[j] && Chain(w.fs.fat, owned[j])
      && Content(w.fs, owned[j]) == Content(fs, owned[j])
  {
    hide Content, ZeroTail, PutSlot, FindFree, Store;
    var st, w := Store(fs, Pieces(bytes, size, g), 0), WriteFile(fs, g, dir, path, bytes, size);
    StoreKeepsVolume(fs, g, dir, owned, bytes, size);
    if w.code == 0 {
      StoreChain(fs, Pieces(bytes, size, g), 0);
      PutKeepsContents(st.fs, g, dir, owned, w.slot, EntryFor(path, st.chain[0], size), st.chain);
    }
  }

  lemma {:induction false} AddKeepsVolume(st: Stored, g: Geometry, dir: seq<nat>, owned: map<nat, seq<nat>>,
          path: seq<byte>, size: dword)
    requires Volume(st.fs, g, dir, owned) && 0 !in path
    requires st.chain != [] && Chain(st.fs.fat, st.chain) && Disjoint(st.chain, dir)
    requires forall j :: j in owned ==> Disjoint(st.chain, owned[j])
    ensures var w := AddEntry(st, dir, path, size);
      Volume(w.fs, g, dir, OwnersAfter(owned, path, size, w))
  {
    var w := AddEntry(st, dir, path, size);
    if w.code == 0 {
      NameStarts(path);
      PutKeepsVolume(st.fs, g, dir, owned, w.slot, EntryFor(path, st.chain[0], size), st.chain);
    }
  }

  /** A converted name does not start with 0, and starts with 0xE5 just when the path does. */
  lemma NameStarts(path: seq<byte>)
    requires 0 !in path
    ensures Name8(path)[0] != 0
    ensures Name8(path)[0] == UNUSED <==> path != [] && path[0] == UNUSED
  {
    if path != [] && path[0] != DOT {
      assert StemLength(path, 0) >= 1;
      assert path[0] in path;
    }
  }
}
