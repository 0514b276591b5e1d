/** Directories as the driver sees them (src/modules/fat/main.c): a sequence of 32-byte slots,
    8.3 names, the search for a name and the search for a free slot. */
module FatDirectory {
  import opened Bytes

  const SLOT: int := 32
  const UNUSED: byte := 0xE5
  const LONG_NAME: byte := 0x3F
  const DIRECTORY: int := 0x10
  const ARCHIVE: byte := 0x20
  const SPACE: byte := 0x20
  const DOT: byte := 0x2E
  const SLASH: byte := 0x2F

  // ---- Slots ----

  function Slot(dir: seq<byte>, j: nat): (s: seq<byte>)
    requires SLOT * j + SLOT <= |dir|
    ensures |s| == SLOT
  {
    dir[SLOT * j..SLOT * j + SLOT]
  }

  function SlotCluster(s: seq<byte>): (c: dword)
    requires |s| == SLOT
    ensures c == s[26] as int + 0x100 * s[27] as int + 0x1_0000 * s[20] as int + 0x100_0000 * s[21] as int
  {
    LE16(s[26..28]) as int + 0x1_0000 * LE16(s[20..22]) as int
  }

  function SlotSize(s: seq<byte>): (n: dword)
    requires |s| == SLOT
    ensures n == s[28] as int + 0x100 * s[29] as int + 0x1_0000 * s[30] as int + 0x100_0000 * s[31] as int
  {
    LE32(s[28..32])
  }

  /** FatCreateEntry, from the two parts of the name. */
  function MakeSlot(name: seq<byte>, ext: seq<byte>, cluster: dword, size: dword): (s: seq<byte>)
    requires |name| == 8 && |ext| == 3
    ensures |s| == SLOT && s[..8] == name && s[8..11] == ext && s[11] == ARCHIVE
    ensures SlotCluster(s) == cluster && SlotSize(s) == size
  {
    var s := name + ext + [ARCHIVE] + [0, 0, 0, 0, 0, 0, 0, 0]
             + ToLE16(cluster / 0x1_0000) + [0, 0, 0, 0] + ToLE16(cluster % 0x1_0000) + ToLE32(size);
    assert s[20..22] == ToLE16(cluster / 0x1_0000);
    assert s[26..28] == ToLE16(cluster % 0x1_0000);
    assert s[28..32] == ToLE32(size);
    s
  }

  /** The 32 bytes of an entry: the padded name, the attributes, dates that are zero, the first
      cluster in two halves, and the size. */
  ghost predicate IsEntry(e: seq<byte>, name: seq<byte>, ext: seq<byte>, cluster: dword, size: dword, flags: byte) {
    && |e| == 32 && e[..8] == name && e[8..11] == ext && e[11] == flags
    && (forall k :: 12 <= k < 20 || 22 <= k < 26 ==> e[k] == 0)
    && e[20] == cluster / 0x1_0000 % 0x100 && e[21] == cluster / 0x100_0000
    && e[26] == cluster % 0x100 && e[27] == cluster / 0x100 % 0x100
    && e[28] == size % 0x100 && e[29] == size / 0x100 % 0x100
    && e[30] == size / 0x1_0000 % 0x100 && e[31] == size / 0x100_0000
  }

  lemma EntryIs(name: seq<byte>, ext: seq<byte>, cluster: dword, size: dword, flags: byte)
    requires |name| == 8 && |ext| == 3
    ensures IsEntry(MakeSlot(name, ext, cluster, size)[11 := flags], name, ext, cluster, size, flags)
  {
    var s := MakeSlot(name, ext, cluster, size);
    var e := s[11 := flags];
    assert e[..8] == s[..8] && e[8..11] == s[8..11];
    assert s[20..22] == ToLE16(cluster / 0x1_0000) && s[26..28] == ToLE16(cluster % 0x1_0000);
    assert s[28..32] == ToLE32(size);
    forall k | 0 <= k < 2
      ensures s[20 + k] == ToLE16(cluster / 0x1_0000)[k] && s[26 + k] == ToLE16(cluster % 0x1_0000)[k]
    {
      assert s[20 + k] == s[20..22][k] && s[26 + k] == s[26..28][k];
    }
    forall k | 0 <= k < 4
      ensures s[28 + k] == ToLE32(size)[k]
    {
      assert s[28 + k] == s[28..32][k];
    }
    Halves(cluster);
    DwordBytes(size);
  }

  /** `strncmp(a, b, n) == 0` on buffers of n bytes. */
  predicate SamePrefix(a: seq<byte>, b: seq<byte>)
    requires |a| == |b|
  {
    a == [] || (a[0] == b[0] && (a[0] == 0 || SamePrefix(a[1..], b[1..])))
  }

  /** Without NUL bytes in one of them the comparison is equality. */
  lemma {:induction false} SamePrefixIsEqual(a: seq<byte>, b: seq<byte>)
    requires |a| == |b| && 0 !in b
    ensures SamePrefix(a, b) <==> a == b
  {
    if a != [] {
      SamePrefixIsEqual(a[1..], b[1..]);
      assert a == [a[0]] + a[1..] && b == [b[0]] + b[1..];
    }
  }

  /** The slot is in use and carries the name. */
  predicate Names(s: seq<byte>, name: seq<byte>, ext: seq<byte>)
    requires |s| == SLOT && |name| == 8 && |ext| == 3
  {
    Live(s) && SamePrefix(s[..8], name) && SamePrefix(s[8..11], ext)
  }

  predicate Live(s: seq<byte>)
    requires |s| == SLOT
  {
    s[0] != 0 && s[0] != UNUSED && s[11] != LONG_NAME
  }

  /** An entry that a search can find and that is not a subdirectory's. */
  predicate IsFile(s: seq<byte>)
    requires |s| == SLOT
  {
    Live(s) && s[11] / DIRECTORY % 2 == 0
  }

  predicate Free(s: seq<byte>)
    requires |s| == SLOT
  {
    s[0] == 0 || s[0] == UNUSED
  }

  // ---- Searching ----

  /** A search finds a slot, is stopped by a slot that starts with 0, or runs out of slots. */
  datatype Search = Hit(index: nat) | Stopped | Missed

  /** The loop of FatLocateInDir from slot j on. */
  function Find(dir: seq<byte>, name: seq<byte>, ext: seq<byte>, j: nat): (r: Search)
    requires |name| == 8 && |ext| == 3
    ensures r.Hit? ==> j <= r.index && SLOT * r.index + SLOT <= |dir| && Names(Slot(dir, r.index), name, ext)
    decreases |dir| - SLOT * j
  {
    if SLOT * j + SLOT > |dir| then Missed
    else if Slot(dir, j)[0] == 0 then Stopped
    else if Names(Slot(dir, j), name, ext) then Hit(j)
    else Find(dir, name, ext, j + 1)
  }

  /** The loop of FatFindFreeEntry from slot j on. */
  function FindFree(dir: seq<byte>, j: nat): (r: Search)
    ensures r != Stopped
    ensures r.Hit? ==> j <= r.index && SLOT * r.index + SLOT <= |dir| && Free(Slot(dir, r.index))
    decreases |dir| - SLOT * j
  {
    if SLOT * j + SLOT > |dir| then Missed
    else if Free(Slot(dir, j)) then Hit(j)
    else FindFree(dir, j + 1)
  }

  /** After the first slot that starts with 0 come only such slots. */
  ghost predicate ZeroTail(dir: seq<byte>) {
    forall i, j :: 0 <= i <= j && SLOT * j + SLOT <= |dir| && Slot(dir, i)[0] == 0 ==> Slot(dir, j)[0] == 0
  }

  function Shift(r: Search, n: nat): Search {
    match r case Hit(j) => Hit(n + j) case _ => r
  }

  lemma SlotConcat(a: seq<byte>, b: seq<byte>, j: nat)
    requires |a| % SLOT == 0 && SLOT * j + SLOT <= |a + b|
    ensures SLOT * j + SLOT <= |a| ==> Slot(a + b, j) == Slot(a, j)
    ensures SLOT * j + SLOT > |a| ==> j >= |a| / SLOT && SLOT * (j - |a| / SLOT) + SLOT <= |b|
                                      && Slot(a + b, j) == Slot(b, j - |a| / SLOT)
  {
  }

  /** A directory is searched cluster by cluster. */
  lemma {:induction false} FindConcat(a: seq<byte>, b: seq<byte>, name: seq<byte>, ext: seq<byte>, j: nat)
    requires |a| % SLOT == 0 && |name| == 8 && |ext| == 3
    ensures j <= |a| / SLOT ==>
      (Find(a + b, name, ext, j) ==
       if Find(a, name, ext, j) == Missed then Shift(Find(b, name, ext, 0), |a| / SLOT)
       else Find(a, name, ext, j))
    ensures j >= |a| / SLOT ==> Find(a + b, name, ext, j) == Shift(Find(b, name, ext, j - |a| / SLOT), |a| / SLOT)
    decreases |a + b| - SLOT * j
  {
    if SLOT * j + SLOT <= |a + b| {
      SlotConcat(a, b, j);
      FindConcat(a, b, name, ext, j + 1);
    }
  }

  lemma {:induction false} FindFreeConcat(a: seq<byte>, b: seq<byte>, j: nat)
    requires |a| % SLOT == 0
    ensures j <= |a| / SLOT ==>
      (FindFree(a + b, j) ==
       if FindFree(a, j) == Missed then Shift(FindFree(b, 0), |a| / SLOT) else FindFree(a, j))
    ensures j >= |a| / SLOT ==> FindFree(a + b, j) == Shift(FindFree(b, j - |a| / SLOT), |a| / SLOT)
    decreases |a + b| - SLOT * j
  {
    if SLOT * j + SLOT <= |a + b| {
      SlotConcat(a, b, j);
      FindFreeConcat(a, b, j + 1);
    }
  }

  // ---- Searches on the bytes ----

  /** `strncmp` finds no difference: the bytes agree up to the first NUL. */
  predicate Agrees(a: seq<byte>, b: seq<byte>) {
    |a| == |b| && forall i :: 0 <= i < |a| && 0 !in a[..i] ==> a[i] == b[i]
  }

  lemma {:induction false} SamePrefixAgrees(a: seq<byte>, b: seq<byte>)
    requires |a| == |b|
    ensures SamePrefix(a, b) <==> Agrees(a, b)
    decreases |a|
  {
    if a != [] {
      SamePrefixAgrees(a[1..], b[1..]);
      if a[0] == b[0] && a[0] != 0 {
        forall i | 0 <= i < |a| - 1
          ensures 0 in a[1..][..i] <==> 0 in a[..i + 1]
        {
          assert a[..i + 1] == [a[0]] + a[1..][..i];
        }
        if Agrees(a, b) {
          assert forall i :: 0 <= i < |a| - 1 ==> a[1..][i] == a[i + 1] && b[1..][i] == b[i + 1];
        }
        if Agrees(a[1..], b[1..]) {
          forall i | 0 <= i < |a| && 0 !in a[..i]
            ensures a[i] == b[i]
          {
            if i > 0 {
              assert 0 !in a[1..][..i - 1] && a[1..][i - 1] == b[1..][i - 1];
            }
          }
        }
      } else if a[0] == 0 {
        assert forall i :: 0 < i < |a| ==> a[..i][0] == 0;
      }
    }
  }

  /** Slot j carries the name: it is not marked as unused (0xE5), its attributes are not exactly
      0x3F, and its name agrees; and no slot up to it starts with 0, where the search ends. */
  ghost predicate Carried(dir: seq<byte>, name: seq<byte>, ext: seq<byte>, j: nat) {
    && 32 * j + 32 <= |dir|
    && dir[32 * j] != 0xE5 && dir[32 * j + 11] != 0x3F
    && Agrees(dir[32 * j..32 * j + 8], name) && Agrees(dir[32 * j + 8..32 * j + 11], ext)
    && forall k :: 0 <= k <= j ==> dir[32 * k] != 0
  }

  ghost predicate FirstCarried(dir: seq<byte>, name: seq<byte>, ext: seq<byte>, j: nat) {
    Carried(dir, name, ext, j) && forall k: nat :: k < j ==> !Carried(dir, name, ext, k)
  }

  lemma NamesIs(dir: seq<byte>, name: seq<byte>, ext: seq<byte>, j: nat)
    requires |name| == 8 && |ext| == 3 && 32 * j + 32 <= |dir| && forall k :: 0 <= k <= j ==> dir[32 * k] != 0
    ensures Names(Slot(dir, j), name, ext) <==> Carried(dir, name, ext, j)
  {
    var s := Slot(dir, j);
    assert forall i :: 0 <= i < 32 ==> s[i] == dir[32 * j + i];
    assert s[..8] == dir[32 * j..32 * j + 8];
    assert s[8..11] == dir[32 * j + 8..32 * j + 11];
    SamePrefixAgrees(s[..8], name);
    SamePrefixAgrees(s[8..11], ext);
  }

  lemma {:induction false} FindFrom(dir: seq<byte>, name: seq<byte>, ext: seq<byte>, j: nat)
    requires |name| == 8 && |ext| == 3
    requires forall k: nat :: k < j ==> 32 * k + 32 <= |dir| && dir[32 * k] != 0 && !Carried(dir, name, ext, k)
    ensures match Find(dir, name, ext, j)
      case Hit(i) => FirstCarried(dir, name, ext, i)
      case _ => forall k: nat :: !Carried(dir, name, ext, k)
    decreases |dir| - 32 * j
  {
    hide Names, Carried, Agrees;
    if 32 * j + 32 <= |dir| && dir[32 * j] != 0 {
      NamesIs(dir, name, ext, j);
      assert Slot(dir, j)[0] == dir[32 * j];
      if !Names(Slot(dir, j), name, ext) {
        FindFrom(dir, name, ext, j + 1);
      }
    } else {
      assert 32 * j + 32 <= |dir| ==> Slot(dir, j)[0] == dir[32 * j];
      forall k: nat
        ensures !Carried(dir, name, ext, k)
      {
        if k >= j {
          StoppedBefore(dir, name, ext, j, k);
        }
      }
    }
  }

  lemma StoppedBefore(dir: seq<byte>, name: seq<byte>, ext: seq<byte>, j: nat, k: nat)
    requires j <= k && (32 * j + 32 > |dir| || dir[32 * j] == 0)
    ensures !Carried(dir, name, ext, k)
  {
  }

  /** The search for a name finds the first slot that carries it, and nothing exactly if none does. */
  lemma {:induction false} FindIsFirst(dir: seq<byte>, name: seq<byte>, ext: seq<byte>)
    requires |name| == 8 && |ext| == 3
    ensures match Find(dir, name, ext, 0)
      case Hit(j) => FirstCarried(dir, name, ext, j)
      case _ => forall j: nat :: !Carried(dir, name, ext, j)
  {
    FindFrom(dir, name, ext, 0);
  }

  /** Slots of long names have attributes 0x0F, which is not the value that the driver skips: such a
      slot is taken for a file exactly if its first eleven bytes agree with the name. */
  lemma LongNameSlot(dir: seq<byte>, name: seq<byte>, ext: seq<byte>)
    requires |name| == 8 && |ext| == 3 && |dir| >= 32 && dir[11] == 0x0F
    ensures Find(dir, name, ext, 0) == Hit(0) <==>
            dir[0] != 0 && dir[0] != 0xE5 && Agrees(dir[..8], name) && Agrees(dir[8..11], ext)
  {
    hide Names;
    if dir[0] != 0 {
      NamesIs(dir, name, ext, 0);
      assert Slot(dir, 0)[0] == dir[0];
    } else {
      assert Slot(dir, 0)[0] == dir[0];
    }
  }

  /** The slot of a long name "B..." with sequence number 0x41, read as the file "AB". */
  lemma LongNameTaken()
    ensures var slot := [0x41, 0x42, 0, 0x2E, 0, 0x2E, 0, 0x2E, 0, 0xFF, 0xFF, 0x0F] + seq(20, _ => 0);
      Find(slot, [0x41, 0x42, 0, 0, 0, 0, 0, 0], [0, 0, 0], 0) == Hit(0)
  {
    var slot: seq<byte> := [0x41, 0x42, 0, 0x2E, 0, 0x2E, 0, 0x2E, 0, 0xFF, 0xFF, 0x0F] + seq(20, _ => 0);
    var name: seq<byte> := [0x41, 0x42, 0, 0, 0, 0, 0, 0];
    assert slot[..8] == [0x41, 0x42, 0, 0x2E, 0, 0x2E, 0, 0x2E] && slot[8..11] == [0, 0xFF, 0xFF];
    assert forall i :: 2 < i < 8 ==> slot[..8][..i][2] == 0;
    assert forall i :: 0 < i < 3 ==> slot[8..11][..i][0] == 0;
    LongNameSlot(slot, name, [0, 0, 0]);
  }

  /** The search for a free slot finds the first one that starts with 0 or 0xE5. */
  lemma {:induction false} FreeIsFirst(dir: seq<byte>, j: nat)
    ensures FindFree(dir, j).Hit? ==>
      var i := FindFree(dir, j).index;
      && j <= i && 32 * i + 32 <= |dir| && (dir[32 * i] == 0 || dir[32 * i] == 0xE5)
      && forall k :: j <= k < i ==> dir[32 * k] != 0 && dir[32 * k] != 0xE5
    ensures FindFree(dir, j) == Missed ==>
      forall k :: j <= k && 32 * k + 32 <= |dir| ==> dir[32 * k] != 0 && dir[32 * k] != 0xE5
    decreases |dir| - 32 * j
  {
    if 32 * j + 32 <= |dir| {
      assert Slot(dir, j)[0] == dir[32 * j];
      FreeIsFirst(dir, j + 1);
    }
  }

  // ---- Inserting an entry ----

  function Insert(dir: seq<byte>, f: nat, e: seq<byte>): (r: seq<byte>)
    requires SLOT * f + SLOT <= |dir| && |e| == SLOT
    ensures |r| == |dir|
  {
    Splice(dir, SLOT * f, e)
  }

  lemma InsertSlot(dir: seq<byte>, f: nat, e: seq<byte>, j: nat)
    requires SLOT * f + SLOT <= |dir| && |e| == SLOT && SLOT * j + SLOT <= |dir|
    ensures Slot(Insert(dir, f, e), j) == if j == f then e else Slot(dir, j)
  {
    var now := Slot(Insert(dir, f, e), j);
    if j == f {
      assert forall k :: 0 <= k < SLOT ==> now[k] == e[k];
    } else {
      assert forall k :: 0 <= k < SLOT ==> now[k] == Slot(dir, j)[k];
    }
  }

  /** The search after an insertion, from any slot up to the new one, for a name it carries. */
  lemma {:induction false} InsertFindsNew(dir: seq<byte>, f: nat, e: seq<byte>, name: seq<byte>, ext: seq<byte>, j: nat)
    requires |name| == 8 && |ext| == 3 && |e| == SLOT && FindFree(dir, j) == Hit(f)
    requires Names(e, name, ext)
    ensures Find(Insert(dir, f, e), name, ext, j) ==
            if Find(dir, name, ext, j).Hit? && Find(dir, name, ext, j).index < f
            then Find(dir, name, ext, j) else Hit(f)
    decreases |dir| - SLOT * j
  {
    hide SamePrefix, Insert, Slot;
    InsertSlot(dir, f, e, j);
    if j < f {
      InsertFindsNew(dir, f, e, name, ext, j + 1);
    }
  }

  lemma {:induction false} FindBeyond(dir: seq<byte>, f: nat, e: seq<byte>, name: seq<byte>, ext: seq<byte>, j: nat)
    requires |name| == 8 && |ext| == 3 && |e| == SLOT && f < j && SLOT * f + SLOT <= |dir|
    ensures Find(Insert(dir, f, e), name, ext, j) == Find(dir, name, ext, j)
    decreases |dir| - SLOT * j
  {
    if SLOT * j + SLOT <= |dir| {
      InsertSlot(dir, f, e, j);
      FindBeyond(dir, f, e, name, ext, j + 1);
    }
  }

  /** Behind a slot that starts with 0 no name is found. */
  lemma ZeroTailFindsNone(dir: seq<byte>, f: nat, name: seq<byte>, ext: seq<byte>)
    requires |name| == 8 && |ext| == 3 && ZeroTail(dir)
    requires SLOT * f + SLOT <= |dir| && Slot(dir, f)[0] == 0
    ensures !Find(dir, name, ext, f + 1).Hit?
  {
    if SLOT * (f + 1) + SLOT <= |dir| {
      assert Slot(dir, f + 1)[0] == 0;
    }
  }

  /** Every name the new entry does not carry is found where it was found before. */
  lemma {:induction false} InsertKeepsOthers(dir: seq<byte>, f: nat, e: seq<byte>, name: seq<byte>, ext: seq<byte>,
          j: nat)
    requires |name| == 8 && |ext| == 3 && |e| == SLOT && FindFree(dir, j) == Hit(f)
    requires !Names(e, name, ext) && e[0] != 0
    requires ZeroTail(dir)
    ensures Find(Insert(dir, f, e), name, ext, j).Hit? == Find(dir, name, ext, j).Hit?
    ensures Find(dir, name, ext, j).Hit? ==>
      Find(Insert(dir, f, e), name, ext, j) == Find(dir, name, ext, j) && Find(dir, name, ext, j).index != f
    decreases |dir| - SLOT * j
  {
    hide SamePrefix, Insert, ZeroTail, Slot;
    InsertSlot(dir, f, e, j);
    if j < f {
      InsertKeepsOthers(dir, f, e, name, ext, j + 1);
    } else {
      FindBeyond(dir, f, e, name, ext, j + 1);
      if Slot(dir, f)[0] == 0 {
        ZeroTailFindsNone(dir, f, name, ext);
      }
    }
  }

  /** No slot before the first free one is free. */
  lemma {:induction false} FindFreeIsFirst(dir: seq<byte>, j: nat, i: nat)
    requires j <= i && SLOT * i + SLOT <= |dir|
    requires FindFree(dir, j).Hit? ==> i < FindFree(dir, j).index
    ensures !Free(Slot(dir, i))
    decreases |dir| - SLOT * j
  {
    if j < i {
      FindFreeIsFirst(dir, j + 1, i);
    }
  }

  lemma InsertKeepsZeroTail(dir: seq<byte>, f: nat, e: seq<byte>)
    requires |e| == SLOT && FindFree(dir, 0) == Hit(f) && e[0] != 0
    requires ZeroTail(dir)
    ensures ZeroTail(Insert(dir, f, e))
  {
    var now := Insert(dir, f, e);
    forall i, j | 0 <= i <= j && SLOT * j + SLOT <= |now| && Slot(now, i)[0] == 0
      ensures Slot(now, j)[0] == 0
    {
      InsertSlot(dir, f, e, i);
      InsertSlot(dir, f, e, j);
      if i < f {
        FindFreeIsFirst(dir, 0, i);
      }
    }
  }

  // ---- 8.3 names ----

  /** How many bytes FatConvert83 takes for the name: up to a dot, and at most 8. */
  function StemLength(path: seq<byte>, k: nat): (n: nat)
    requires k <= 8 && k <= |path|
    ensures k <= n <= 8 && n <= |path|
    decreases 8 - k
  {
    if k < |path| && path[k] != DOT && k < 8 then StemLength(path, k + 1) else k
  }

  /** What follows the name; one dot is skipped. */
  function AfterStem(path: seq<byte>): seq<byte> {
    var rest := path[StemLength(path, 0)..];
    if rest != [] && rest[0] == DOT then rest[1..] else rest
  }

  /** How many bytes it takes for the extension: up to a slash, and at most 3. */
  function ExtLength(rest: seq<byte>, k: nat): (n: nat)
    requires k <= 3 && k <= |rest|
    ensures k <= n <= 3 && n <= |rest|
    decreases 3 - k
  {
    if k < |rest| && k < 3 && rest[k] != SLASH then ExtLength(rest, k + 1) else k
  }

  function Padded(s: seq<byte>, n: nat): (r: seq<byte>)
    requires |s| <= n
    ensures |r| == n
  {
    s + seq(n - |s|, _ => SPACE)
  }

  function Name8(path: seq<byte>): (r: seq<byte>)
    ensures |r| == 8
  {
    Padded(path[..StemLength(path, 0)], 8)
  }

  function Ext3(path: seq<byte>): (r: seq<byte>)
    ensures |r| == 3
  {
    var rest := AfterStem(path);
    Padded(rest[..ExtLength(rest, 0)], 3)
  }

  /** FatConvert83 on the bytes of a C string. */
  method FatConvert83(path: seq<byte>, nameOut: array<byte>, extOut: array<byte>)
    requires nameOut != extOut && nameOut.Length == 8 && extOut.Length == 3 && 0 !in path
    modifies nameOut, extOut
    ensures nameOut[..] == Name8(path) && extOut[..] == Ext3(path)
    ensures 0 !in nameOut[..] && 0 !in extOut[..]
  {
    FillBytes(nameOut, SPACE);
    FillBytes(extOut, SPACE);
    var n := 0;
    while n < |path| && path[n] != DOT && n < 8
      modifies nameOut
      invariant n <= |path| && n <= 8 && StemLength(path, 0) == StemLength(path, n)
      invariant forall k :: 0 <= k < 8 ==> nameOut[k] == if k < n then path[k] else SPACE
    {
      nameOut[n] := path[n];
      n := n + 1;
    }
    assert StemLength(path, 0) == n && nameOut[..] == Name8(path);
    var p := if n < |path| && path[n] == DOT then n + 1 else n;
    CopyExtension(path, p, extOut);
    assert path[p..] == AfterStem(path);
  }

  /** The second loop of FatConvert83. */
  method CopyExtension(path: seq<byte>, p: nat, extOut: array<byte>)
    requires p <= |path| && 0 !in path && extOut.Length == 3
    requires forall k :: 0 <= k < 3 ==> extOut[k] == SPACE
    modifies extOut
    ensures extOut[..] == Padded(path[p..][..ExtLength(path[p..], 0)], 3) && 0 !in extOut[..]
  {
    ghost var rest := path[p..];
    var e := 0;
    while p + e < |path| && e < 3 && path[p + e] != SLASH
      invariant e <= |rest| && e <= 3 && ExtLength(rest, 0) == ExtLength(rest, e)
      invariant forall k :: 0 <= k < 3 ==> extOut[k] == if k < e then path[p + k] else SPACE
    {
      extOut[e] := path[p + e];
      e := e + 1;
    }
    assert extOut[..] == Padded(rest[..e], 3);
  }

  lemma {:induction false} StemStops(path: seq<byte>, k: nat, n: nat)
    requires k <= n <= 8 && n <= |path|
    requires forall i :: 0 <= i < n ==> path[i] != DOT
    requires n == 8 || n == |path| || path[n] == DOT
    ensures StemLength(path, k) == n
    decreases n - k
  {
    if k < n {
      StemStops(path, k + 1, n);
    }
  }

  /** The bytes before the first slash. */
  function BeforeSlash(s: seq<byte>): (r: seq<byte>)
    ensures |r| <= |s|
  {
    if s == [] || s[0] == 47 then [] else [s[0]] + BeforeSlash(s[1..])
  }

  function Extension(s: seq<byte>): (r: seq<byte>)
    ensures |r| <= 3
  {
    BeforeSlash(s)[..Min(3, |BeforeSlash(s)|)]
  }

  lemma {:induction false} ExtensionFrom(rest: seq<byte>, k: nat)
    requires k <= 3 && k <= |rest|
    ensures var tail := BeforeSlash(rest[k..]);
      ExtLength(rest, k) == k + Min(3 - k, |tail|) && rest[k..ExtLength(rest, k)] == tail[..Min(3 - k, |tail|)]
    decreases 3 - k
  {
    if k < |rest| && k < 3 && rest[k] != SLASH {
      ExtensionFrom(rest, k + 1);
      assert rest[k..][1..] == rest[k + 1..];
      var n := ExtLength(rest, k);
      assert rest[k..n] == [rest[k]] + rest[k + 1..n];
    }
  }

  /** The bytes, with spaces behind them. */
  ghost predicate IsPadded(r: seq<byte>, s: seq<byte>, n: nat) {
    |r| == n && |s| <= n && forall k :: 0 <= k < n ==> r[k] == if k < |s| then s[k] else 32
  }

  /** Every path is a stem without a dot (46) and what follows it. The stem, and the first three bytes
      behind its dot and before a slash (47), are padded with spaces when the stem has at most 8
      bytes. A longer stem is cut after 8 bytes, and its next bytes become the extension. */
  lemma {:induction false} ConvertSplits(stem: seq<byte>, tail: seq<byte>)
    requires 46 !in stem && (tail == [] || tail[0] == 46)
    ensures var path := stem + tail;
      if |stem| <= 8 then
        IsPadded(Name8(path), stem, 8) && IsPadded(Ext3(path), Extension(if tail == [] then [] else tail[1..]), 3)
      else Name8(path) == stem[..8] && IsPadded(Ext3(path), Extension(stem[8..] + tail), 3)
  {
    var path := stem + tail;
    var n := Min(8, |stem|);
    assert forall i :: 0 <= i < |stem| ==> stem[i] in stem;
    StemStops(path, 0, n);
    var rest := AfterStem(path);
    ExtensionFrom(rest, 0);
    assert rest[0..] == rest;
    assert path[..n] == stem[..n];
    if |stem| <= 8 {
      assert path[n..] == tail && rest == if tail == [] then [] else tail[1..];
    } else {
      assert rest == path[8..] == stem[8..] + tail;
    }
  }

  /** "A.TXT" becomes "A       " and "TXT". */
  lemma ConvertsName()
    ensures var path := [65, 46, 84, 88, 84];
      Name8(path) == [65, 32, 32, 32, 32, 32, 32, 32] && Ext3(path) == [84, 88, 84]
  {
    var stem: seq<byte>, tail: seq<byte> := [65], [46, 84, 88, 84];
    ConvertSplits(stem, tail);
    assert stem + tail == [65, 46, 84, 88, 84] && tail[1..] == [84, 88, 84];
    assert BeforeSlash([84, 88, 84]) == [84, 88, 84];
  }
}
