/** The byte interface of the IDE driver (src/modules/ide/main.c) over 512-byte sectors, for an
    ATA drive that is present and reports no error. */
module Ide {
  import opened Bytes
  import opened TaskFile

  const SECTOR: int := 512

  /** A return value of type `int` made from an unsigned 32-bit one. */
  function AsInt(x: dword): int {
    if x < 0x8000_0000 then x else x - WORD
  }

  /** One drive and the VNode that stands for it. `fileOffset` is the 32-bit pattern of the
      node's offset field. */
  class IdeDrive {
    const media: array<byte>
    const size: dword
    const hasLba: bool
    var fileOffset: dword

    /** A drive without LBA has no more sectors than cylinder, head and sector can address. */
    ghost predicate Valid() {
      media.Length == size * SECTOR && (hasLba || size <= CHS_LIMIT)
    }

    ghost function Disk(): (m: seq<byte>)
      reads media
      ensures m == media[..]
    {
      media[..]
    }

    constructor (m: array<byte>, sectors: dword, lba: bool)
      requires m.Length == sectors * SECTOR && (lba || sectors <= CHS_LIMIT)
      ensures Valid() && media == m && size == sectors && hasLba == lba && fileOffset == 0
    {
      media, size, hasLba, fileOffset := m, sectors, lba, 0;
    }

    /** The sector that the drive decodes from the registers IDEAccess fills in. */
    method SectorAccessed(lba: dword) returns (at: int)
      requires Valid() && lba < size
      ensures at == lba
    {
      var mode, io, head := LbaRegisters(hasLba, lba);
      at := Decode(mode, io[0], io[1], io[2], io[3], io[4], io[5], head);
    }

    method IDEReadSectors(lba: dword, buffer: array<byte>) returns (err: int)
      requires Valid() && buffer.Length == SECTOR && buffer != media
      modifies buffer
      ensures err == (if Wrap(lba + 1) > size then 2 else 0)
      ensures err == 0 && lba < size ==> buffer[..] == media[lba * SECTOR..(lba + 1) * SECTOR]
    {
      if Wrap(lba + 1) > size {
        return 2;
      }
      if lba < size {
        var at := SectorAccessed(lba);
        forall i | 0 <= i < SECTOR {
          buffer[i] := media[at * SECTOR + i];
        }
      }
      err := 0;
    }

    method IDEWriteSectors(lba: dword, buffer: array<byte>) returns (err: int)
      requires Valid() && buffer.Length == SECTOR && buffer != media
      modifies media
      ensures err == (if Wrap(lba + 1) > size then 2 else 0)
      ensures media[..] == if err == 0 && lba < size
                           then Splice(old(media[..]), lba * SECTOR, buffer[..]) else old(media[..])
    {
      if Wrap(lba + 1) > size {
        return 2;
      }
      if lba < size {
        var at := SectorAccessed(lba);
        forall i | 0 <= i < SECTOR {
          media[at * SECTOR + i] := buffer[i];
        }
      }
      err := 0;
    }

    /** Any request reads the flat array of the drive's bytes from the node's offset on. */
    method IDEReadFunction(buf: array<byte>, count: dword, elements: dword) returns (r: int)
      requires Valid() && buf != media
      requires Wrap(count * elements) <= buf.Length
      modifies this`fileOffset, buf
      ensures r == if count == 0 then 0 else if elements < 0x8000_0000 then elements else elements - 0x1_0000_0000
      ensures fileOffset == Wrap(old(fileOffset) + Wrap(count * elements))
      ensures buf[..] == Splice(old(buf[..]), 0, FlatRead(Disk(), old(fileOffset), Wrap(count * elements)))
    {
      if count == 0 || elements == 0 {
        assert Wrap(count * elements) == 0 && Wrap(fileOffset) == fileOffset;
        return 0;
      }
      ReadBytes(buf, Wrap(count * elements));
      r := AsInt(elements);
    }

    /** Any request writes the flat array of the drive's bytes from the node's offset on. */
    method IDEWriteFunction(buf: array<byte>, count: dword, elements: dword) returns (r: int)
      requires Valid() && buf != media
      requires Wrap(count * elements) <= buf.Length
      modifies this`fileOffset, media
      ensures r == if count == 0 then 0 else if elements < 0x8000_0000 then elements else elements - 0x1_0000_0000
      ensures fileOffset == Wrap(old(fileOffset) + Wrap(count * elements))
      ensures Disk() == FlatWrite(old(Disk()), old(fileOffset), buf[..Wrap(count * elements)])
    {
      if count == 0 || elements == 0 {
        assert Wrap(count * elements) == 0 && Wrap(fileOffset) == fileOffset;
        assert Disk() == FlatWrite(Disk(), fileOffset, buf[..0]);
        return 0;
      }
      WriteBytes(buf, Wrap(count * elements));
      r := AsInt(elements);
    }

    /** The transfer loop of IDEReadFunction. */
    method ReadBytes(buf: array<byte>, bytes: dword)
      requires Valid() && buf != media && bytes <= buf.Length
      modifies this`fileOffset, buf
      ensures fileOffset == Wrap(old(fileOffset) + bytes)
      ensures buf[..] == Splice(old(buf[..]), 0, FlatRead(Disk(), old(fileOffset), bytes))
    {
      hide FlatRead, Splice;
      var remaining, current := bytes, fileOffset;
      ghost var m, flat := Disk(), FlatRead(Disk(), fileOffset, bytes);
      SpliceJoin(buf[..], flat[..0], flat);
      assert flat[..0] == [];
      while remaining > 0
        modifies buf
        invariant 0 <= remaining <= bytes
        invariant current == Wrap(fileOffset + (bytes - remaining))
        invariant buf[..] == Splice(old(buf[..]), 0, flat[..bytes - remaining])
      {
        var done, chunk := bytes - remaining, Min(SECTOR - current % SECTOR, remaining);
        ReadChunk(buf, done, chunk, current);
        assert Disk() == m;
        WrapAdd(fileOffset + done, chunk);
        FlatReadAppend(m, fileOffset, done, chunk, bytes);
        SpliceJoin(old(buf[..]), flat[..done], flat[done..done + chunk]);
        assert flat[..done] + flat[done..done + chunk] == flat[..done + chunk];
        current, remaining := Wrap(current + chunk), remaining - chunk;
      }
      fileOffset := Wrap(fileOffset + bytes);
      assert flat[..bytes] == flat;
    }

    /** One round of that loop: at most the rest of one sector. */
    method ReadChunk(buf: array<byte>, done: nat, chunk: nat, current: dword)
      requires Valid() && buf != media
      requires done + chunk <= buf.Length && chunk <= SECTOR - current % SECTOR
      modifies buf
      ensures buf[..] == Splice(old(buf[..]), done, FlatRead(Disk(), current, chunk))
    {
      var sector, offset := current / SECTOR, current % SECTOR;
      var buffer := new byte[SECTOR](_ => 0);
      if sector < size {
        var err := IDEReadSectors(sector, buffer);
      }
      SectorRead(Disk(), sector, offset, chunk, buffer[..], size);
      CopyBytes(buf, done, buffer, offset, chunk);
    }

    /** The transfer loop of IDEWriteFunction. */
    method WriteBytes(buf: array<byte>, bytes: dword)
      requires Valid() && buf != media && bytes <= buf.Length
      modifies this`fileOffset, media
      ensures fileOffset == Wrap(old(fileOffset) + bytes)
      ensures Disk() == FlatWrite(old(Disk()), old(fileOffset), buf[..bytes])
    {
      ghost var before := Disk();
      var remaining, current := bytes, fileOffset;
      assert Disk() == FlatWrite(before, fileOffset, buf[..0]);
      while remaining > 0
        modifies media
        invariant 0 <= remaining <= bytes
        invariant current == Wrap(fileOffset + (bytes - remaining))
        invariant Disk() == FlatWrite(before, fileOffset, buf[..bytes - remaining])
      {
        var done, chunk := bytes - remaining, Min(SECTOR - current % SECTOR, remaining);
        WriteChunk(buf, done, chunk, current);
        assert buf[..done] + buf[done..done + chunk] == buf[..done + chunk];
        WrapAdd(fileOffset + done, chunk);
        FlatWriteAppend(before, fileOffset, buf[..done], buf[done..done + chunk]);
        current, remaining := Wrap(current + chunk), remaining - chunk;
      }
      fileOffset := Wrap(fileOffset + bytes);
    }

    /** One round of that loop: a partial sector is read first, so its other bytes survive. */
    method WriteChunk(buf: array<byte>, done: nat, chunk: nat, current: dword)
      requires Valid() && buf != media
      requires done + chunk <= buf.Length && chunk <= SECTOR - current % SECTOR
      modifies media
      ensures Disk() == FlatWrite(old(Disk()), current, buf[done..done + chunk])
    {
      hide FlatWrite, Wrap;
      var sector, offset := current / SECTOR, current % SECTOR;
      NextSector(sector, size);
      ghost var m, piece := Disk(), buf[done..done + chunk];
      var buffer := new byte[SECTOR](_ => 0);
      if (offset != 0 || chunk != SECTOR) && sector < size {
        var err := IDEReadSectors(sector, buffer);
      }
      ghost var was := buffer[..];
      CopyBytes(buffer, offset, buf, done, chunk);
      assert buffer[..] == Splice(was, offset, piece);
      assert Disk() == m;
      SectorWrite(m, sector, offset, piece, was, buffer[..], size);
      if sector < size {
        var err := IDEWriteSectors(sector, buffer);
      }
    }
  }

  /** The part of a sector read from the current address on is the flat array's part. */
  lemma SectorRead(m: seq<byte>, sector: nat, offset: nat, chunk: nat, got: seq<byte>, size: dword)
    requires |m| == size * SECTOR && |got| == SECTOR
    requires sector * SECTOR + SECTOR <= WORD && offset + chunk <= SECTOR
    requires got == if sector < size then m[sector * SECTOR..(sector + 1) * SECTOR] else seq(SECTOR, _ => 0)
    ensures got[offset..offset + chunk] == FlatRead(m, sector * SECTOR + offset, chunk)
  {
    var left, right := got[offset..offset + chunk], FlatRead(m, sector * SECTOR + offset, chunk);
    forall j | 0 <= j < chunk
      ensures left[j] == right[j]
    {
      assert Wrap(sector * SECTOR + offset + j) == sector * SECTOR + offset + j;
    }
  }

  lemma FlatReadAppend(m: seq<byte>, off: nat, done: nat, chunk: nat, bytes: nat)
    requires done + chunk <= bytes
    ensures FlatRead(m, Wrap(off + done), chunk) == FlatRead(m, off, bytes)[done..done + chunk]
  {
    var left, right := FlatRead(m, Wrap(off + done), chunk), FlatRead(m, off, bytes)[done..done + chunk];
    forall j | 0 <= j < chunk
      ensures left[j] == right[j]
    {
      WrapAdd(off + done, j);
    }
  }

  lemma NextSector(sector: nat, size: dword)
    ensures sector < size ==> Wrap(sector + 1) == sector + 1
  {
  }

  /** Replacing a whole sector in which only `piece` changed writes `piece`; a sector past the
      end of the drive holds no byte of the flat array. */
  lemma SectorWrite(m: seq<byte>, sector: nat, offset: nat, piece: seq<byte>, was: seq<byte>, now: seq<byte>,
          size: dword)
    requires |m| == size * SECTOR && offset + |piece| <= SECTOR && |was| == |now| == SECTOR
    requires sector * SECTOR + SECTOR <= WORD
    requires sector < size && |piece| < SECTOR ==> was == m[sector * SECTOR..(sector + 1) * SECTOR]
    requires now == Splice(was, offset, piece)
    ensures FlatWrite(m, sector * SECTOR + offset, piece) ==
            if sector < size then Splice(m, sector * SECTOR, now) else m
  {
    hide Wrap, Covers, FlatWrite, Splice;
    var start := sector * SECTOR + offset;
    CoversRange(start, |piece|);
    forall a | 0 <= a < |m|
      ensures FlatWrite(m, start, piece)[a] == if sector * SECTOR <= a < (sector + 1) * SECTOR
          then now[a - sector * SECTOR] else m[a]
    {
      PieceAt(m, start, piece, a);
      var k := a - sector * SECTOR;
      if 0 <= k < SECTOR {
        assert sector < size;
        assert |piece| < SECTOR ==> was[k] == m[sector * SECTOR..(sector + 1) * SECTOR][k];
      }
    }
  }

  lemma CoversRange(start: nat, n: nat)
    requires start + n <= WORD
    ensures forall a :: 0 <= a ==> (Covers(start, n, a) <==> start <= a < start + n)
  {
    forall a | 0 <= a
      ensures Covers(start, n, a) <==> start <= a < start + n
    {
      if start <= a < start + n {
        assert Wrap(a - start) == a - start;
      } else if a < start && a < WORD {
        assert Wrap(a - start) == a - start + WORD;
      }
    }
  }

  lemma PieceAt(m: seq<byte>, start: nat, piece: seq<byte>, a: nat)
    requires start + |piece| <= WORD && a < |m|
    ensures FlatWrite(m, start, piece)[a] == if Covers(start, |piece|, a) then piece[a - start] else m[a]
  {
    CoversRange(start, |piece|);
    if Covers(start, |piece|, a) {
      assert Wrap(a - start) == a - start;
    }
  }

  /** What a client may ask of the node: set the offset, read bytes, write bytes. */
  datatype Request = Seek(offset: dword) | Read(n: dword) | Write(data: seq<byte>)

  predicate Sendable(rs: seq<Request>) {
    forall r :: r in rs && r.Write? ==> |r.data| < WORD
  }

  /** A flat array of bytes with a file offset. */
  datatype Flat = Flat(bytes: seq<byte>, offset: dword)

  function Serve1(d: Flat, r: Request): (Flat, seq<byte>) {
    match r
    case Seek(o) => (Flat(d.bytes, o), [])
    case Read(n) => (Flat(d.bytes, Wrap(d.offset + n)), FlatRead(d.bytes, d.offset, n))
    case Write(data) => (Flat(FlatWrite(d.bytes, d.offset, data), Wrap(d.offset + |data|)), [])
  }

  /** The device and everything read from it after a sequence of requests. */
  function Serve(d: Flat, rs: seq<Request>): (Flat, seq<byte>)
    decreases rs
  {
    if rs == [] then (d, [])
    else
      var (d1, out1) := Serve1(d, rs[0]);
      var (d2, out2) := Serve(d1, rs[1..]);
      (d2, out1 + out2)
  }

  /** The driver answers one request as the flat array does. */
  method ServeRequest(drive: IdeDrive, r: Request) returns (out: seq<byte>)
    requires drive.Valid() && (r.Write? ==> |r.data| < WORD)
    modifies drive, drive.media
    ensures drive.Valid()
    ensures (Flat(drive.Disk(), drive.fileOffset), out) == Serve1(old(Flat(drive.Disk(), drive.fileOffset)), r)
  {
    hide FlatRead, FlatWrite, Wrap, Splice;
    out := [];
    match r {
      case Seek(o) =>
        drive.fileOffset := o;
      case Read(n) =>
        WrapOnce(n);
        var buf := new byte[n](_ => 0);
        SpliceWhole(buf[..], FlatRead(drive.Disk(), drive.fileOffset, n));
        var k := drive.IDEReadFunction(buf, n, 1);
        out := buf[..];
      case Write(data) =>
        WrapOnce(|data|);
        var buf := new byte[|data|](k requires 0 <= k < |data| => data[k]);
        assert buf[..] == data && buf[..|data|] == data;
        var k := drive.IDEWriteFunction(buf, |data|, 1);
    }
  }

  lemma WrapOnce(n: dword)
    ensures Wrap(n * 1) == n
  {
  }

  /** The driver answers every sequence of requests as the flat array does. */
  method ServeRequests(drive: IdeDrive, rs: seq<Request>) returns (out: seq<byte>)
    requires drive.Valid() && Sendable(rs)
    modifies drive, drive.media
    ensures drive.Valid()
    ensures (Flat(drive.Disk(), drive.fileOffset), out)
         == Serve(old(Flat(drive.Disk(), drive.fileOffset)), rs)
  {
    hide Serve, Serve1;
    out := [];
    ghost var start := Flat(drive.Disk(), drive.fileOffset);
    ServeNone(start);
    assert rs[..0] == [];
    for i := 0 to |rs|
      invariant drive.Valid()
      invariant (Flat(drive.Disk(), drive.fileOffset), out) == Serve(start, rs[..i])
    {
      ghost var was := Flat(drive.Disk(), drive.fileOffset);
      ServeOne(was, rs[i]);
      ServeAppend(start, rs[..i], [rs[i]]);
      assert rs[..i] + [rs[i]] == rs[..i + 1];
      var more := ServeRequest(drive, rs[i]);
      out := out + more;
    }
    assert rs[..|rs|] == rs;
  }

  lemma ServeNone(d: Flat)
    ensures Serve(d, []) == (d, [])
  {
  }

  lemma ServeOne(d: Flat, r: Request)
    ensures Serve(d, [r]) == Serve1(d, r)
  {
    assert [r][1..] == [];
    assert Serve1(d, r).1 + [] == Serve1(d, r).1;
  }

  lemma {:induction false} ServeAppend(d: Flat, rs: seq<Request>, more: seq<Request>)
    ensures Serve(d, rs + more) ==
            (Serve(Serve(d, rs).0, more).0, Serve(d, rs).1 + Serve(Serve(d, rs).0, more).1)
    decreases rs
  {
    if rs == [] {
      assert rs + more == more;
      assert [] + Serve(d, more).1 == Serve(d, more).1;
    } else {
      assert (rs + more)[1..] == rs[1..] + more;
      var (d1, out1) := Serve1(d, rs[0]);
      var (d2, out2) := Serve(d1, rs[1..]);
      ServeAppend(d1, rs[1..], more);
      assert out1 + (out2 + Serve(d2, more).1) == (out1 + out2) + Serve(d2, more).1;
    }
  }

  /** None of the writes of `rs`, made from file offset `off` on, touches address `a`. */
  predicate Spares(off: dword, rs: seq<Request>, a: nat)
    decreases rs
  {
    rs == [] ||
    match rs[0]
    case Seek(o) => Spares(o, rs[1..], a)
    case Read(n) => Spares(Wrap(off + n), rs[1..], a)
    case Write(data) => !Covers(off, |data|, a) && Spares(Wrap(off + |data|), rs[1..], a)
  }

  lemma {:induction false} SparedByte(d: Flat, rs: seq<Request>, a: nat)
    requires Spares(d.offset, rs, a)
    ensures |Serve(d, rs).0.bytes| == |d.bytes|
    ensures a < |d.bytes| ==> Serve(d, rs).0.bytes[a] == d.bytes[a]
    decreases rs
  {
    if rs != [] {
      SparedByte(Serve1(d, rs[0]).0, rs[1..], a);
    }
  }

  /** What was written reads back after any requests that spare it, and past the end of the
      drive zeros read back. */
  lemma ReadBack(d: Flat, data: seq<byte>, between: seq<Request>, k: nat)
    requires k < |data| < WORD
    requires Spares(Wrap(d.offset + |data|), between, Wrap(d.offset + k))
    ensures var later := Serve(Serve1(d, Write(data)).0, between).0;
      FlatRead(later.bytes, d.offset, |data|)[k] ==
      if Wrap(d.offset + k) < |d.bytes| then data[k] else 0
  {
    SparedByte(Serve1(d, Write(data)).0, between, Wrap(d.offset + k));
    WrapAfter(0, 0, k);
    WrapIs(Wrap(d.offset + k) - d.offset, 0 - (d.offset + k) / WORD, k);
  }
}
