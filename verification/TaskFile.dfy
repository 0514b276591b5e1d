/** How IDEAccess (src/modules/ide/main.c) puts a sector address into the task-file registers,
    and what address an ATA drive decodes from them (ATA/ATAPI-6, clause 8). */
module TaskFile {
  import opened Bytes

  const SECCOUNT0: int := 2
  const LBA0: int := 3
  const LBA1: int := 4
  const LBA2: int := 5
  const HDDEVSEL: int := 6
  const COMMAND: int := 7
  const SECCOUNT1: int := 8
  const LBA3: int := 9
  const LBA4: int := 10
  const LBA5: int := 11

  const READ_PIO: byte := 0x20
  const READ_PIO_EXT: byte := 0x24
  const WRITE_PIO: byte := 0x30
  const WRITE_PIO_EXT: byte := 0x34

  const LBA48_FROM: int := 0x1000_0000
  const CHS_LIMIT: int := 65536 * 16 * 63

  /** The command block of one channel. Each register keeps the byte written before the last,
      which 48-bit commands read as the high-order part. */
  class CommandBlock {
    var current: seq<byte>
    var previous: seq<byte>

    ghost predicate Valid()
      reads this
    {
      |current| == 8 && |previous| == 8
    }

    constructor ()
      ensures Valid()
    {
      current, previous := [0, 0, 0, 0, 0, 0, 0, 0], [0, 0, 0, 0, 0, 0, 0, 0];
    }

    /** Registers 8 to 11 are the second write to ports 2 to 5. */
    method IDEWrite(reg: nat, data: byte)
      requires Valid() && reg < 12
      modifies this
      ensures Valid()
      ensures var port := if reg < 8 then reg else reg - 6;
        current == old(current)[port := data] &&
        previous == old(previous)[port := old(current)[port]]
    {
      var port := if reg < 8 then reg else reg - 6;
      previous := previous[port := current[port]];
      current := current[port := data];
    }

    /** The sector a drive transfers first, by the command it was given. */
    ghost function DecodedLba(): int
      requires Valid()
      reads this
    {
      var mode := DecodedMode(current[7], current[6]);
      Decode(mode, current[3], current[4], current[5], previous[3], previous[4], previous[5], current[6] % 16)
    }

    ghost function DecodedCount(): int
      requires Valid()
      reads this
    {
      if current[7] == READ_PIO_EXT || current[7] == WRITE_PIO_EXT
      then current[2] as int + 0x100 * previous[2] as int
      else current[2]
    }

    method WriteHighOrder(io: array<byte>)
      requires Valid() && io.Length == 6
      modifies this
      ensures Valid() && current[6] == old(current[6])
      ensures current[2] == 0 && current[3] == io[3] && current[4] == io[4] && current[5] == io[5]
    {
      IDEWrite(SECCOUNT1, 0);
      IDEWrite(LBA3, io[3]);
      IDEWrite(LBA4, io[4]);
      IDEWrite(LBA5, io[5]);
    }

    method WriteLowOrder(count: byte, io: array<byte>)
      requires Valid() && io.Length == 6
      modifies this
      ensures Valid() && current[6] == old(current[6])
      ensures current[2] == count && current[3] == io[0] && current[4] == io[1] && current[5] == io[2]
      ensures forall r :: 2 <= r < 6 ==> previous[r] == old(current[r])
    {
      IDEWrite(SECCOUNT0, count);
      IDEWrite(LBA0, io[0]);
      IDEWrite(LBA1, io[1]);
      IDEWrite(LBA2, io[2]);
    }

    /** The addressing part of IDEAccess. The drive decodes the sector that was asked for, in
        all but the cylinder/head/sector mode from CHS_LIMIT on. */
    method IDEAccess(write: bool, slave: bool, hasLba: bool, lba: dword, count: byte)
      requires Valid()
      modifies this
      ensures Valid()
      ensures DecodedLba() == lba <==> hasLba || lba >= LBA48_FROM || lba < CHS_LIMIT
      ensures DecodedCount() == count
      ensures current[6] / 16 % 2 == if slave then 1 else 0
      ensures current[7] == if lba >= 0x1000_0000 then (if write then 0x34 else 0x24) else if write then 0x30 else 0x20
      ensures current[6] / 32 == if lba >= 0x1000_0000 || hasLba then 7 else 5
      ensures IsAddress(hasLba, lba, current[3], current[4], current[5], current[6] % 16)
      ensures lba >= 0x1000_0000 ==> previous[3] == lba / 0x100_0000 && previous[4] == previous[5] == 0
    {
      var mode, io, head := LbaRegisters(hasLba, lba);
      var device := DeviceByte(mode != Chs, slave, head);
      IDEWrite(HDDEVSEL, device);
      if mode == Lba48 {
        WriteHighOrder(io);
      }
      WriteLowOrder(count, io);
      IDEWrite(COMMAND, if mode == Lba48 then (if write then WRITE_PIO_EXT else READ_PIO_EXT)
                        else if write then WRITE_PIO else READ_PIO);
      assert DecodedMode(current[7], current[6]) == mode;
      assert current[6] / 32 == device / 32;
    }
  }

  datatype Mode = Chs | Lba28 | Lba48

  function DecodedMode(command: byte, device: byte): Mode {
    if command == READ_PIO_EXT || command == WRITE_PIO_EXT then Lba48
    else if device / 64 % 2 == 1 then Lba28 else Chs
  }

  /** The device register: bit 6 asks for LBA, bit 4 picks the drive, the low nibble is the
      head or the top of the address. The OR-ed parts share no bit. */
  function DeviceByte(lbaBit: bool, slave: bool, head: byte): (d: byte)
    requires head < 16
    ensures d / 64 % 2 == (if lbaBit then 1 else 0)
    ensures d / 16 % 2 == (if slave then 1 else 0)
    ensures d % 16 == head && d / 32 == if lbaBit then 7 else 5
  {
    (if lbaBit then 0xE0 else 0xA0) + (if slave then 16 else 0) + head
  }

  /** The sector a drive finds for six address bytes and the head nibble. */
  function Decode(mode: Mode, b0: byte, b1: byte, b2: byte, b3: byte, b4: byte, b5: byte, head: byte): int {
    var low := b0 as int + 0x100 * b1 as int + 0x1_0000 * b2 as int;
    match mode
    case Lba48 => low + 0x100_0000 * (b3 as int + 0x100 * b4 as int + 0x1_0000 * b5 as int)
    case Lba28 => low + 0x100_0000 * head as int
    case Chs => ((b1 as int + 0x100 * b2 as int) * 16 + head) * 63 + b0 - 1
  }

  /** The low address bytes and the head nibble, by sector number: bytes of the number, from 2^28 on
      with the rest in the bytes written before, or cylinder, head and sector. */
  predicate IsAddress(hasLba: bool, lba: dword, b0: byte, b1: byte, b2: byte, head: int) {
    if lba >= 0x1000_0000 then
      b0 == lba % 0x100 && b1 == lba / 0x100 % 0x100 && b2 == lba / 0x1_0000 % 0x100 && head == 0
    else if hasLba then
      b0 == lba % 0x100 && b1 == lba / 0x100 % 0x100 && b2 == lba / 0x1_0000 % 0x100 && head == lba / 0x100_0000
    else
      && b0 == lba % 63 + 1 && head == lba / 63 % 16
      && b1 == lba / 63 / 16 % 0x100 && b2 == lba / 63 / 16 / 0x100 % 0x100
  }

  /** The choice of mode and the filling of `lba_io` in IDEAccess. */
  method LbaRegisters(hasLba: bool, lba: dword) returns (mode: Mode, io: array<byte>, head: byte)
    ensures mode == (if lba >= LBA48_FROM then Lba48 else if hasLba then Lba28 else Chs)
    ensures io.Length == 6 && fresh(io) && head < 16
    ensures Decode(mode, io[0], io[1], io[2], io[3], io[4], io[5], head) == if mode == Chs then lba % CHS_LIMIT else lba
    ensures IsAddress(hasLba, lba, io[0], io[1], io[2], head)
    ensures lba >= 0x1000_0000 ==> io[3] == lba / 0x100_0000 && io[4] == io[5] == 0
  {
    io := new byte[6](_ => 0);
    head := 0;
    ByteSum(lba);
    if lba >= LBA48_FROM {
      mode := Lba48;
      io[0], io[1] := lba % 0x100, lba / 0x100 % 0x100;
      io[2], io[3] := lba / 0x1_0000 % 0x100, lba / 0x100_0000;
    } else if hasLba {
      mode := Lba28;
      io[0], io[1], io[2] := lba % 0x100, lba / 0x100 % 0x100, lba / 0x1_0000 % 0x100;
      head := lba / 0x100_0000;
    } else {
      mode := Chs;
      var sect := lba % 63 + 1;
      var cyl: word := (lba + 1 - sect) / (16 * 63) % 0x1_0000;
      io[0], io[1], io[2] := sect, cyl % 0x100, cyl / 0x100;
      head := (lba + 1 - sect) % (16 * 63) / 63;
      ChsRoundTrip(lba);
      ChsParts(lba);
    }
  }

  lemma ChsParts(lba: dword)
    ensures var sect := lba % 63 + 1;
      && (lba + 1 - sect) / (16 * 63) == lba / 63 / 16 && (lba + 1 - sect) % (16 * 63) / 63 == lba / 63 % 16
      && lba / 63 / 16 % 0x1_0000 / 0x100 == lba / 63 / 16 / 0x100 % 0x100
      && lba / 63 / 16 % 0x1_0000 % 0x100 == lba / 63 / 16 % 0x100
  {
    var track := lba / 63;
    assert lba + 1 - (lba % 63 + 1) == 63 * track;
    assert 63 * track / (16 * 63) == track / 16 && 63 * track % (16 * 63) == 63 * (track % 16);
    CylinderBytes(track / 16);
  }

  lemma CylinderBytes(cyl: nat)
    ensures cyl % 0x1_0000 / 0x100 == cyl / 0x100 % 0x100 && cyl % 0x1_0000 % 0x100 == cyl % 0x100
  {
    assert cyl == cyl / 0x1_0000 * 0x1_0000 + cyl % 0x1_0000;
  }

  /** Cylinder numbers are cut to 16 bits, so a cylinder/head/sector address stands for the
      sector number modulo CHS_LIMIT. */
  lemma ChsRoundTrip(lba: dword)
    ensures var sect := lba % 63 + 1;
      var cyl := (lba + 1 - sect) / (16 * 63) % 0x1_0000;
      var head := (lba + 1 - sect) % (16 * 63) / 63;
      (cyl * 16 + head) * 63 + sect - 1 == lba % CHS_LIMIT
  {
    var track := lba / 63;
    assert lba + 1 - (lba % 63 + 1) == 63 * track;
    assert 63 * track / (16 * 63) == track / 16 && 63 * track % (16 * 63) == 63 * (track % 16);
    var cyl := track / 16;
    assert lba % CHS_LIMIT == (cyl % 0x1_0000 * 16 + track % 16) * 63 + lba % 63;
  }

  /** Sector CHS_LIMIT is addressed as sector 0: cylinder 65536 is cut to cylinder 0. */
  lemma ChsBeyondLimit()
    ensures var lba := CHS_LIMIT;
      var sect := lba % 63 + 1;
      var cyl := (lba + 1 - sect) / (16 * 63) % 0x1_0000;
      var head := (lba + 1 - sect) % (16 * 63) / 63;
      (cyl * 16 + head) * 63 + sect - 1 == 0
  {
    ChsRoundTrip(CHS_LIMIT);
  }
}
