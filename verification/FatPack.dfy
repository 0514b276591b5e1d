/** Directory positions packed into one 32-bit word by shifts and ORs, as FatFindFreeEntry returns
    them and FatWriteDirectoryEntry takes them apart (src/modules/fat/main.c). */
module FatPack {
  import opened Bytes

  /** Bitwise OR. */
  function Or(a: nat, b: nat): nat {
    if a == 0 && b == 0 then 0
    else (if a % 2 == 1 || b % 2 == 1 then 1 else 0) + 2 * Or(a / 2, b / 2)
  }

  /** a << k */
  function ShiftLeft(a: nat, k: nat): nat {
    if k == 0 then a else 2 * ShiftLeft(a, k - 1)
  }

  const CLUSTER_SHIFT: nat := 16
  const SECTOR_SHIFT: nat := 8

  function Pack(cluster: nat, s: nat, i: nat): dword {
    Wrap(Or(Or(Wrap(ShiftLeft(cluster, CLUSTER_SHIFT)), ShiftLeft(s, SECTOR_SHIFT)), i))
  }

  function PackedCluster(location: dword): nat {
    location / 0x1_0000
  }

  function PackedSector(location: dword): nat {
    location / 0x100 % 0x100
  }

  function PackedIndex(location: dword): nat {
    location % 0x100
  }

  lemma {:induction false} ShiftShift(a: nat, j: nat, k: nat)
    ensures ShiftLeft(a, j + k) == ShiftLeft(ShiftLeft(a, j), k)
  {
    if k > 0 {
      ShiftShift(a, j, k - 1);
    }
  }

  lemma ShiftByte(a: nat)
    ensures ShiftLeft(a, SECTOR_SHIFT) == 0x100 * a
    ensures ShiftLeft(a, CLUSTER_SHIFT) == 0x1_0000 * a
  {
    assert ShiftLeft(a, 2) == 2 * ShiftLeft(a, 1) == 4 * a;
    Shift4(a);
    Shift4(16 * a);
    ShiftShift(a, 4, 4);
    Shift4(0x100 * a);
    Shift4(0x1000 * a);
    ShiftShift(0x100 * a, 4, 4);
    ShiftShift(a, 8, 8);
  }

  lemma Shift4(a: nat)
    ensures ShiftLeft(a, 4) == 16 * a
  {
    assert ShiftLeft(a, 1) == 2 * a;
    assert ShiftLeft(a, 2) == 4 * a;
    assert ShiftLeft(a, 3) == 8 * a;
  }

  lemma {:induction false} OrZero(a: nat)
    ensures Or(a, 0) == a
  {
    if a > 0 {
      OrZero(a / 2);
    }
  }

  /** A shifted number and one below the shift share no bit, so their OR is their sum. */
  lemma {:induction false} OrIsSum(a: nat, b: nat, k: nat)
    requires b < ShiftLeft(1, k)
    ensures Or(ShiftLeft(a, k), b) == ShiftLeft(a, k) + b
    decreases k
  {
    if k == 0 {
      OrZero(a);
    } else {
      OrIsSum(a, b / 2, k - 1);
    }
  }

  lemma JoinByte(a: nat, b: nat)
    requires b < 0x100
    ensures Or(0x100 * a, b) == 0x100 * a + b
  {
    ShiftByte(a);
    ShiftByte(1);
    OrIsSum(a, b, SECTOR_SHIFT);
  }

  lemma JoinWord(a: nat, b: nat)
    requires b < 0x1_0000
    ensures Or(0x1_0000 * a, b) == 0x1_0000 * a + b
  {
    ShiftByte(a);
    ShiftByte(1);
    OrIsSum(a, b, CLUSTER_SHIFT);
  }

  lemma PackIs(cluster: nat, s: nat, i: nat)
    requires cluster < 0x1_0000 && s < 0x100 && i < 0x100
    ensures Pack(cluster, s, i) == 0x1_0000 * cluster + 0x100 * s + i
  {
    hide Or, ShiftLeft;
    var a, b := ShiftLeft(cluster, CLUSTER_SHIFT), ShiftLeft(s, SECTOR_SHIFT);
    assert a == 0x1_0000 * cluster && b == 0x100 * s by {
      ShiftByte(cluster);
      ShiftByte(s);
    }
    assert Or(a, b) == a + b by {
      JoinWord(cluster, b);
    }
    var ab := a + b;
    assert Or(ab, i) == ab + i by {
      JoinByte(0x100 * cluster + s, i);
    }
  }

  lemma UnpackSum(cluster: nat, s: nat, i: nat)
    requires cluster < 0x1_0000 && s < 0x100 && i < 0x100
    ensures var p := 0x1_0000 * cluster + 0x100 * s + i;
      PackedCluster(p) == cluster && PackedSector(p) == s && PackedIndex(p) == i
  {
  }

  /** Packing loses nothing exactly for cluster numbers below 65536 and slot indices below 256.
      Sector numbers within a cluster are below 256 on every volume. */
  lemma PackLossless(cluster: nat, s: nat, i: nat)
    requires s < 0x100
    ensures (PackedCluster(Pack(cluster, s, i)) == cluster && PackedSector(Pack(cluster, s, i)) == s
        && PackedIndex(Pack(cluster, s, i)) == i)
            <==> cluster < 0x1_0000 && i < 0x100
  {
    var p := Pack(cluster, s, i);
    assert PackedCluster(p) < 0x1_0000 && PackedIndex(p) < 0x100;
    if cluster < 0x1_0000 && i < 0x100 {
      PackIs(cluster, s, i);
      UnpackSum(cluster, s, i);
    }
  }

  lemma {:induction false} OrZeroIff(a: nat, b: nat)
    ensures Or(a, b) == 0 <==> a == 0 && b == 0
    decreases a + b
  {
    if a + b > 0 {
      OrZeroIff(a / 2, b / 2);
    }
  }

  /** Among slot positions of a volume, those packed as 0 are the first slots of clusters whose
      numbers are multiples of 65536. */
  lemma PackZeroIff(cluster: nat, s: nat, i: nat)
    requires s < 0x100 && i < 0x1_0000
    ensures Pack(cluster, s, i) == 0 <==> cluster % 0x1_0000 == 0 && s == 0 && i == 0
  {
    hide Or, ShiftLeft;
    var a, b := Wrap(ShiftLeft(cluster, CLUSTER_SHIFT)), ShiftLeft(s, SECTOR_SHIFT);
    ShiftByte(cluster);
    ShiftByte(s);
    ShiftByte(1);
    ShiftByte(0x1_0000);
    ShiftShift(1, 16, 16);
    OrZeroIff(a, b);
    OrZeroIff(Or(a, b), i);
    OrSmall(a, b, 32);
    OrSmall(Or(a, b), i, 32);
    WordMultiple(cluster);
  }

  lemma WordMultiple(cluster: nat)
    ensures Wrap(0x1_0000 * cluster) == 0x1_0000 * (cluster % 0x1_0000)
  {
    WrapIs(0x1_0000 * cluster, cluster / 0x1_0000, 0x1_0000 * (cluster % 0x1_0000));
  }

  lemma {:induction false} OrSmall(a: nat, b: nat, k: nat)
    requires a < ShiftLeft(1, k) && b < ShiftLeft(1, k)
    ensures Or(a, b) < ShiftLeft(1, k)
    decreases k
  {
    if k > 0 && !(a == 0 && b == 0) {
      OrSmall(a / 2, b / 2, k - 1);
    }
  }

  /** A packed position is never 0, the value that stands for "no free slot". */
  lemma PackNonZero(cluster: nat, s: nat, i: nat)
    requires 0 < cluster < 0x1_0000 && s < 0x100 && i < 0x100
    ensures Pack(cluster, s, i) != 0
  {
    PackIs(cluster, s, i);
  }
}
