/** Machine words and flat byte devices shared by the drivers.
    `unsigned long`, `size_t` and `DWORD` are 32 bits wide (the ia32 target): every sum or
    product the C code computes in them is taken modulo WORD. */
module Bytes {
  const WORD: int := 0x1_0000_0000

  type byte = x: int | 0 <= x < 256
  type word = x: int | 0 <= x < 0x1_0000
  type dword = x: int | 0 <= x < WORD

  function Min(a: nat, b: nat): nat {
    if a < b then a else b
  }

  /** C's conversion of an arithmetic result to a 32-bit unsigned integer. */
  function Wrap(x: int): (r: dword) {
    x % WORD
  }

  lemma WrapIs(x: int, q: int, r: dword)
    requires x == q * WORD + r
    ensures Wrap(x) == r
  {
  }

  lemma WrapAdd(x: int, y: int)
    ensures Wrap(Wrap(x) + y) == Wrap(x + y)
  {
    WrapIs(x + y, x / WORD + (Wrap(x) + y) / WORD, Wrap(Wrap(x) + y));
  }

  /** Little-endian words. */
  function LE16(s: seq<byte>): (r: word)
    requires |s| == 2
  {
    s[0] as int + 0x100 * s[1] as int
  }

  function LE32(s: seq<byte>): (r: dword)
    requires |s| == 4
  {
    LE16(s[..2]) as int + 0x1_0000 * LE16(s[2..]) as int
  }

  function ToLE16(x: word): (s: seq<byte>)
    ensures |s| == 2 && LE16(s) == x
  {
    [x % 0x100, x / 0x100]
  }

  function ToLE32(x: dword): (s: seq<byte>)
    ensures |s| == 4 && LE32(s) == x
  {
    var lo, hi := ToLE16(x % 0x1_0000), ToLE16(x / 0x1_0000);
    assert (lo + hi)[..2] == lo && (lo + hi)[2..] == hi;
    lo + hi
  }

  lemma Halves(x: dword)
    ensures x % 0x1_0000 % 0x100 == x % 0x100 && x % 0x1_0000 / 0x100 == x / 0x100 % 0x100
    ensures x / 0x1_0000 / 0x100 == x / 0x100_0000
  {
    var h, m, l := x / 0x1_0000, x % 0x1_0000 / 0x100, x % 0x1_0000 % 0x100;
    assert x == 0x100 * (0x100 * h + m) + l;
    assert x / 0x100 == 0x100 * h + m && x % 0x100 == l;
    var q := x / 0x100;
    assert q / 0x100 == h && q / 0x100 / 0x100 == x / 0x100_0000;
  }

  lemma DwordBytes(x: dword)
    ensures ToLE32(x) == [x % 0x100, x / 0x100 % 0x100, x / 0x1_0000 % 0x100, x / 0x100_0000]
  {
    Halves(x);
  }

  /** The four bytes of a dword, taken out by masks and shifts. */
  lemma ByteSum(x: dword)
    ensures x % 0x100 + 0x100 * (x / 0x100 % 0x100) + 0x1_0000 * (x / 0x1_0000 % 0x100)
        + 0x100_0000 * (x / 0x100_0000) == x
  {
    var q := x / 0x100;
    var r := q / 0x100;
    assert x / 0x1_0000 == r;
    assert x / 0x100_0000 == r / 0x100;
  }

  /** `n` bytes from address `off` on: addresses wrap at 2^32 and read as 0 past the end. */
  function FlatRead(m: seq<byte>, off: nat, n: nat): (r: seq<byte>)
    ensures |r| == n
  {
    seq(n, k requires 0 <= k => var a := Wrap(off + k); if a < |m| then m[a] else 0)
  }

  /** True when address `a` is one of the `n` addresses that start at `off`. */
  predicate Covers(off: int, n: nat, a: nat) {
    a < WORD && Wrap(a - off) < n
  }

  /** The device after storing `d` from address `off` on; bytes past the end are dropped. */
  function FlatWrite(m: seq<byte>, off: nat, d: seq<byte>): (r: seq<byte>)
    ensures |r| == |m|
  {
    seq(|m|, a requires 0 <= a < |m| => if Covers(off, |d|, a) then d[Wrap(a - off)] else m[a])
  }

  /** Byte k of what is read lies k addresses on, modulo 2^32, and is 0 past the end. */
  lemma FlatReadAt(m: seq<byte>, off: dword, n: nat, k: nat)
    requires k < n
    ensures var a := (off + k) % 0x1_0000_0000; FlatRead(m, off, n)[k] == if a < |m| then m[a] else 0
  {
    assert Wrap(off + k) == (off + k) % 0x1_0000_0000;
  }

  /** Byte k of what is written goes k addresses on, modulo 2^32. */
  lemma FlatWriteAt(m: seq<byte>, off: dword, d: seq<byte>, k: nat)
    requires k < |d| <= 0x1_0000_0000
    ensures var a := (off + k) % 0x1_0000_0000; a < |m| ==> FlatWrite(m, off, d)[a] == d[k]
  {
    var a := (off + k) % 0x1_0000_0000;
    WrapIs(a - off, 0 - (off + k) / WORD, k);
  }

  /** A byte that lies as many addresses on as are written, or more, keeps its value. */
  lemma FlatWriteKeeps(m: seq<byte>, off: dword, d: seq<byte>, a: nat)
    requires a < |m| && (a >= 0x1_0000_0000 || (a - off) % 0x1_0000_0000 >= |d|)
    ensures FlatWrite(m, off, d)[a] == m[a]
  {
    assert Wrap(a - off) == (a - off) % 0x1_0000_0000;
  }

  /** `m` with the bytes at `a` and following replaced by `d`. */
  function Splice<T>(m: seq<T>, a: nat, d: seq<T>): (r: seq<T>)
    requires a + |d| <= |m|
    ensures |r| == |m|
    ensures forall i :: 0 <= i < |m| ==> r[i] == if a <= i < a + |d| then d[i - a] else m[i]
  {
    m[..a] + d + m[a + |d|..]
  }

  lemma SpliceJoin<T>(m: seq<T>, d: seq<T>, e: seq<T>)
    requires |d| + |e| <= |m|
    ensures Splice(Splice(m, 0, d), |d|, e) == Splice(m, 0, d + e)
    ensures Splice(m, 0, []) == m
  {
  }

  lemma SpliceWhole<T>(m: seq<T>, d: seq<T>)
    requires |d| == |m|
    ensures Splice(m, 0, d) == d
  {
  }

  lemma FlatReadInside(m: seq<byte>, off: nat, n: nat)
    requires off + n <= |m| && off + n <= WORD
    ensures FlatRead(m, off, n) == m[off..off + n]
  {
    forall k | 0 <= k < n
      ensures FlatRead(m, off, n)[k] == m[off + k]
    {
      assert Wrap(off + k) == off + k;
    }
  }

  lemma FlatWriteInside(m: seq<byte>, off: nat, d: seq<byte>)
    requires off + |d| <= |m| && off + |d| <= WORD
    ensures FlatWrite(m, off, d) == Splice(m, off, d)
  {
    forall a | 0 <= a < |m|
      ensures FlatWrite(m, off, d)[a] == Splice(m, off, d)[a]
    {
      if off <= a < off + |d| {
        assert Wrap(a - off) == a - off;
      } else if a < off {
        assert Wrap(a - off) == a - off + WORD;
      }
    }
  }

  /** Writing `d + e` is writing `d` and then `e` where `d` ended. */
  lemma FlatWriteAppend(m: seq<byte>, off: nat, d: seq<byte>, e: seq<byte>)
    requires |d| + |e| < WORD
    ensures FlatWrite(m, off, d + e) == FlatWrite(FlatWrite(m, off, d), Wrap(off + |d|), e)
  {
    var half, next := FlatWrite(m, off, d), Wrap(off + |d|);
    forall a | 0 <= a < |m|
      ensures FlatWrite(m, off, d + e)[a] == FlatWrite(half, next, e)[a]
    {
      WrapAfter(off, |d|, a);
    }
  }

  /** How far `a` lies beyond `off + n`, from how far it lies beyond `off`. */
  lemma WrapAfter(off: nat, n: nat, a: nat)
    requires n < WORD
    ensures Wrap(a - Wrap(off + n)) == if Wrap(a - off) >= n then Wrap(a - off) - n else Wrap(a - off) - n + WORD
  {
    var r := Wrap(a - off);
    var q := (a - off) / WORD - (0 - (off + n) / WORD);
    if r >= n {
      WrapIs(a - Wrap(off + n), q, r - n);
    } else {
      WrapIs(a - Wrap(off + n), q - 1, r - n + WORD);
    }
  }

  /** The byte-copying loop of `memcpy` and of the drivers' transfers. */
  method CopyBytes(dst: array<byte>, at: nat, src: array<byte>, from: nat, n: nat)
    requires dst != src && at + n <= dst.Length && from + n <= src.Length
    modifies dst
    ensures dst[..] == Splice(old(dst[..]), at, src[from..from + n])
  {
    for i := 0 to n
      invariant forall k :: 0 <= k < dst.Length ==>
        dst[k] == if at <= k < at + i then src[from + (k - at)] else old(dst[k])
    {
      dst[at + i] := src[from + i];
    }
  }

  /** `memset` over a whole buffer. */
  method FillBytes(dst: array<byte>, v: byte)
    modifies dst
    ensures forall k :: 0 <= k < dst.Length ==> dst[k] == v
  {
    for i := 0 to dst.Length
      invariant forall k :: 0 <= k < i ==> dst[k] == v
    {
      dst[i] := v;
    }
  }
}
