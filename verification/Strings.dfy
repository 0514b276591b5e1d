/** The string routines that lookups and process names use (src/kernel/string.c). */
module Strings {
  import opened Bytes

  const ZERO: byte := 48

  // ---- Decimal digits ----

  type digit = d: int | 0 <= d < 10

  /** The digits of `n`, the lowest first. */
  function Digits(n: nat): (r: seq<digit>)
    ensures r != []
  {
    if n < 10 then [n] else [n % 10] + Digits(n / 10)
  }

  function Reverse<T>(s: seq<T>): (r: seq<T>)
    ensures |r| == |s| && forall k :: 0 <= k < |s| ==> r[k] == s[|s| - 1 - k]
  {
    if s == [] then [] else Reverse(s[1..]) + [s[0]]
  }

  /** The number that digits denote, the lowest first. */
  function Value(d: seq<digit>): nat {
    if d == [] then 0 else d[0] + 10 * Value(d[1..])
  }

  predicate Numeral(s: seq<byte>) {
    forall k :: 0 <= k < |s| ==> ZERO <= s[k] < ZERO + 10
  }

  /** The number that a string denotes in decimal notation, the highest digit first. */
  function Decimal(s: seq<byte>): nat
    requires Numeral(s)
  {
    if s == [] then 0 else 10 * Decimal(s[..|s| - 1]) + (s[|s| - 1] - ZERO)
  }

  function Text(d: seq<digit>): (s: seq<byte>)
    ensures |s| == |d| && forall k :: 0 <= k < |d| ==> s[k] == ZERO + d[k]
  {
    if d == [] then [] else [ZERO + d[0]] + Text(d[1..])
  }

  /** Digits written from the highest on denote their value. */
  lemma {:induction false} DecimalIsValue(s: seq<byte>, d: seq<digit>)
    requires Numeral(s) && |s| == |d| && forall k :: 0 <= k < |s| ==> s[k] == ZERO + d[|d| - 1 - k]
    ensures Decimal(s) == Value(d)
  {
    if s != [] {
      DecimalIsValue(s[..|s| - 1], d[1..]);
    }
  }

  lemma {:induction false} ValueOfDigits(n: nat)
    ensures Value(Digits(n)) == n
  {
    if n >= 10 {
      ValueOfDigits(n / 10);
      assert Digits(n)[1..] == Digits(n / 10);
    }
  }

  lemma {:induction false} ValueInjective(d: seq<digit>, e: seq<digit>)
    requires |d| == |e| && Value(d) == Value(e)
    ensures d == e
  {
    if d != [] {
      ValueInjective(d[1..], e[1..]);
      assert d == [d[0]] + d[1..] && e == [e[0]] + e[1..];
    }
  }

  /** As many digits as the number has in decimal: none is missing and none is a leading 0. */
  lemma {:induction false} DigitCount(n: nat, k: nat)
    requires k > 0
    ensures |Digits(n)| <= k <==> n < Power10(k)
    decreases k
  {
    if n >= 10 {
      if k > 1 {
        DigitCount(n / 10, k - 1);
      }
    } else {
      PowerGrows(k);
    }
  }

  function Power10(k: nat): nat {
    if k == 0 then 1 else 10 * Power10(k - 1)
  }

  lemma {:induction false} PowerGrows(k: nat)
    requires k > 0
    ensures Power10(k) >= 10
  {
    if k > 1 {
      PowerGrows(k - 1);
    }
  }

  // ---- UlToString ----

  /** What UlToString leaves: its swapping loop passes the middle and undoes every swap but that
      of the first and the last digit, so the digits between stay in reverse. */
  function Name(n: nat): (s: seq<byte>)
    ensures |s| == |Digits(n)| && Numeral(s)
  {
    var d := Digits(n);
    Text(Exchanged(d))
  }

  /** The first and the last element exchanged. */
  function Exchanged<T>(s: seq<T>): (r: seq<T>)
    requires s != []
    ensures |r| == |s| && forall k ::
        0 <= k < |s| ==> r[k] == s[if k == 0 then |s| - 1 else if k == |s| - 1 then 0 else k]
  {
    s[0 := s[|s| - 1]][|s| - 1 := s[0]]
  }

  /** The digits of `n` without the first and the last read the same both ways. */
  predicate InnerPalindrome(n: nat) {
    var d := Digits(n);
    forall k :: 0 < k < |d| - 1 ==> d[k] == d[|d| - 1 - k]
  }

  /** Exchanging the ends of a digit list reverses it exactly if its inner part is a palindrome. */
  lemma ReversedExchange(d: seq<digit>)
    requires d != []
    ensures Reverse(Exchanged(d)) == d <==> forall k :: 0 < k < |d| - 1 ==> d[k] == d[|d| - 1 - k]
  {
    hide Reverse, Exchanged;
    var e := Reverse(Exchanged(d));
    assert forall k :: 0 <= k < |d| ==> e[k] == d[if k == 0 then 0 else if k == |d| - 1 then |d| - 1 else |d| - 1 - k];
  }

  /** The text denotes the number, in decimal, exactly if the inner digits are a palindrome. */
  lemma {:induction false} NameIsDecimalIff(n: nat)
    ensures Decimal(Name(n)) == n <==> InnerPalindrome(n)
  {
    hide Digits, Reverse, Exchanged, Text;
    var d := Digits(n);
    var e := Reverse(Exchanged(d));
    ReversedExchange(d);
    ValueOfDigits(n);
    DecimalIsValue(Name(n), e);
    if Value(e) == Value(d) {
      ValueInjective(e, d);
    }
  }

  /** Below 1000 there is at most one inner digit. */
  lemma {:induction false} NameBelow1000(n: nat)
    requires n < 1000
    ensures Decimal(Name(n)) == n
  {
    DigitCount(n, 3);
    assert Power10(3) == 1000;
    NameIsDecimalIff(n);
  }

  /** 1234 is rendered as 1324. */
  lemma NameOf1234()
    ensures Name(1234) == [49, 51, 50, 52] && Decimal(Name(1234)) != 1234
  {
    assert Digits(12) == [2, 1] && Digits(123) == [3, 2, 1];
    assert Digits(1234) == [4, 3, 2, 1];
    var k := 1;
    assert Digits(1234)[k] != Digits(1234)[3 - k];
    NameIsDecimalIff(1234);
  }

  /** No two numbers have the same text, decimal or not. */
  lemma {:induction false} NameInjective(n: nat, m: nat)
    requires Name(n) == Name(m)
    ensures n == m
  {
    var d, e := Digits(n), Digits(m);
    forall k | 0 <= k < |d|
      ensures d[k] == e[k]
    {
      var at := if k == 0 then |d| - 1 else if k == |d| - 1 then 0 else k;
      assert Name(n)[at] == ZERO + d[k] && Name(m)[at] == ZERO + e[k];
    }
    ValueOfDigits(n);
    ValueOfDigits(m);
    assert d == e;
  }

  /** A 32-bit number has at most 10 digits, within the 12 that the first loop allows. */
  lemma {:induction false} NameFits(n: dword)
    ensures |Name(n)| <= 10
  {
    DigitCount(n, 10);
    assert Power10(5) == 100000;
    assert Power10(10) == 100000 * Power10(5);
  }

  method UlToString(number: dword) returns (buffer: array<byte>)
    ensures fresh(buffer) && buffer.Length == 32 && |Name(number)| <= 10
    ensures buffer[..] == Name(number) + seq(32 - |Name(number)|, k => 0)
  {
    hide Digits, Exchanged, Text;
    NameFits(number);
    buffer := new byte[32](k => 0);
    var i := FillDigits(buffer, number);
    SwapDigits(buffer, i, Digits(number));
    ghost var name := Name(number);
    assert forall k :: 0 <= k <= i ==> buffer[k] == name[k];
  }

  /** The swapping loop. */
  method SwapDigits(buffer: array<byte>, i: nat, ghost d: seq<digit>)
    requires buffer.Length == 32 && i == |d| - 1 < 32
    requires forall k :: 0 <= k < 32 ==> buffer[k] == if k <= i then ZERO + d[k] else 0
    modifies buffer
    ensures forall k :: 0 <= k < 32 ==> buffer[k] == if k <= i then ZERO + Exchanged(d)[k] else 0
  {
    hide Exchanged;
    for j := 0 to i
      invariant forall k :: 0 <= k < 32 ==> buffer[k] == if k <= i then ZERO + d[Source(i, j, k)] else 0
    {
      buffer[j], buffer[i - j] := buffer[i - j], buffer[j];
    }
  }

  /** The digit loop: the index of the last digit written. */
  method FillDigits(buffer: array<byte>, number: dword) returns (i: nat)
    requires buffer.Length == 32 && |Digits(number)| <= 10 && forall k :: 0 <= k < 32 ==> buffer[k] == 0
    modifies buffer
    ensures i == |Digits(number)| - 1
    ensures forall k :: 0 <= k < 32 ==> buffer[k] == if k <= i then ZERO + Digits(number)[k] else 0
  {
    ghost var d := Digits(number);
    var n: nat := number;
    i := 0;
    while i < 12
      invariant 0 <= i < |d| && d[i..] == Digits(n)
      invariant forall k :: 0 <= k < 32 ==> buffer[k] == if k < i then ZERO + d[k] else 0
    {
      buffer[i] := n % 10 + ZERO;
      n := n / 10;
      if n == 0 {
        break;
      }
      assert d[i..][1..] == d[i + 1..];
      i := i + 1;
    }
  }

  /** Where the k-th digit of i + 1 comes from after the first `j` swaps. */
  function Source(i: nat, j: nat, k: nat): (r: nat)
    requires k <= i
    ensures r <= i
  {
    if (k < j) != (i - k < j) then i - k else k
  }

  // ---- strnlen and strncmp ----

  /** The length of a NUL-terminated string, looking at no more than `len` characters. */
  method Strnlen(a: seq<byte>, len: nat) returns (r: nat)
    requires len <= |a|
    ensures r <= len && (forall k :: 0 <= k < r ==> a[k] != 0) && (r < len ==> a[r] == 0)
  {
    for i := 0 to len
      invariant forall k :: 0 <= k < i ==> a[k] != 0
    {
      if a[i] != 0 {
        continue;
      }
      return i;
    }
    return len;
  }

  /** Equality up to the first NUL. */
  ghost predicate SameString(a: seq<byte>, b: seq<byte>)
    requires |a| <= |b|
  {
    forall k :: 0 <= k < |a| && (forall j :: 0 <= j < k ==> a[j] != 0) ==> a[k] == b[k]
  }

  /** `char` is signed. */
  function Char(b: byte): int {
    if b < 128 then b else b - 256
  }

  /** 0 for equal strings, else the difference of the first characters that differ. */
  method Strncmp(a: seq<byte>, b: seq<byte>, len: nat) returns (r: int)
    requires len <= |a| && len <= |b|
    ensures r == 0 <==> SameString(a[..len], b)
    ensures r != 0 ==> exists k :: 0 <= k < len && a[..k] == b[..k] && a[k] != b[k] && r == Char(a[k]) - Char(b[k])
  {
    for i := 0 to len
      invariant forall k :: 0 <= k < i ==> a[k] == b[k] && a[k] != 0
    {
      if a[i] != b[i] || a[i] == 0 {
        assert a[..i] == b[..i];
        return Char(a[i]) - Char(b[i]);
      }
    }
    return 0;
  }
}
