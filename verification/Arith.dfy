/** Products and quotients of two run-time values. They are defined by recursion, and so stay
    opaque to the solver's arithmetic; `TimesIs` and `QuotientIs` tie them to `*`, `/` and `%`. */
module Arith {
  function Times(a: nat, b: nat): nat {
    if a == 0 then 0 else Times(a - 1, b) + b
  }

  function Quotient(a: nat, b: nat): (q: nat)
    requires b > 0
    ensures q <= a
    decreases a
  {
    if a < b then 0 else 1 + Quotient(a - b, b)
  }

  function Remainder(a: nat, b: nat): (r: nat)
    requires b > 0
    ensures r < b && r <= a
    decreases a
  {
    if a < b then a else Remainder(a - b, b)
  }

  lemma {:induction false} TimesIs(a: nat, b: nat)
    ensures Times(a, b) == a * b
  {
    if a > 0 {
      TimesIs(a - 1, b);
      assert a * b == (a - 1) * b + b;
    }
  }

  lemma {:induction false} TimesAdd(a: nat, c: nat, b: nat)
    ensures Times(a + c, b) == Times(a, b) + Times(c, b)
  {
    if c > 0 {
      TimesAdd(a, c - 1, b);
    }
  }

  lemma TimesMonotone(a: nat, c: nat, b: nat)
    requires a <= c
    ensures Times(a, b) <= Times(c, b)
  {
    TimesAdd(a, c - a, b);
  }

  lemma {:induction false} TimesAssoc(a: nat, b: nat, c: nat)
    ensures Times(Times(a, b), c) == Times(a, Times(b, c))
  {
    if a > 0 {
      TimesAssoc(a - 1, b, c);
      TimesAdd(Times(a - 1, b), b, c);
    }
  }

  lemma {:induction false} TimesCommutes(a: nat, b: nat)
    ensures Times(a, b) == Times(b, a)
  {
    TimesIs(a, b);
    TimesIs(b, a);
  }

  lemma {:induction false} DivideDown(a: nat, b: nat)
    requires b > 0
    ensures Times(Quotient(a, b), b) + Remainder(a, b) == a
    decreases a
  {
    if a >= b {
      DivideDown(a - b, b);
    }
  }

  lemma QuotientIs(a: nat, b: nat)
    requires b > 0
    ensures Quotient(a, b) == a / b && Remainder(a, b) == a % b
  {
    DivideDown(a, b);
    TimesIs(Quotient(a, b), b);
    var q, r := Quotient(a, b), Remainder(a, b);
    assert a == q * b + r;
    DivisionUnique(a, b, q, r);
  }

  lemma DivisionUnique(a: nat, b: nat, q: nat, r: nat)
    requires a == q * b + r && r < b
    ensures q == a / b && r == a % b
  {
    var d := a / b - q;
    assert d * b == r - a % b;
    assert d >= 1 ==> d * b >= b;
    assert d <= -1 ==> d * b <= 0 - b;
  }

  /** Multiples of m stay multiples under product and remainder. */
  lemma {:induction false} TimesMultiple(a: nat, b: nat)
    requires b % 32 == 0
    ensures Times(a, b) % 32 == 0
  {
    if a > 0 {
      TimesMultiple(a - 1, b);
    }
  }

  lemma {:induction false} RemainderMultiple(a: nat, b: nat)
    requires b > 0 && a % 4 == 0 && b % 4 == 0
    ensures Remainder(a, b) % 4 == 0
    decreases a
  {
    if a >= b {
      RemainderMultiple(a - b, b);
    }
  }
}
