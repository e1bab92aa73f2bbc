/** Products, quotients and remainders of naturals, defined by repeated addition and subtraction.

  They agree with *, / and %. Being recursive, they stay folded in proofs that only need to know
  that two of them are the same. */
module Arithmetic {

  function Times(a: nat, b: nat): nat {
    if a == 0 then 0 else b + Times(a - 1, b)
  }

  function Quotient(a: nat, b: nat): nat
    requires b > 0
  {
    if a < b then 0 else 1 + Quotient(a - b, b)
  }

  function Remainder(a: nat, b: nat): (r: nat)
    requires b > 0
    ensures r < b
  {
    if a < b then a else Remainder(a - b, b)
  }

  lemma {:induction false} TimesIsProduct(a: nat, b: nat)
    ensures Times(a, b) == a * b
  {
    if a == 0 {
    } else {
      TimesIsProduct(a - 1, b);
      assert (a - 1) * b + b == a * b;
    }
  }

  /** a is the sum of its quotient's product with b and its remainder. */
  lemma {:induction false} Recomposed(a: nat, b: nat)
    requires b > 0
    ensures a == Times(Quotient(a, b), b) + Remainder(a, b)
  {
    if a < b {
    } else {
      Recomposed(a - b, b);
    }
  }

  /** There is only one way to write a number as a multiple of b and a remainder. */
  lemma {:induction false} Decomposed(q: nat, r: nat, b: nat)
    requires r < b
    ensures Quotient(Times(q, b) + r, b) == q && Remainder(Times(q, b) + r, b) == r
  {
    if q == 0 {
    } else {
      Decomposed(q - 1, r, b);
    }
  }

  lemma {:induction false} TimesMonotone(p: nat, q: nat, b: nat)
    requires p < q
    ensures Times(p, b) + b <= Times(q, b)
  {
    if q == p + 1 {
    } else {
      TimesMonotone(p, q - 1, b);
    }
  }

  lemma {:induction false} TimesDistributes(x: nat, y: nat, b: nat)
    ensures Times(x + y, b) == Times(x, b) + Times(y, b)
  {
    if x == 0 {
    } else {
      TimesDistributes(x - 1, y, b);
    }
  }

  lemma {:induction false} TimesAssociates(x: nat, c: nat, b: nat)
    ensures Times(Times(x, c), b) == Times(x, Times(c, b))
  {
    if x == 0 {
    } else {
      TimesAssociates(x - 1, c, b);
      TimesDistributes(c, Times(x - 1, c), b);
    }
  }

  lemma {:induction false} TimesDoubled(x: nat, b: nat)
    ensures Times(x, 2 * b) == 2 * Times(x, b)
  {
    if x == 0 {
    } else {
      TimesDoubled(x - 1, b);
    }
  }

  lemma SplitOff(a: nat, b: nat, q: nat, r: nat)
    requires r < b && a == Times(q, b) + r
    ensures Quotient(a, b) == q && Remainder(a, b) == r
  {
    Decomposed(q, r, b);
  }

  /** Dividing by a product is dividing by one factor and then by the other. */
  lemma QuotientTwice(a: nat, b: nat, c: nat)
    requires b > 0 && c > 0
    ensures Times(c, b) > 0 && Quotient(a, Times(c, b)) == Quotient(Quotient(a, b), c)
  {
    var q, r := Quotient(a, b), Remainder(a, b);
    Recomposed(a, b);
    Recomposed(q, c);
    Nested(b, c, Quotient(q, c), Remainder(q, c), r);
    SplitOff(a, Times(c, b), Quotient(q, c), Times(Remainder(q, c), b) + r);
  }

  lemma Nested(b: nat, c: nat, q: nat, s: nat, r: nat)
    requires r < b && s < c
    ensures Times(Times(q, c) + s, b) + r == Times(q, Times(c, b)) + (Times(s, b) + r)
    ensures Times(s, b) + r < Times(c, b)
  {
    TimesDistributes(Times(q, c), s, b);
    TimesAssociates(q, c, b);
    TimesMonotone(s, c, b);
  }

  lemma DivisionUnique(a: nat, b: nat, q: nat, r: nat)
    requires r < b && a == q * b + r
    ensures a / b == q && a % b == r
  {
    var q', r' := a / b, a % b;
    assert a == q' * b + r';
    assert q' < q ==> (q' + 1) * b <= q * b;
    assert q < q' ==> (q + 1) * b <= q' * b;
    assert (q' + 1) * b == q' * b + b && (q + 1) * b == q * b + b;
  }

  lemma QuotientIsDivision(a: nat, b: nat)
    requires b > 0
    ensures Quotient(a, b) == a / b && Remainder(a, b) == a % b
  {
    Recomposed(a, b);
    TimesIsProduct(Quotient(a, b), b);
    DivisionUnique(a, b, Quotient(a, b), Remainder(a, b));
  }

  // ----- powers of two -----

  function Pow2(k: nat): (r: nat)
    ensures r > 0
  {
    if k == 0 then 1 else 2 * Pow2(k - 1)
  }

  /** The logarithm to base 2, rounded down. */
  function Log2(n: nat): (k: nat)
    requires n > 0
    ensures Pow2(k) <= n < 2 * Pow2(k)
  {
    if n == 1 then 0 else 1 + Log2(n / 2)
  }

  lemma {:induction false} Pow2Sum(a: nat, b: nat)
    ensures Pow2(a + b) == Times(Pow2(b), Pow2(a))
  {
    if a == 0 {
      TimesIsProduct(Pow2(b), 1);
    } else {
      Pow2Sum(a - 1, b);
      TimesDoubled(Pow2(b), Pow2(a - 1));
    }
  }

  lemma {:induction false} Pow2Monotone(a: nat, b: nat)
    requires a <= b
    ensures Pow2(a) <= Pow2(b)
  {
    if a == b {
    } else {
      Pow2Monotone(a, b - 1);
    }
  }

  lemma Pow2Of32()
    ensures Pow2(31) == 0x8000_0000 && Pow2(32) == 0x1_0000_0000
  {
    assert Pow2(8) == 0x100;
    assert Pow2(16) == 0x1_0000;
    assert Pow2(24) == 0x100_0000;
  }
}
