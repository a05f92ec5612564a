/** What it means for a decimal to be a binary value correctly rounded to 17 significant digits. */
module DecimalRounding {
  import opened Powers
  import opened Reals

  /** The exact value of a binary significand and exponent. */
  ghost function BinaryValue(significand: nat, exponent: int): real {
    significand as real * Exp(2, exponent)
  }

  /** The exact value of a decimal coefficient and exponent. */
  ghost function DecimalValue(coefficient: nat, exponent: int): real {
    coefficient as real * Exp(10, exponent)
  }

  /** d is the position of the leading decimal digit of v: d = floor(log10(v)). */
  ghost predicate LeadingDigitAt(v: real, d: int) {
    Exp(10, d) <= v < Exp(10, d + 1)
  }

  /** v rounded at the last of 17 significant digits, when its leading digit is at d. */
  ghost function RoundedAt(v: real, d: int): real {
    HalfEven(v * Exp(10, 16 - d)) as real * Exp(10, d - 16)
  }

  /** r is v rounded to 17 significant digits, to nearest with ties to even. */
  ghost predicate IsRounded(v: real, r: real) {
    exists d :: LeadingDigitAt(v, d) && r == RoundedAt(v, d)
  }

  lemma LeadingDigitUnique(v: real, d: int, e: int)
    requires LeadingDigitAt(v, d) && LeadingDigitAt(v, e)
    ensures d == e
  {
    hide Exp;
    if d < e {
      ExpGrows(10, d + 1, e);
    } else if e < d {
      ExpGrows(10, e + 1, d);
    }
  }

  /** Correct rounding has one result. */
  lemma RoundedUnique(v: real, r: real, t: real)
    requires IsRounded(v, r) && IsRounded(v, t)
    ensures r == t
  {
    hide Exp, RoundedAt, LeadingDigitAt;
    var d :| LeadingDigitAt(v, d) && r == RoundedAt(v, d);
    var e :| LeadingDigitAt(v, e) && t == RoundedAt(v, e);
    LeadingDigitUnique(v, d, e);
  }

  /** Anything within half a unit of an integer rounds to it. */
  lemma HalfEvenNear(y: real, k: int)
    requires k as real - 0.5 < y < k as real + 0.5
    ensures HalfEven(y) == k
  {}

  lemma HalfEvenOfInteger(k: int)
    ensures HalfEven(k as real) == k
  {}

  /** Rounding moves a value by at most half a unit. */
  lemma HalfEvenError(y: real)
    ensures HalfEven(y) as real - y <= 0.5 && y - HalfEven(y) as real <= 0.5
  {}

  /** Rounding is monotone against integers. */
  lemma HalfEvenBounds(y: real, lo: int, hi: int)
    requires lo as real <= y <= hi as real
    ensures lo <= HalfEven(y) <= hi
  {}

  /** Halving is exact on a quotient: how the integer code rounds n/m. */
  lemma HalfEvenOfQuotient(n: nat, m: nat)
    requires m > 0
    ensures HalfEven(n as real / m as real)
         == if 2 * (n % m) > m || (2 * (n % m) == m && (n / m) % 2 == 1) then n / m + 1 else n / m
  {
    FloorOfQuotient(n, m);
    var q, r := n / m, n % m;
    RealOfProduct(m, q);
    assert n as real == m as real * q as real + r as real;
    FractionOf(n as real, m as real, q as real, r as real);
  }

  lemma FractionOf(n: real, m: real, q: real, r: real)
    requires m > 0.0 && n == m * q + r
    ensures n / m - q == r / m
    ensures r / m > 0.5 <==> 2.0 * r > m
    ensures r / m == 0.5 <==> 2.0 * r == m
  {
    var f := r / m;
    assert m * f == r;
    Distribute(m, q, f);
    assert n == m * (q + f);
    RMulCancel(m, n / m, q + f);
    RMulCompare(0.5, f, m);
  }

  lemma Distribute(a: real, b: real, c: real)
    ensures a * (b + c) == a * b + a * c
  {}

  const TEN16: nat := 10000000000000000
  const TEN17: nat := 100000000000000000

  lemma TenPowers()
    ensures Exp(10, 16) == TEN16 as real && Exp(10, 17) == TEN17 as real && Exp(10, 1) == 10.0
  {
    assert Pow(10, 4) == 10000;
    PowAdd(10, 4, 4);
    PowAdd(10, 8, 8);
    assert Pow(10, 17) == 10 * Pow(10, 16);
    assert Pow(10, 1) == 10 * Pow(10, 0);
  }

  /** The position of the leading digit, read off the scaled value. */
  lemma LeadingFromScaled(v: real, d: int)
    ensures Exp(10, 16) <= v * Exp(10, 16 - d) < Exp(10, 17) <==> LeadingDigitAt(v, d)
  {
    hide Exp;
    ExpPositive(10, 16 - d);
    ExpAdd(10, d, 16 - d);
    ExpAdd(10, d + 1, 16 - d);
    RMulCompare(Exp(10, d), v, Exp(10, 16 - d));
    RMulCompare(v, Exp(10, d + 1), Exp(10, 16 - d));
  }

  lemma ScaledByTen(v: real, d: int)
    ensures v * Exp(10, 16 - d) == 10.0 * (v * Exp(10, 16 - (d + 1)))
    ensures Exp(10, d + 1 - 16) == 10.0 * Exp(10, d - 16)
  {
    hide Exp;
    TenPowers();
    ExpAdd(10, 1, 16 - (d + 1));
    ExpAdd(10, 1, d - 16);
    RMulShuffle(10.0, v, Exp(10, 16 - (d + 1)));
  }

  /** A coefficient rounded from the scaled value is the correct rounding, even when the
      scaled value has just crossed into the next decade. */
  lemma RoundedFromScaled(v: real, d: int, c: int)
    requires Exp(10, 16) <= v * Exp(10, 16 - d) <= TEN17 as real + 0.25
    requires c == HalfEven(v * Exp(10, 16 - d))
    ensures TEN16 <= c <= TEN17
    ensures IsRounded(v, DecimalValue(c, d - 16))
  {
    hide Exp, HalfEven;
    TenPowers();
    var y := v * Exp(10, 16 - d);
    if y < TEN17 as real {
      LeadingFromScaled(v, d);
      HalfEvenBounds(y, TEN16, TEN17);
      assert DecimalValue(c, d - 16) == RoundedAt(v, d);
    } else {
      HalfEvenNear(y, TEN17);
      assert c == TEN17;
      var z := v * Exp(10, 16 - (d + 1));
      ScaledByTen(v, d);
      HalfEvenNear(z, TEN16);
      assert HalfEven(z) == TEN16;
      LeadingFromScaled(v, d + 1);
      assert TEN17 as real == 10.0 * TEN16 as real;
      RMulShuffle(TEN16 as real, 10.0, Exp(10, d - 16));
      assert DecimalValue(c, d - 16) == RoundedAt(v, d + 1);
    }
  }
}
