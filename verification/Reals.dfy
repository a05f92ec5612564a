/** Signed powers over the reals, floors, and rounding to the nearest integer, ties to even. */
module Reals {
  import opened Powers

  /** b to the signed power e. */
  function Exp(b: nat, e: int): real
    requires b > 0
  {
    PowPositive(b, if e < 0 then -e else e);
    if e >= 0 then Pow(b, e) as real else 1.0 / Pow(b, -e) as real
  }

  lemma ExpPositive(b: nat, e: int)
    requires b > 0
    ensures Exp(b, e) > 0.0
  {
    PowPositive(b, if e < 0 then -e else e);
  }

  lemma ExpAdd(b: nat, m: int, n: int)
    requires b > 0
    ensures Exp(b, m + n) == Exp(b, m) * Exp(b, n)
  {
    hide Pow;
    if m >= 0 && n >= 0 {
      PowAdd(b, m, n);
      RealOfProduct(Pow(b, m), Pow(b, n));
    } else if m < 0 && n < 0 {
      PowAdd(b, -m, -n);
      PowPositive(b, -m);
      PowPositive(b, -n);
      RealOfProduct(Pow(b, -m), Pow(b, -n));
      InverseOfProduct(Pow(b, -m) as real, Pow(b, -n) as real);
    } else if n < 0 {
      ExpMixed(b, m, -n);
    } else {
      ExpMixed(b, n, -m);
    }
  }

  lemma ExpMixed(b: nat, m: nat, n: nat)
    requires b > 0 && n > 0
    ensures Exp(b, m - n) == Exp(b, m) * Exp(b, -(n as int))
  {
    hide Pow;
    PowPositive(b, m);
    PowPositive(b, n);
    if m >= n {
      PowAdd(b, m - n, n);
      RealOfProduct(Pow(b, m - n), Pow(b, n));
      CancelFactor(Pow(b, m - n) as real, Pow(b, n) as real);
    } else {
      PowPositive(b, n - m);
      PowAdd(b, m, n - m);
      RealOfProduct(Pow(b, m), Pow(b, n - m));
      InverseOfProduct(Pow(b, m) as real, Pow(b, n - m) as real);
      CancelFactor(1.0 / Pow(b, n - m) as real, Pow(b, m) as real);
    }
  }

  lemma InverseOfProduct(x: real, y: real)
    requires x > 0.0 && y > 0.0
    ensures x * y > 0.0
    ensures (1.0 / x) * (1.0 / y) == 1.0 / (x * y)
  {
    RMulPositive(x, y);
    var u, v := 1.0 / x, 1.0 / y;
    assert x * u == 1.0 && y * v == 1.0;
    RMulShuffle(x * y, u, v);
    RMulShuffle(x, y, u);
    RMulShuffle(y, x, u);
    assert (x * y) * u == y;
    assert (x * y) * (u * v) == 1.0;
    RMulCancel(x * y, u * v, 1.0 / (x * y));
  }

  lemma CancelFactor(x: real, y: real)
    requires y > 0.0
    ensures (x * y) * (1.0 / y) == x
  {
    RMulShuffle(x, y, 1.0 / y);
    assert y * (1.0 / y) == 1.0;
  }

  /** On non-negative exponents the real power is the integer power. */
  lemma ExpIsPow(b: nat, e: nat)
    requires b > 0
    ensures Exp(b, e) == Pow(b, e) as real
  {}

  lemma OneOrMore(b: nat, e: nat)
    requires b > 1
    ensures 1 <= Pow(b, e)
    ensures e > 0 ==> 1 < Pow(b, e)
  {
    PowGrows(b, 0, e);
  }

  lemma ExpGrows(b: nat, m: int, n: int)
    requires b > 1 && m <= n
    ensures Exp(b, m) <= Exp(b, n)
    ensures m < n ==> Exp(b, m) < Exp(b, n)
  {
    hide Exp, Pow;
    ExpIsPow(b, n - m);
    OneOrMore(b, n - m);
    ExpAdd(b, m, n - m);
    ExpPositive(b, m);
    RMulMono(1.0, Exp(b, n - m), Exp(b, m));
  }

  lemma RealOfProduct(a: int, b: int)
    ensures (a * b) as real == a as real * b as real
  {}

  lemma RMulPositive(a: real, b: real)
    requires a > 0.0 && b > 0.0
    ensures a * b > 0.0
  {}

  lemma RMulShuffle(a: real, b: real, c: real)
    ensures a * (b * c) == b * (a * c)
    ensures a * (b * c) == (a * b) * c
  {}

  lemma RMulCancel(a: real, b: real, c: real)
    requires a != 0.0 && a * b == a * c
    ensures b == c
  {}

  lemma RMulMono(a: real, b: real, c: real)
    requires a <= b && c > 0.0
    ensures a * c <= b * c
    ensures a < b ==> a * c < b * c
  {
    if a < b {
      RMulPositive(b - a, c);
    }
  }

  /** Comparison after multiplying by a positive factor. */
  lemma RMulCompare(a: real, b: real, c: real)
    requires c > 0.0
    ensures a * c <= b * c <==> a <= b
    ensures a * c < b * c <==> a < b
    ensures a * c == b * c <==> a == b
  {
    if a <= b {
      RMulMono(a, b, c);
    } else {
      RMulMono(b, a, c);
    }
  }

  lemma FloorOfQuotient(n: int, m: nat)
    requires m > 0
    ensures (n as real / m as real).Floor == n / m
  {
    var q, r := n / m, n % m;
    assert n == m * q + r;
    RealOfProduct(m, q);
    assert n as real == m as real * q as real + r as real;
    assert n as real / m as real == q as real + r as real / m as real;
    assert 0.0 <= r as real / m as real < 1.0;
  }

  /** Nearest integer to x, ties to even (section 4.3.1 of IEEE 754-2019). */
  function HalfEven(x: real): int {
    var f := x.Floor;
    var rest := x - f as real;
    if rest > 0.5 || (rest == 0.5 && f % 2 == 1) then f + 1 else f
  }
}
