/** The whole printer: three paths, one correctly rounded result, and the round trip. */
module DecimalPrinter {
  import opened Powers
  import opened Reals
  import opened Digits
  import opened Options
  import opened Text
  import opened DecimalRounding
  import opened DecimalText
  import opened DecimalEmit
  import opened DecimalScales
  import opened DecimalCached
  import opened DecimalExact

  /** text is a rendering of v correctly rounded to 17 significant digits. */
  ghost predicate IsRendering(text: string, v: real, negative: bool) {
    exists c: nat, count: nat, e: int ::
      && 0 < count <= 17 && Pow(10, count - 1) <= c <= Pow(10, count)
      && text == Render(c, count, e, negative)
      && IsRounded(v, DecimalValue(c, e - count + 1))
  }

  /** A printed text reads back as the correctly rounded value. */
  lemma RenderingReads(text: string, v: real, negative: bool)
    requires IsRendering(text, v, negative)
    ensures exists r :: IsRounded(v, r) && ReadsAs(text, negative, r)
  {
    hide Pow, Render, IsRounded, DecimalValue, ReadsAs;
    var c: nat, count: nat, e: int :| 0 < count <= 17 && Pow(10, count - 1) <= c <= Pow(10, count)
                                      && text == Render(c, count, e, negative)
                                      && IsRounded(v, DecimalValue(c, e - count + 1));
    ReadRender(c, count, e, negative);
  }

  /** The text of a correctly rounded value is fixed. */
  lemma RenderingUnique(a: string, b: string, v: real, negative: bool)
    requires IsRendering(a, v, negative) && IsRendering(b, v, negative)
    ensures a == b
  {
    hide Pow, Render, IsRounded, DecimalValue;
    var c: nat, n: nat, e: int :| 0 < n <= 17 && Pow(10, n - 1) <= c <= Pow(10, n)
                                  && a == Render(c, n, e, negative) && IsRounded(v, DecimalValue(c, e - n + 1));
    var d: nat, m: nat, f: int :| 0 < m <= 17 && Pow(10, m - 1) <= d <= Pow(10, m)
                                  && b == Render(d, m, f, negative) && IsRounded(v, DecimalValue(d, f - m + 1));
    RoundedUnique(v, DecimalValue(c, e - n + 1), DecimalValue(d, f - m + 1));
    RenderUnique(c, n, e, d, m, f, negative);
  }

  // ---- rounding an integer ---------------------------------------------------------------

  /** n/m to the nearest integer, ties to even. */
  function RoundQuotient(n: nat, m: nat): nat
    requires m > 0
  {
    if 2 * (n % m) > m || (2 * (n % m) == m && (n / m) % 2 == 1) then n / m + 1 else n / m
  }

  function Kept(count: nat): nat { if count < 17 then count else 17 }

  /** n times 10^-scale, rounded by keeping its leading digits. */
  lemma IntegerRounded(n: nat, count: nat, scale: int)
    requires n > 0 && HasDigits(n, count)
    ensures Pow(10, count - Kept(count)) > 0
    ensures var c := RoundQuotient(n, Pow(10, count - Kept(count)));
            && Pow(10, Kept(count) - 1) <= c <= Pow(10, Kept(count))
            && IsRounded(DecimalValue(n, -scale), DecimalValue(c, count - scale - Kept(count)))
  {
    hide Pow, HasDigits, RoundQuotient, IsRounded, DecimalValue;
    PowPositive(10, count - Kept(count));
    IntegerLeading(n, count, scale);
    RoundedLeads(n, count);
    if count <= 17 {
      FewDigits(n, count, scale);
    } else {
      ManyDigits(n, count, scale);
    }
  }

  /** Rounding up or down keeps the leading digit. */
  lemma RoundedLeads(n: nat, count: nat)
    requires n > 0 && HasDigits(n, count)
    ensures Pow(10, count - Kept(count)) > 0
    ensures Pow(10, Kept(count) - 1) <= RoundQuotient(n, Pow(10, count - Kept(count)))
  {
    hide Pow, HasDigits;
    DigitBounds(n, count);
    var k := Kept(count);
    PowPositive(10, count - k);
    PowAdd(10, k - 1, count - k);
    QuotientAtLeast(n, Pow(10, count - k), Pow(10, k - 1));
  }

  lemma QuotientAtLeast(n: nat, m: nat, p: nat)
    requires m > 0 && p * m <= n
    ensures p <= n / m
  {
    Split(n, m);
    if n / m < p {
      MulMono(n / m + 1, p, m);
    }
  }

  lemma IntegerLeading(n: nat, count: nat, scale: int)
    requires n > 0 && HasDigits(n, count)
    ensures LeadingDigitAt(DecimalValue(n, -scale), count - 1 - scale)
  {
    hide Pow, Exp, HasDigits;
    DigitBounds(n, count);
    ExpIsPow(10, count - 1);
    ExpIsPow(10, count);
    ExpPositive(10, -scale);
    ExpAdd(10, count - 1, -scale);
    ExpAdd(10, count, -scale);
    ScaleOrder(Exp(10, count - 1), n as real, Exp(10, count), Exp(10, -scale),
               Exp(10, count - 1 - scale), DecimalValue(n, -scale), Exp(10, count - scale));
  }

  lemma DigitBounds(n: nat, count: nat)
    requires n > 0 && HasDigits(n, count)
    ensures count > 0 && Pow(10, count - 1) <= n < Pow(10, count)
  {
    PowersZero();
  }

  lemma ScaleOrder(a: real, b: real, c: real, t: real, at: real, bt: real, ct: real)
    requires a <= b < c && t > 0.0 && at == a * t && bt == b * t && ct == c * t
    ensures at <= bt < ct
  {
    RMulMono(a, b, t);
    RMulMono(b, c, t);
  }

  lemma PowersZero()
    ensures Pow(10, 0) == 1
  {}

  /** DecimalValue(n, a) moved by a power of ten. */
  lemma MoveExponent(n: nat, a: int, b: int)
    ensures DecimalValue(n, a) * Exp(10, b) == DecimalValue(n, a + b)
  {
    hide Exp;
    ExpAdd(10, a, b);
    RMulShuffle(n as real, Exp(10, a), Exp(10, b));
  }

  lemma FewDigits(n: nat, count: nat, scale: int)
    requires n > 0 && count <= 17 && HasDigits(n, count)
    requires LeadingDigitAt(DecimalValue(n, -scale), count - 1 - scale)
    ensures Pow(10, count - Kept(count)) == 1
    ensures RoundQuotient(n, 1) == n && n <= Pow(10, Kept(count))
    ensures IsRounded(DecimalValue(n, -scale), DecimalValue(n, count - scale - Kept(count)))
  {
    hide Pow, Exp, HalfEven, LeadingDigitAt, HasDigits, DecimalValue, RoundedAt;
    var d := count - 1 - scale;
    PowersZero();
    DigitBounds(n, count);
    PowGrows(10, count, 17);
    WholeValue(n, 17 - count);
    var m := n * Pow(10, 17 - count);
    UnitValue(m);
    HalfEvenOfInteger(m);
    MoveExponent(n, -scale, 16 - d);
    RoundedAtIs(DecimalValue(n, -scale), d, m as real, m);
    MoveWhole(m, n, 17 - count, d - 16);
  }

  lemma UnitValue(m: nat)
    ensures DecimalValue(m, 0) == m as real
  {
    assert Pow(10, 0) == 1;
  }

  lemma MoveWhole(m: nat, n: nat, k: int, e: int)
    requires DecimalValue(m, 0) == DecimalValue(n, k)
    ensures DecimalValue(m, e) == DecimalValue(n, k + e)
  {
    hide DecimalValue, Exp;
    MoveExponent(m, 0, e);
    MoveExponent(n, k, e);
  }

  lemma RoundedAtIs(v: real, d: int, y: real, c: nat)
    requires v * Exp(10, 16 - d) == y && HalfEven(y) == c
    ensures RoundedAt(v, d) == DecimalValue(c, d - 16)
  {
    hide Exp, HalfEven;
  }

  lemma ManyDigits(n: nat, count: nat, scale: int)
    requires n > 0 && count > 17 && HasDigits(n, count)
    requires LeadingDigitAt(DecimalValue(n, -scale), count - 1 - scale)
    ensures Pow(10, count - 17) > 0
    ensures var c := RoundQuotient(n, Pow(10, count - 17));
            c <= Pow(10, 17) && IsRounded(DecimalValue(n, -scale), DecimalValue(c, count - scale - 17))
  {
    hide Pow, Exp, LeadingDigitAt, HalfEven, HasDigits, DecimalValue, RoundedAt;
    DigitBounds(n, count);
    var d, m := count - 1 - scale, Pow(10, count - 17);
    PowPositive(10, count - 17);
    PowAdd(10, 17, count - 17);
    QuotientBelow(n, m, Pow(10, 17));
    MoveExponent(n, -scale, 16 - d);
    QuotientAsPower(n, count - 17);
    HalfEvenOfQuotient(n, m);
    RoundedAtIs(DecimalValue(n, -scale), d, n as real / m as real, RoundQuotient(n, m));
  }

  lemma QuotientAsPower(n: nat, k: nat)
    ensures Pow(10, k) > 0
    ensures DecimalValue(n, -(k as int)) == n as real / Pow(10, k) as real
  {
    PowPositive(10, k);
    if k == 0 {
      assert Pow(10, 0) == 1;
    }
    hide Pow;
    QuotientAsProduct(n as real, Pow(10, k) as real);
  }

  lemma QuotientBelow(n: nat, m: nat, p: nat)
    requires m > 0 && n < p * m
    ensures n / m + 1 <= p
  {
    Split(n, m);
    if p <= n / m {
      MulMono(p, n / m, m);
    }
  }

  // ---- the integer path ------------------------------------------------------------------

  /** Values that are 64-bit integers: one division by a power of ten. */
  method WriteInteger(output: Writer, value0: nat, negative: bool) returns (ok: bool, ghost text: string)
    requires output.Valid() && 0 < value0 < W64
    modifies output, output.data
    ensures output.Valid() && IsRendering(text, value0 as real, negative)
    ensures ok <==> |text| <= old(output.Remaining())
    ensures output.View() == old(output.View()) + (if ok then text else "")
  {
    hide Pow, HasDigits, IsRendering, Render, IsRounded, DecimalValue;
    var value: nat := value0;
    WordBelowTwentyDigits();
    var count := CountDigits(value);
    var kept := Kept(count);
    if count > kept {
      var divisor := Pow(10, count - kept);
      TenfoldPower(count - kept);
      EvenTen(count - kept);
      var remainder := value % divisor;
      value := value / divisor;
      if remainder > divisor / 2 || (remainder == divisor / 2 && value % 2 == 1) {
        value := value + 1;
      }
    } else {
      PowersZero();
    }
    IntegerRounded(value0, count, 0);
    UnitValue(value0);
    assert value == RoundQuotient(value0, Pow(10, count - kept));
    CountIsPositive(value0, count);
    text := Render(value, kept, count - 1, negative);
    IntroduceRendering(value, kept, count - 1, negative, value0 as real);
    ok := Emit(output, value, kept, count - 1, negative);
  }

  lemma CountIsPositive(n: nat, count: nat)
    requires HasDigits(n, count)
    ensures count > 0
  {}

  lemma IntroduceRendering(c: nat, count: nat, e: int, negative: bool, v: real)
    requires 0 < count <= 17 && Pow(10, count - 1) <= c <= Pow(10, count)
    requires IsRounded(v, DecimalValue(c, e - count + 1))
    ensures IsRendering(Render(c, count, e, negative), v, negative)
  {}

  lemma EvenTen(k: nat)
    requires k > 0
    ensures Pow(10, k) > 0 && Pow(10, k) % 2 == 0
  {
    hide Pow;
    PowPositive(10, k);
    PowStep(10, k - 1);
    DivideOffMultiple(0, 5 * Pow(10, k - 1), 2);
  }

  lemma WordBelowTwentyDigits()
    ensures W64 < Pow(10, 20)
  {
    assert Pow(10, 5) == 100000;
    hide Pow;
    PowAdd(10, 5, 5);
    PowAdd(10, 10, 10);
  }

  // ---- the exact path --------------------------------------------------------------------

  /** Room for every product: significand * 5^1074 and significand * 2^971 stay below 10^864. */
  lemma WorkspaceSuffices(significand: nat, k: nat)
    requires significand < TWO53
    ensures k <= 1074 ==> significand * Pow(5, k) < Pow(RADIX, LIMBS)
    ensures k <= 971 ==> significand * Pow(2, k) < Pow(RADIX, LIMBS)
  {
    hide Pow;
    SmallPowers();
    RadixDigits(LIMBS, 0);
    PowersZero();
    var limit := Pow(10, 756);
    PowAdd(10, 756, 16);
    PowGrows(10, 772, 864);
    if k <= 1074 {
      PowGrows(5, k, 1080);
      PowOfPow(5, 10, 108);
      PowOfPow(10, 7, 108);
      PowBaseGrows(Pow(5, 10), Pow(10, 7), 108);
      ProductFits(significand, Pow(5, k), limit, Pow(10, 772));
    }
    if k <= 971 {
      PowGrows(2, k, 980);
      PowOfPow(2, 10, 98);
      PowOfPow(10, 4, 98);
      PowBaseGrows(Pow(2, 10), Pow(10, 4), 98);
      PowGrows(10, 392, 756);
      ProductFits(significand, Pow(2, k), limit, Pow(10, 772));
    }
  }

  lemma SmallPowers()
    ensures Pow(5, 10) < Pow(10, 7) && Pow(2, 10) < Pow(10, 4) && TWO53 < Pow(10, 16)
  {
    assert Pow(5, 5) == 3125;
    assert Pow(10, 4) == 10000;
    assert Pow(10, 3) == 1000;
    assert Pow(2, 5) == 32;
    PowAdd(5, 5, 5);
    PowAdd(2, 5, 5);
    PowAdd(10, 4, 3);
    PowAdd(10, 4, 4);
    PowAdd(10, 8, 8);
  }

  lemma ProductFits(s: nat, p: nat, limit: nat, product: nat)
    requires s < Pow(10, 16) && p <= limit && limit > 0 && product == limit * Pow(10, 16)
    ensures s * p < product
  {
    hide Pow;
    MulMono(p, limit, s);
    MulMono(s, Pow(10, 16), limit);
    Commute(s, p);
    Commute(s, limit);
    Commute(limit, Pow(10, 16));
  }

  lemma Commute(a: int, b: int)
    ensures a * b == b * a
  {}

  /** Multiply by base^k in steps of base^chunk, then by the rest; never out of limbs. */
  method MultiplyPower(exact: Integer, base: nat, chunk: nat, k: nat, ghost significand: nat) returns (ok: bool)
    requires exact.Valid() && exact.Number() == significand && significand > 0
    requires base > 1 && chunk > 0 && Pow(base, chunk) < RADIX
    requires significand * Pow(base, k) < Pow(RADIX, LIMBS)
    modifies exact, exact.limbs
    ensures ok && exact.Valid() && exact.Number() == significand * Pow(base, k)
  {
    hide Pow;
    var remaining: nat := k;
    StartPower(base, significand);
    while remaining >= chunk
      invariant remaining <= k && exact.Valid()
      invariant exact.Number() == significand * Pow(base, k - remaining)
    {
      PowerStepFits(base, significand, k, remaining, chunk);
      ok := exact.Multiply(Pow(base, chunk));
      remaining := remaining - chunk;
    }
    PowerStepFits(base, significand, k, remaining, remaining);
    PowGrows(base, remaining, chunk);
    ok := exact.Multiply(Pow(base, remaining));
  }

  lemma StartPower(base: nat, s: nat)
    ensures s * Pow(base, 0) == s
  {
    assert Pow(base, 0) == 1;
  }

  lemma PowerStepFits(base: nat, s: nat, k: nat, remaining: nat, step: nat)
    requires base > 1 && step <= remaining <= k && s * Pow(base, k) < Pow(RADIX, LIMBS)
    ensures Pow(base, step) > 0
    ensures s * Pow(base, k - remaining) * Pow(base, step) == s * Pow(base, k - remaining + step)
    ensures s * Pow(base, k - remaining) * Pow(base, step) < Pow(RADIX, LIMBS)
  {
    hide Pow;
    PowPositive(base, step);
    PowAdd(base, k - remaining, step);
    MulAssoc(s, Pow(base, k - remaining), Pow(base, step));
    PowGrows(base, k - remaining + step, k);
    MulMono(Pow(base, k - remaining + step), Pow(base, k), s);
    Commute(s, Pow(base, k - remaining + step));
    Commute(s, Pow(base, k));
  }

  /** Leading digits, one at a time, and the rounding of the rest. */
  method LeadingDigits(exact: Integer, count: nat, kept: nat) returns (coefficient: nat)
    requires exact.Valid() && HasDigits(exact.Number(), count) && count <= 9 * exact.size && kept <= count
    ensures Pow(10, count - kept) > 0
    ensures coefficient == exact.Number() / Pow(10, count - kept)
  {
    hide Pow, HasDigits;
    ghost var n := exact.Number();
    coefficient := 0;
    var i: nat := 0;
    NothingAbove(n, count);
    while i < kept
      invariant i <= kept && Pow(10, count - i) > 0
      invariant coefficient == n / Pow(10, count - i)
    {
      NextDigit(n, count - i - 1);
      coefficient := coefficient * 10 + exact.Digit(count - i - 1);
      i := i + 1;
    }
  }

  /** The kept digits of the exact integer, rounded by everything below them. */
  method RoundedDigits(exact: Integer, count: nat, kept: nat) returns (coefficient: nat)
    requires exact.Valid() && HasDigits(exact.Number(), count) && count <= 9 * exact.size && kept <= count
    ensures Pow(10, count - kept) > 0
    ensures coefficient == RoundQuotient(exact.Number(), Pow(10, count - kept))
  {
    hide Pow, HasDigits;
    coefficient := LeadingDigits(exact, count, kept);
    if count > kept {
      var position := count - kept - 1;
      RoundingDigit(exact.Number(), position);
      var rounding := exact.Digit(position);
      var up := rounding > 5;
      if rounding == 5 {
        var nonzero := exact.NonzeroBelow(position);
        up := nonzero || coefficient % 2 == 1;
      }
      if up {
        coefficient := coefficient + 1;
      }
    } else {
      PowersZero();
    }
  }

  lemma NothingAbove(n: nat, count: nat)
    requires HasDigits(n, count)
    ensures Pow(10, count) > 0 && n / Pow(10, count) == 0
  {
    SmallQuotient(n, Pow(10, count));
  }

  lemma NextDigit(n: nat, k: nat)
    ensures Pow(10, k) > 0 && Pow(10, k + 1) > 0
    ensures n / Pow(10, k) == n / Pow(10, k + 1) * 10 + n / Pow(10, k) % 10
  {
    OneMoreTen(n, k);
  }

  /** The first dropped digit and whether anything lies below it decide the rounding. */
  lemma RoundingDigit(n: nat, k: nat)
    ensures Pow(10, k) > 0 && Pow(10, k + 1) > 0
    ensures var rounding, below, r := n / Pow(10, k) % 10, n % Pow(10, k), n % Pow(10, k + 1);
            && (2 * r > Pow(10, k + 1) <==> rounding > 5 || (rounding == 5 && below > 0))
            && (2 * r == Pow(10, k + 1) <==> rounding == 5 && below == 0)
  {
    hide Pow;
    PowPositive(10, k);
    PowStep(10, k);
    var p := Pow(10, k);
    Split(n, p);
    Split(n / p, 10);
    TenRemainder(n, p, n / p, n % p, n / p / 10, n / p % 10);
  }

  lemma TenRemainder(n: nat, p: nat, q: nat, r: nat, q': nat, d: nat)
    requires p > 0 && n == p * q + r && r < p && q == 10 * q' + d && d < 10
    ensures var t := n % (10 * p);
            && (2 * t > 10 * p <==> d > 5 || (d == 5 && r > 0))
            && (2 * t == 10 * p <==> d == 5 && r == 0)
  {
    Recombine(n, p, 10, q, r, q', d);
    QuotientOf(n, 10 * p, q', p * d + r);
    if d > 5 {
      MulMono(6, d, p);
    } else if d < 5 {
      MulMono(d, 4, p);
    }
  }

  /** Exact value of a binary fraction as an integer over a power of ten. */
  lemma FractionAsDecimal(significand: nat, k: nat)
    ensures 0 <= significand * Pow(5, k)
    ensures BinaryValue(significand, -(k as int)) == DecimalValue(significand * Pow(5, k), -(k as int))
  {
    PowPositive(5, k);
    MulNonneg(significand, Pow(5, k));
    PowOfProduct(2, 5, k);
    PowPositive(2, k);
    PowPositive(10, k);
    if k == 0 {
      assert Pow(2, 0) == Pow(5, 0) == Pow(10, 0) == 1;
    }
    hide Pow;
    RealOfProduct(significand, Pow(5, k));
    RealOfProduct(Pow(2, k), Pow(5, k));
    FractionReals(significand as real, Pow(2, k) as real, Pow(5, k) as real, Pow(10, k) as real);
  }

  lemma FractionReals(s: real, two: real, five: real, ten: real)
    requires two > 0.0 && five > 0.0 && ten == two * five
    ensures ten > 0.0 && s * (1.0 / two) == (s * five) * (1.0 / ten)
  {
    RMulPositive(two, five);
    InverseOfProduct(two, five);
    var u, w := 1.0 / two, 1.0 / five;
    assert five * w == 1.0;
    RMulShuffle(s * five, u, w);
    RMulShuffle(u, s * five, w);
    RMulShuffle(s, five, w);
    assert (s * five) * w == s;
  }

  lemma WholeAsDecimal(significand: nat, k: nat)
    ensures 0 <= significand * Pow(2, k)
    ensures BinaryValue(significand, k) == DecimalValue(significand * Pow(2, k), 0)
  {
    hide Pow;
    PowPositive(2, k);
    MulNonneg(significand, Pow(2, k));
    RealOfProduct(significand, Pow(2, k));
    UnitValue(significand * Pow(2, k));
  }

  /** The bignum fallback: the exact decimal integer, its leading digits, and the rest as a tie-breaker. */
  method WriteExact(output: Writer, significand0: nat, exponent0: int, negative: bool)
    returns (ok: bool, ghost text: string)
    requires output.Valid() && 0 < significand0 < TWO53 && -1074 <= exponent0 <= 971
    modifies output, output.data
    ensures output.Valid() && IsRendering(text, BinaryValue(significand0, exponent0), negative)
    ensures ok <==> |text| <= old(output.Remaining())
    ensures output.View() == old(output.View()) + (if ok then text else "")
  {
    hide Pow, HasDigits, IsRendering, Render, IsRounded, DecimalValue, BinaryValue;
    ghost var v := BinaryValue(significand0, exponent0);
    var significand: nat, exponent := significand0, exponent0;
    while exponent < 0 && significand % 2 == 0
      invariant 0 < significand < TWO53 && exponent0 <= exponent
      invariant exponent0 < 0 ==> exponent <= 0
      invariant exponent0 >= 0 ==> exponent == exponent0
      invariant BinaryValue(significand, exponent) == v
      decreases -exponent
      modifies {}
    {
      DoubledValue(significand / 2, exponent + 1);
      significand := significand / 2;
      exponent := exponent + 1;
    }
    var scale := if exponent < 0 then -exponent else 0;
    var exact, n := ExactInteger(significand, exponent, v);
    var count := exact.DecimalDigits();
    CountIsPositive(n, count);
    CountBound(n, count);
    var kept := Kept(count);
    var coefficient := RoundedDigits(exact, count, kept);
    IntegerRounded(n, count, scale);
    text := Render(coefficient, kept, count - scale - 1, negative);
    IntroduceRendering(coefficient, kept, count - scale - 1, negative, v);
    ok := Emit(output, coefficient, kept, count - scale - 1, negative);
  }

  /** The value as an integer, over 10^-exponent when the exponent is negative. */
  method ExactInteger(significand: nat, exponent: int, ghost v: real) returns (exact: Integer, ghost n: nat)
    requires 0 < significand < TWO53 && -1074 <= exponent <= 971
    requires v == BinaryValue(significand, exponent)
    ensures fresh(exact) && fresh(exact.limbs) && exact.Valid()
    ensures n == exact.Number() && 0 < n < Pow(RADIX, LIMBS)
    ensures v == DecimalValue(n, if exponent < 0 then exponent else 0)
  {
    hide Pow, DecimalValue, BinaryValue;
    exact := new Integer(significand);
    var k := if exponent < 0 then -exponent else exponent;
    WorkspaceSuffices(significand, k);
    ChunksFit();
    if exponent < 0 {
      var _ := MultiplyPower(exact, 5, 12, k, significand);
      FractionAsDecimal(significand, k);
      PowPositive(5, k);
      MulMono(1, significand, Pow(5, k));
    } else {
      var _ := MultiplyPower(exact, 2, 29, k, significand);
      WholeAsDecimal(significand, k);
      PowPositive(2, k);
      MulMono(1, significand, Pow(2, k));
    }
    n := exact.Number();
  }

  lemma ChunksFit()
    ensures Pow(5, 12) < RADIX && Pow(2, 29) < RADIX
  {
    assert Pow(5, 6) == 15625;
    PowAdd(5, 6, 6);
    assert Pow(2, 5) == 32;
    PowAdd(2, 5, 5);
    PowAdd(2, 10, 10);
    PowAdd(2, 20, 5);
    PowAdd(2, 25, 4);
    assert Pow(2, 4) == 16;
  }

  lemma CountBound(n: nat, count: nat)
    requires n > 0 && HasDigits(n, count) && n < Pow(RADIX, LIMBS)
    ensures count <= 864
  {
    hide Pow, HasDigits;
    DigitBounds(n, count);
    if count > 864 {
      PowersZero();
      RadixDigits(LIMBS, 0);
      PowGrows(10, 864, count - 1);
    }
  }

  // ---- the printer -----------------------------------------------------------------------

  function Negative(bits: nat): bool { bits / 0x8000_0000_0000_0000 != 0 }
  function EncodedExponent(bits: nat): nat { bits / TWO52 % 0x800 }
  function Fraction(bits: nat): nat { bits % TWO52 }

  predicate IsFinite(bits: nat) { EncodedExponent(bits) != 0x7FF }

  /** Significand and exponent of a finite binary64 value (section 3.4 of IEEE 754-2019). */
  function SignificandOf(bits: nat): nat {
    if EncodedExponent(bits) != 0 then Fraction(bits) + TWO52 else Fraction(bits)
  }

  function ExponentOf(bits: nat): int {
    if EncodedExponent(bits) != 0 then EncodedExponent(bits) - 1075 else -1074
  }

  ghost function MagnitudeOf(bits: nat): real {
    BinaryValue(SignificandOf(bits), ExponentOf(bits))
  }

  /** The text of a finite value: a signed zero, or 17 correctly rounded digits. */
  ghost predicate IsNumeral(text: string, bits: nat) {
    if SignificandOf(bits) == 0 then text == (if Negative(bits) then "-0" else "0")
    else IsRendering(text, MagnitudeOf(bits), Negative(bits))
  }

  /** The bits fix the text: the three paths print the same bytes, and so would any other printer. */
  lemma TextUnique(bits: nat, a: string, b: string)
    requires IsNumeral(a, bits) && IsNumeral(b, bits)
    ensures a == b
  {
    hide IsRendering, MagnitudeOf;
    if SignificandOf(bits) != 0 {
      RenderingUnique(a, b, MagnitudeOf(bits), Negative(bits));
    }
  }

  lemma BitsRange(bits: nat)
    requires bits < W64 && IsFinite(bits)
    ensures SignificandOf(bits) < TWO53 && -1074 <= ExponentOf(bits) <= 971
  {}

  /** The bits of the value shifted into an integer, when that loses nothing. */
  function AsInteger(significand: nat, exponent: int): (r: Option<nat>)
    requires significand < TWO53
    ensures r.Some? ==> r.value < W64 && r.value as real == BinaryValue(significand, exponent)
    ensures r.Some? && significand > 0 ==> r.value > 0
  {
    ShiftedValue(significand, exponent);
    if 0 <= exponent < 64 && significand <= (W64 - 1) / Pow(2, exponent) then Some(significand * Pow(2, exponent))
    else if -64 < exponent < 0 && significand % Pow(2, -exponent) == 0 then Some(significand / Pow(2, -exponent))
    else None
  }

  lemma ShiftedValue(significand: nat, exponent: int)
    requires significand < TWO53
    ensures 0 <= exponent ==>
              && Pow(2, exponent) > 0 && 0 <= significand * Pow(2, exponent)
              && (significand * Pow(2, exponent)) as real == BinaryValue(significand, exponent)
              && (significand > 0 ==> significand * Pow(2, exponent) > 0)
              && (significand <= (W64 - 1) / Pow(2, exponent) ==> significand * Pow(2, exponent) < W64)
    ensures exponent < 0 ==>
              && Pow(2, -exponent) > 0
              && (significand % Pow(2, -exponent) == 0 ==>
                    && significand / Pow(2, -exponent) <= significand
                    && (significand / Pow(2, -exponent)) as real == BinaryValue(significand, exponent)
                    && (significand > 0 ==> significand / Pow(2, -exponent) > 0))
  {
    PowPositive(2, if exponent < 0 then -exponent else exponent);
    if exponent >= 0 {
      hide Pow;
      WholeAsDecimal(significand, exponent);
      UnitValue(significand * Pow(2, exponent));
      ShiftUp(significand, Pow(2, exponent));
    } else {
      hide Pow;
      if significand % Pow(2, -exponent) == 0 {
        ShiftDown(significand, Pow(2, -exponent));
        QuotientAsProduct(significand as real, Pow(2, -exponent) as real);
      }
    }
  }

  lemma ShiftUp(s: nat, p: nat)
    requires p > 0
    ensures s > 0 ==> s * p > 0
    ensures s <= (W64 - 1) / p ==> s * p < W64
  {
    Split(W64 - 1, p);
    if s > 0 {
      MulMono(1, s, p);
    }
    if s <= (W64 - 1) / p {
      MulMono(s, (W64 - 1) / p, p);
      Commute((W64 - 1) / p, p);
    }
  }

  lemma ShiftDown(s: nat, p: nat)
    requires p > 0 && s % p == 0
    ensures s / p <= s && (s > 0 ==> s / p > 0)
    ensures (s / p) as real == s as real / p as real
  {
    Split(s, p);
    var q := s / p;
    MulMono(1, p, q);
    RealOfProduct(p, q);
    assert s as real == p as real * q as real;
    RMulCancel(p as real, q as real, s as real / p as real);
  }

  /** It finds every integer of at most 64 bits. */
  lemma AsIntegerExactly(significand: nat, exponent: int, n: nat)
    requires 0 < significand < TWO53 && n < W64 && n as real == BinaryValue(significand, exponent)
    ensures AsInteger(significand, exponent) == Some(n)
  {
    hide Pow;
    ShiftedValue(significand, exponent);
    PowerOf64();
    if exponent >= 0 {
      var p := Pow(2, exponent);
      assert n == significand * p;
      MulAtLeast(significand, p);
      if exponent >= 64 {
        PowGrows(2, 64, exponent);
        MulMono(1, significand, p);
      }
      QuotientFits(significand, p);
    } else {
      var p := Pow(2, -exponent);
      WholeQuotient(significand, p, n);
      if exponent <= -64 {
        PowGrows(2, 64, -exponent);
        QuotientSmall(significand, p);
      }
    }
  }

  lemma PowerOf64()
    ensures Pow(2, 64) == W64
  {
    assert Pow(2, 8) == 256;
    hide Pow;
    PowAdd(2, 8, 8);
    PowAdd(2, 16, 16);
    PowAdd(2, 32, 32);
  }

  lemma QuotientFits(s: nat, p: nat)
    requires p > 0 && s * p < W64
    ensures s <= (W64 - 1) / p
  {
    var q := (W64 - 1) / p;
    Split(W64 - 1, p);
    if s > q {
      MulMono(q + 1, s, p);
    }
  }

  lemma WholeQuotient(s: nat, p: nat, n: nat)
    requires p > 0 && n as real == s as real * (1.0 / p as real)
    ensures s == n * p && s % p == 0 && s / p == n
  {
    assert n as real * p as real == s as real;
    RealOfProduct(n, p);
    QuotientOf(s, p, n, 0);
  }

  lemma QuotientSmall(s: nat, p: nat)
    requires 0 < s < p
    ensures s % p != 0
  {}

  /** Print any binary64 value: nothing for infinities and NaN, otherwise the correctly rounded
      text, written whole or not at all. */
  method Write(output: Writer, bits: nat, scales: array<Wide>) returns (ok: bool, ghost text: string)
    requires output.Valid() && bits < W64
    requires IsScaleTable(scales)
    modifies output, output.data
    ensures output.Valid()
    ensures !IsFinite(bits) ==> !ok && output.View() == old(output.View())
    ensures IsFinite(bits) ==> IsNumeral(text, bits)
    ensures IsFinite(bits) ==> (ok <==> |text| <= old(output.Remaining()))
    ensures IsFinite(bits) ==> output.View() == old(output.View()) + (if ok then text else "")
  {
    hide IsRendering, BinaryValue, DecimalValue, IsRounded, Render, Ambiguous, IsScale, Pow;
    var negative := Negative(bits);
    if !IsFinite(bits) {
      return false, "";
    }
    var significand, exponent := SignificandOf(bits), ExponentOf(bits);
    BitsRange(bits);
    if significand == 0 {
      text := if negative then "-0" else "0";
      ok := output.Append(if negative then "-0" else "0");
      return;
    }
    var whole := AsInteger(significand, exponent);
    if whole.Some? {
      ok, text := WriteInteger(output, whole.value, negative);
      return;
    }
    var decided, rounded, decimalExponent := Scaled(significand, exponent, scales);
    if decided {
      text := Render(rounded, 17, decimalExponent, negative);
      TenPower17();
      IntroduceRendering(rounded, 17, decimalExponent, negative, MagnitudeOf(bits));
      ok := Emit(output, rounded, 17, decimalExponent, negative);
      return;
    }
    ok, text := WriteExact(output, significand, exponent, negative);
  }

  lemma TenPower17()
    ensures Pow(10, 17) == TEN17 && Pow(10, 16) == TEN16
  {
    TenTo17();
  }
}
