/** The shape of a printed number: when it has an exponent, and which digits and zeros it may have. */
module DecimalFormat {
  import opened Powers
  import opened Reals
  import opened Digits
  import opened Text
  import opened DecimalRounding
  import opened DecimalText
  import opened DecimalScales
  import opened DecimalCached
  import opened DecimalPrinter
  import opened DecimalRoundTrip

  // ---- the shapes ------------------------------------------------------------------------

  /** Digits up to 17, the first not zero. */
  predicate IsWhole(s: string) {
    AllDigits(s) && 1 <= |s| <= 17 && s[0] != '0'
  }

  /** At least one digit, the last not zero. */
  predicate IsFraction(s: string) {
    AllDigits(s) && s != "" && s[|s| - 1] != '0'
  }

  /** Positional: a whole number, perhaps a point and more digits; or zero, a point and digits. */
  ghost predicate IsPositional(s: string) {
    || IsWhole(s)
    || (exists w, f :: PositionalParts(s, w, f))
  }

  ghost predicate PositionalParts(s: string, w: string, f: string) {
    s == w + "." + f && IsFraction(f) && ((IsWhole(w) && |w| + |f| <= 17) || (w == "0" && |f| <= 20))
  }

  /** One digit, perhaps a point and more digits, then e, a sign and at least two digits, no more than needed. */
  ghost predicate IsScientific(s: string) {
    exists d, f, sign, x :: ScientificParts(s, d, f, sign, x)
  }

  ghost predicate ScientificParts(s: string, d: char, f: string, sign: char, x: string) {
    && s == [d] + (if f == "" then "" else "." + f) + "e" + [sign] + x
    && '1' <= d <= '9' && |f| <= 16 && (f != "" ==> IsFraction(f))
    && (sign == '+' || sign == '-') && AllDigits(x) && |x| >= 2 && (|x| > 2 ==> x[0] != '0')
  }

  // ---- digits ----------------------------------------------------------------------------

  lemma FirstDigit(c: nat, n: nat)
    requires Leads(c, n)
    ensures |DigitsText(c, n)| == n && DigitsText(c, n)[0] != '0'
  {
    hide DigitsText;
    LeadingDigit(c, n);
    PowPositive(10, n - 1);
    QuotientAtLeast(c, Pow(10, n - 1), 1);
  }

  lemma LastDigit(c: nat, n: nat)
    requires n > 0 && c % 10 != 0
    ensures DigitsText(c, n)[n - 1] != '0'
  {}

  lemma {:induction false} DecimalStarts(n: nat)
    requires n > 0
    ensures Decimal(n)[0] != '0' && (n >= 10 ==> |Decimal(n)| >= 2)
  {
    if n >= 10 {
      DecimalStarts(n / 10);
    }
  }

  // ---- the two layouts -------------------------------------------------------------------

  ghost predicate Stripped1(c: nat, n: nat) {
    Leads(c, n) && n <= 17 && (n > 1 ==> c % 10 != 0)
  }

  lemma ScientificShape(c: nat, n: nat, e: int)
    requires Stripped1(c, n) && Scientific(e)
    ensures IsScientific(Body(c, n, e))
  {
    hide Pow, DigitsText, IsFraction, ExponentText, ScientificParts, Body, Scientific, IsScientific;
    var d := DigitsText(c, n);
    FirstDigit(c, n);
    var sign, x := ExponentShape(e);
    var f := if n > 1 then d[1..] else "";
    if n > 1 {
      LastDigit(c, n);
      TailIsFraction(d, 1);
    }
    ScientificBody(c, n, e, d);
    Joins([d[0]] + (if f == "" then "" else "." + f), [sign], x, ExponentText(e));
    MakeScientific(Body(c, n, e), d[0], f, sign, x);
  }

  lemma ScientificBody(c: nat, n: nat, e: int, d: string)
    requires n > 0 && Scientific(e) && d == DigitsText(c, n)
    ensures Body(c, n, e) == [d[0]] + (if n > 1 then "." + d[1..] else "") + ExponentText(e)
  {
    hide DigitsText, ExponentText;
    assert d[..1] == [d[0]];
    if n > 1 {
      assert d[..1] + "." + d[1..] == [d[0]] + ("." + d[1..]);
    }
  }

  lemma Joins(m: string, sign: string, x: string, e: string)
    requires e == "e" + sign + x
    ensures m + e == m + "e" + sign + x
  {}

  lemma MakeScientific(s: string, d: char, f: string, sign: char, x: string)
    requires s == [d] + (if f == "" then "" else "." + f) + "e" + [sign] + x
    requires '1' <= d <= '9' && |f| <= 16 && (f != "" ==> IsFraction(f))
    requires (sign == '+' || sign == '-') && AllDigits(x) && |x| >= 2 && (|x| > 2 ==> x[0] != '0')
    ensures IsScientific(s)
  {
    assert ScientificParts(s, d, f, sign, x);
  }

  /** A sign and at least two digits, no leading zero beyond that. */
  lemma ExponentShape(e: int) returns (sign: char, x: string)
    ensures ExponentText(e) == "e" + [sign] + x && (sign == '+' || sign == '-')
    ensures AllDigits(x) && |x| >= 2 && (|x| > 2 ==> x[0] != '0')
  {
    hide Decimal;
    x := (if Abs(e) >= 10 then "" else "0") + Decimal(Abs(e));
    sign := if e < 0 then '-' else '+';
    if Abs(e) < 10 {
      SmallDecimal(Abs(e));
    } else {
      DecimalStarts(Abs(e));
    }
  }

  lemma SmallDecimal(n: nat)
    requires n < 10
    ensures |Decimal(n)| == 1
  {}

  lemma TailIsFraction(d: string, i: nat)
    requires i < |d| && AllDigits(d) && d[|d| - 1] != '0'
    ensures IsFraction(d[i..])
  {
    assert forall k :: 0 <= k < |d[i..]| ==> d[i..][k] == d[i + k];
  }

  lemma PositionalShape(c: nat, n: nat, e: int)
    requires Stripped1(c, n) && !Scientific(e)
    ensures IsPositional(Body(c, n, e))
  {
    hide Pow, DigitsText, IsFraction;
    var d := DigitsText(c, n);
    FirstDigit(c, n);
    if e < 0 {
      var z := Zeros(-e - 1);
      if n > 1 {
        LastDigit(c, n);
      }
      assert Body(c, n, e) == "0" + "." + (z + d);
      TailIsFraction(z + d, 0);
      assert (z + d)[0..] == z + d;
      assert PositionalParts(Body(c, n, e), "0", z + d);
    } else if e + 1 < n {
      LastDigit(c, n);
      TailIsFraction(d, e + 1);
      assert Body(c, n, e) == d[..e + 1] + "." + d[e + 1..];
      assert PositionalParts(Body(c, n, e), d[..e + 1], d[e + 1..]);
    } else {
      assert Body(c, n, e) == d + Zeros(e - n + 1);
    }
  }

  // ---- where the rounded value lies ------------------------------------------------------

  lemma TenLiterals()
    ensures Exp(10, -4) == 0.0001 && Exp(10, 17) == 100000000000000000.0 && Exp(10, 16) == 10000000000000000.0
  {
    TenPowers();
    assert Pow(10, 4) == 10000;
  }

  /** Rounding to 17 digits does not leave a value's decade downwards. */
  lemma RoundedAtLeast(v: real, r: real, d: int)
    requires IsRounded(v, r) && Exp(10, d) <= v
    ensures Exp(10, d) <= r
  {
    hide Exp, HalfEven;
    var k :| LeadingDigitAt(v, k) && r == RoundedAt(v, k);
    var y := v * Exp(10, 16 - k);
    LeadingFromScaled(v, k);
    TenPowers();
    HalfEvenBounds(y, TEN16, TEN17);
    if k < d {
      ExpGrows(10, k + 1, d);
    }
    ExpPositive(10, k - 16);
    RMulMono(TEN16 as real, HalfEven(y) as real, Exp(10, k - 16));
    ExpAdd(10, 16, k - 16);
    ExpGrows(10, d, k);
  }

  /** Nor upwards, unless the value is within half a unit of the next decade. */
  lemma RoundedBelow(v: real, r: real, d: int)
    requires IsRounded(v, r) && v < Exp(10, d)
    requires v * Exp(10, 17 - d) < TEN17 as real - 0.5
    ensures r < Exp(10, d)
  {
    hide Exp, HalfEven;
    var k :| LeadingDigitAt(v, k) && r == RoundedAt(v, k);
    if k >= d {
      ExpGrows(10, d, k);
    }
    var y := v * Exp(10, 16 - k);
    LeadingFromScaled(v, k);
    TenPowers();
    HalfEvenBounds(y, TEN16, TEN17);
    ExpPositive(10, k - 16);
    ExpAdd(10, 17, k - 16);
    var h, u := HalfEven(y), Exp(10, k - 16);
    assert r == h as real * u;
    assert 17 + (k - 16) == k + 1;
    assert TEN17 as real * u == Exp(10, k + 1);
    if k == d - 1 {
      assert 16 - k == 17 - d && k + 1 == d;
      HalfEvenError(y);
      BelowWhole(h, y);
      RMulMono(h as real, TEN17 as real, u);
    } else {
      RMulMono(h as real, TEN17 as real, u);
      ExpGrows(10, k + 1, d - 1);
      StrictlyGrows(d);
    }
  }

  lemma BelowWhole(h: int, y: real)
    requires h as real - y <= 0.5 && y < TEN17 as real - 0.5
    ensures h < TEN17
  {}

  lemma StrictlyGrows(d: int)
    ensures Exp(10, d - 1) < Exp(10, d)
  {
    hide Exp;
    TenPowers();
    ExpAdd(10, 1, d - 1);
    ExpPositive(10, d - 1);
  }

  // ---- binary values near the bounds -----------------------------------------------------

  /** A value below 10^17 is a whole number or far below it. */
  lemma FarBelowLarge(s: nat, e: int)
    requires s < TWO53 && BinaryValue(s, e) < 100000000000000000.0
    ensures BinaryValue(s, e) * Exp(10, 0) < TEN17 as real - 0.5
  {
    hide Exp;
    ExpZero();
    if e >= 0 {
      ExpIsPow(2, e);
      RealOfProduct(s, Pow(2, e));
      assert s * Pow(2, e) < TEN17;
    } else {
      ExpGrows(2, e, 0);
      TwoZero();
      ExpPositive(2, e);
      var u := Exp(2, e);
      RMulMono(u, 1.0, 1.0);
      SmallProduct(s as real, u, TWO53 as real);
    }
  }

  lemma TwoZero()
    ensures Exp(2, 0) == 1.0
  {}

  lemma SmallProduct(s: real, u: real, t: real)
    requires 0.0 <= s < t && 0.0 < u <= 1.0
    ensures s * u < t
  {
    if s > 0.0 {
      RMulMono(u, 1.0, s);
      assert u * s == s * u;
    }
  }

  /** A value below 10^-4 is at least half a unit of its seventeenth digit below. */
  lemma FarBelowSmall(s: nat, e: int)
    requires s < TWO53 && BinaryValue(s, e) < 0.0001
    ensures BinaryValue(s, e) * Exp(10, 21) < TEN17 as real - 0.5
  {
    hide Exp;
    var v, two66, ten21 := BinaryValue(s, e), 73786976294838206464, 1000000000000000000000;
    BoundPowers();
    if e >= -66 {
      ExpAdd(2, e + 66, -66);
      ExpIsPow(2, e + 66);
      RMulShuffle(s as real, Exp(2, e + 66), Exp(2, -66));
      RealOfProduct(s, Pow(2, e + 66));
      var n := s * Pow(2, e + 66);
      assert v == n as real * Exp(2, -66);
      WholeBelow(n, v, Exp(2, -66));
    } else {
      ExpGrows(2, e, -67);
      ExpAdd(2, 1, -67);
      ExpPositive(2, e);
      ExpTwo();
      FarSmaller(s as real, Exp(2, e), Exp(2, -67), Exp(2, -66));
    }
  }

  lemma BoundPowers()
    ensures Exp(2, -66) * 73786976294838206464.0 == 1.0 && Exp(10, 21) == 1000000000000000000000.0
  {
    TwoTo66();
    TenTo21();
    hide Pow;
    var t := 73786976294838206464.0;
    assert Exp(2, -66) == 1.0 / t;
  }

  lemma TwoTo66()
    ensures Pow(2, 66) == 73786976294838206464
  {
    assert Pow(2, 6) == 64;
    hide Pow;
    PowAdd(2, 6, 6);
    PowAdd(2, 12, 12);
    PowAdd(2, 24, 24);
    PowAdd(2, 48, 12);
    PowAdd(2, 60, 6);
  }

  lemma TenTo21()
    ensures Pow(10, 21) == 1000000000000000000000
  {
    TenPower17();
    assert Pow(10, 4) == 10000;
    hide Pow;
    PowAdd(10, 17, 4);
  }

  lemma WholeBelow(n: int, v: real, u: real)
    requires v == n as real * u && u * 73786976294838206464.0 == 1.0 && v < 0.0001
    ensures v * 1000000000000000000000.0 < TEN17 as real - 0.5
  {
    var t := 73786976294838206464.0;
    assert v * t == n as real by {
      RMulShuffle(n as real, u, t);
    }
    assert n as real < 0.0001 * t;
    assert n <= 7378697629483820;
    assert (v * 1000000000000000000000.0) * t == n as real * 1000000000000000000000.0;
  }

  lemma FarSmaller(s: real, u: real, low: real, half: real)
    requires 0.0 <= s < TWO53 as real && 0.0 < u <= low && half == 2.0 * low && half * 73786976294838206464.0 == 1.0
    ensures s * u * 1000000000000000000000.0 < TEN17 as real - 0.5
  {
    var t, ten21 := 2.0 * 73786976294838206464.0, 1000000000000000000000.0;
    TwoFactors(s, TWO53 as real, u, low);
    assert low * t == 1.0;
    var product, bound := TWO53 as real * ten21, TEN17 as real - 0.5;
    RMulMono(s * u, TWO53 as real * low, ten21);
    assert TWO53 as real * low * ten21 == product * low;
    assert product < bound * t;
    RMulMono(product, bound * t, low);
    assert bound * t * low == bound * (low * t);
  }

  lemma TwoFactors(s: real, p: real, u: real, low: real)
    requires 0.0 <= s <= p && 0.0 < p && 0.0 < u <= low
    ensures s * u <= p * low
  {
    RMulMono(s, p, u);
    RMulMono(u, low, p);
    RMulSwap(p, u);
    RMulSwap(p, low);
  }

  lemma RMulSwap(a: real, b: real)
    ensures a * b == b * a
  {}

  /** Rounding takes the nearest integer, and between two equally near ones the even one. */
  lemma HalfEvenExactly(y: real, k: int)
    ensures HalfEven(y) == k <==>
            || -0.5 < y - k as real < 0.5
            || ((y - k as real == 0.5 || y - k as real == -0.5) && k % 2 == 0)
  {}

  // ---- what the bits mean ----------------------------------------------------------------

  /** A sign, eleven bits of exponent and fifty-two of fraction: the value is the fraction with a leading one,
    * or without it where the exponent is zero, times the power of two; all ones are no number. */
  lemma BitsMean(negative: bool, exponent: nat, fraction: nat)
    requires exponent < 2048 && fraction < 4503599627370496
    ensures var bits := (if negative then 9223372036854775808 else 0) + exponent * 4503599627370496 + fraction;
            && bits < W64 && Negative(bits) == negative && (IsFinite(bits) <==> exponent != 2047)
            && MagnitudeOf(bits) == if exponent == 0 then fraction as real * Exp(2, -1074)
                                    else (4503599627370496 + fraction) as real * Exp(2, exponent - 1075)
  {
    hide Exp;
    var bits := (if negative then 9223372036854775808 else 0) + exponent * 4503599627370496 + fraction;
    var sign := if negative then 1 else 0;
    assert bits == fraction + 4503599627370496 * (exponent + 2048 * sign);
    QuotientOf(bits, 4503599627370496, exponent + 2048 * sign, fraction);
    QuotientOf(exponent + 2048 * sign, 2048, sign, exponent);
    assert bits / 9223372036854775808 == sign;
  }

  // ---- the format ------------------------------------------------------------------------

  lemma ScientificHasE(s: string)
    requires IsScientific(s)
    ensures 'e' in s
  {
    var d, f, sign, x :| ScientificParts(s, d, f, sign, x);
    assert s[1 + if f == "" then 0 else |f| + 1] == 'e';
  }

  lemma PositionalHasNoE(s: string)
    requires IsPositional(s)
    ensures 'e' !in s
  {
    if !IsWhole(s) {
      var w, f :| PositionalParts(s, w, f);
      assert AllDigits(w) && AllDigits(f);
    }
  }

  /** The text of any nonzero value: an exponent exactly below 10^-4 and from 10^17 on, and then one digit
    * before the point; otherwise the positional numeral. No fraction ends in a zero. */
  lemma FormatOf(bits: nat, text: string)
    requires bits < W64 && IsFinite(bits) && IsNumeral(text, bits) && SignificandOf(bits) > 0
    ensures Negative(bits) ==> text != "" && text[0] == '-'
    ensures 'e' in text <==> MagnitudeOf(bits) < 0.0001 || MagnitudeOf(bits) >= 100000000000000000.0
    ensures var body := if Negative(bits) then text[1..] else text;
            if 'e' in text then IsScientific(body) else IsPositional(body)
  {
    hide Pow, Exp, Render, IsRounded, DecimalValue, BinaryValue, Body, IsScientific, IsPositional, EncodedExponent;
    var v, negative := MagnitudeOf(bits), Negative(bits);
    BitsRange(bits);
    var c: nat, n: nat, e: int :| 0 < n <= 17 && Pow(10, n - 1) <= c <= Pow(10, n)
                                  && text == Render(c, n, e, negative) && IsRounded(v, DecimalValue(c, e - n + 1));
    var parts := RenderParts(c, n, e, negative);
    var (a, k, g) := parts;
    var r := DecimalValue(c, e - n + 1);
    LeadingAt(a, k, g);
    ScientificExactly(v, r, SignificandOf(bits), ExponentOf(bits), g);
    var body := Body(a, k, g);
    assert text == SignText(negative) + body;
    assert negative ==> text[1..] == body;
    assert !negative ==> text == body;
    if Scientific(g) {
      ScientificShape(a, k, g);
      ScientificHasE(body);
    } else {
      PositionalShape(a, k, g);
      PositionalHasNoE(body);
    }
    assert 'e' in text <==> 'e' in body;
  }

  lemma ScientificExactly(v: real, r: real, s: nat, x: int, g: int)
    requires s < TWO53 && v == BinaryValue(s, x) && IsRounded(v, r) && LeadingDigitAt(r, g)
    ensures Scientific(g) <==> v < 0.0001 || v >= 100000000000000000.0
  {
    hide Exp, IsRounded, BinaryValue;
    TenLiterals();
    if v < 0.0001 {
      FarBelowSmall(s, x);
      RoundedBelow(v, r, -4);
      if g >= -4 {
        ExpGrows(10, -4, g);
      }
    } else {
      RoundedAtLeast(v, r, -4);
      if g < -4 {
        ExpGrows(10, g + 1, -4);
      }
    }
    if v >= 100000000000000000.0 {
      RoundedAtLeast(v, r, 17);
      if g < 17 {
        ExpGrows(10, g + 1, 17);
      }
    } else {
      FarBelowLarge(s, x);
      RoundedBelow(v, r, 17);
      if g >= 17 {
        ExpGrows(10, 17, g);
      }
    }
  }
}
