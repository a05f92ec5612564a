/** Decimal text of a coefficient and exponent: the printer, and an independent reader. */
module DecimalText {
  import opened Powers
  import opened Reals
  import opened Options
  import opened Text
  import opened DecimalRounding

  // ---- the reader ------------------------------------------------------------------------

  /** An exact decimal number: a sign, an integer and a power of ten. */
  datatype Number = Number(negative: bool, digits: nat, exponent: int)

  ghost function Magnitude(n: Number): real {
    DecimalValue(n.digits, n.exponent)
  }

  /** Length of the leading run of digits. */
  function DigitRun(s: string): (k: nat)
    ensures k <= |s| && AllDigits(s[..k])
    ensures k < |s| ==> !IsDigit(s[k])
  {
    if s == [] || !IsDigit(s[0]) then 0
    else
      var k := DigitRun(s[1..]);
      assert s[..k + 1] == [s[0]] + s[1..][..k];
      k + 1
  }

  /** [-] digits [. digits] [e [sign] digits], at least one digit in each digit part that is required. */
  function ReadNumber(s: string): Option<Number> {
    var negative := s != [] && s[0] == '-';
    ReadUnsigned(negative, if negative then s[1..] else s)
  }

  function ReadUnsigned(negative: bool, s: string): Option<Number> {
    var n := DigitRun(s);
    if n < |s| && s[n] == '.' then
      var m := DigitRun(s[n + 1..]);
      if n + m == 0 then None
      else ReadExponent(negative, s[..n] + s[n + 1..][..m], m, s[n + 1..][m..])
    else if n == 0 then None
    else ReadExponent(negative, s[..n], 0, s[n..])
  }

  function ReadExponent(negative: bool, digits: string, places: nat, s: string): Option<Number>
    requires AllDigits(digits)
  {
    if s == [] then Some(Number(negative, NatOf(digits), -(places as int)))
    else if s[0] != 'e' && s[0] != 'E' then None
    else
      var signed := |s| > 1 && (s[1] == '-' || s[1] == '+');
      var t := if signed then s[2..] else s[1..];
      var k := DigitRun(t);
      if k == 0 || k < |t| then None
      else
        var e: int := NatOf(t);
        Some(Number(negative, NatOf(digits), (if signed && s[1] == '-' then -e else e) - places))
  }

  lemma {:induction false} DigitRunOf(d: string, rest: string)
    requires AllDigits(d) && (rest == [] || !IsDigit(rest[0]))
    ensures DigitRun(d + rest) == |d|
  {
    if d == [] {
      assert d + rest == rest;
    } else {
      assert (d + rest)[1..] == d[1..] + rest;
      DigitRunOf(d[1..], rest);
    }
  }

  // ---- the text --------------------------------------------------------------------------

  /** Trailing zeros of the coefficient are dropped, down to one digit. */
  ghost function Stripped(coefficient: nat, count: nat): (nat, nat) {
    if count > 1 && coefficient % 10 == 0 then Stripped(coefficient / 10, count - 1) else (coefficient, count)
  }

  predicate Scientific(exponent: int) {
    exponent < -4 || exponent >= 17
  }

  function PointPosition(exponent: int): int {
    if Scientific(exponent) then 1 else exponent + 1
  }

  /** The first i digits with a point after k of them. */
  function Pointed(d: string, k: int, i: nat): string
    requires i <= |d|
  {
    if 0 < k < i then d[..k] + "." + d[k..i] else d[..i]
  }

  function Abs(e: int): nat { if e < 0 then -e else e }

  function ExponentText(exponent: int): string {
    "e" + (if exponent < 0 then "-" else "+") + (if Abs(exponent) >= 10 then "" else "0") + Decimal(Abs(exponent))
  }

  function Before(exponent: int): string {
    if !Scientific(exponent) && exponent < 0 then "0." + Zeros(-exponent - 1) else ""
  }

  function After(count: nat, exponent: int): string {
    if Scientific(exponent) then ExponentText(exponent)
    else if exponent >= count then Zeros(exponent - count + 1)
    else ""
  }

  function SignText(negative: bool): string { if negative then "-" else "" }

  function Body(coefficient: nat, count: nat, exponent: int): string {
    Before(exponent) + Pointed(DigitsText(coefficient, count), PointPosition(exponent), count) + After(count, exponent)
  }

  /** The text of an already stripped coefficient. */
  function Layout(coefficient: nat, count: nat, exponent: int, negative: bool): string {
    SignText(negative) + Body(coefficient, count, exponent)
  }

  /** A coefficient that was rounded up to one digit more is renormalised first. */
  ghost function Render(coefficient: nat, count: nat, exponent: int, negative: bool): string {
    var (c, e) := if coefficient == Pow(10, count) then (coefficient / 10, exponent + 1) else (coefficient, exponent);
    var (c', n) := Stripped(c, count);
    Layout(c', n, e, negative)
  }

  // ---- reading back ----------------------------------------------------------------------

  lemma {:induction false} StrippedValue(coefficient: nat, count: nat, exponent: int)
    requires count > 0 && coefficient < Pow(10, count)
    ensures var (c, n) := Stripped(coefficient, count);
            && 0 < n <= count && c < Pow(10, n)
            && DecimalValue(c, exponent - n + 1) == DecimalValue(coefficient, exponent - count + 1)
  {
    if count > 1 && coefficient % 10 == 0 {
      StrippedValue(coefficient / 10, count - 1, exponent);
      TenfoldCoefficient(coefficient / 10, exponent - count + 1);
    }
  }

  lemma TenfoldCoefficient(c: nat, e: int)
    ensures DecimalValue(10 * c, e) == DecimalValue(c, e + 1)
  {
    TenPowers();
    hide Exp;
    ExpAdd(10, 1, e);
    RMulShuffle(c as real, 10.0, Exp(10, e));
  }

  lemma ReadExponentText(negative: bool, digits: string, places: nat, exponent: int)
    requires AllDigits(digits)
    ensures ReadExponent(negative, digits, places, ExponentText(exponent))
         == Some(Number(negative, NatOf(digits), exponent - places))
  {
    hide Decimal, NatOf, DigitRun;
    var s := ExponentText(exponent);
    var z := Zeros(if Abs(exponent) >= 10 then 0 else 1);
    var d := Decimal(Abs(exponent));
    var t := s[2..];
    assert t == z + d;
    NatOfDecimal(Abs(exponent));
    NatOfConcat(z, d);
    NatOfZeros(|z|);
    ZeroTimes(Pow(10, |d|));
    DigitRunOf(t, "");
    assert t + "" == t;
  }

  lemma ZeroTimes(n: nat)
    ensures 0 * n == 0
  {}

  /** Two digit strings around a point read as one digit string and a number of places. */
  lemma ReadPointed(negative: bool, whole: string, fraction: string, tail: string)
    requires AllDigits(whole) && AllDigits(fraction) && |whole| + |fraction| > 0
    requires tail == [] || !IsDigit(tail[0])
    ensures AllDigits(whole + fraction)
    ensures ReadUnsigned(negative, whole + "." + fraction + tail)
         == ReadExponent(negative, whole + fraction, |fraction|, tail)
  {
    hide DigitRun, ReadExponent, NatOf;
    var s, rest := whole + "." + fraction + tail, "." + (fraction + tail);
    assert s == whole + rest;
    DigitRunOf(whole, rest);
    DigitRunOf(fraction, tail);
    assert s[|whole|] == '.' && s[..|whole|] == whole;
    assert s[|whole| + 1..] == fraction + tail;
    assert (fraction + tail)[..|fraction|] == fraction && (fraction + tail)[|fraction|..] == tail;
  }

  lemma ReadWhole(negative: bool, whole: string, tail: string)
    requires AllDigits(whole) && |whole| > 0
    requires tail == [] || (!IsDigit(tail[0]) && tail[0] != '.')
    ensures ReadUnsigned(negative, whole + tail) == ReadExponent(negative, whole, 0, tail)
  {
    hide DigitRun, ReadExponent, NatOf;
    DigitRunOf(whole, tail);
    assert (whole + tail)[..|whole|] == whole && (whole + tail)[|whole|..] == tail;
  }

  lemma ReadSigned(negative: bool, s: string)
    requires s != [] && s[0] != '-'
    ensures ReadNumber(SignText(negative) + s) == ReadUnsigned(negative, s)
  {
    hide ReadUnsigned;
    assert negative ==> ("-" + s)[1..] == s;
    assert !negative ==> "" + s == s;
  }

  /** The text of a stripped coefficient reads back as exactly its value. */
  lemma ReadLayout(c: nat, n: nat, exponent: int, negative: bool)
    requires n > 0 && c < Pow(10, n)
    ensures ReadsAs(Layout(c, n, exponent, negative), negative, DecimalValue(c, exponent - n + 1))
  {
    hide Pow, DigitsText, ReadUnsigned, ReadNumber, DecimalValue, Body;
    NatOfDigitsText(c, n);
    if Scientific(exponent) {
      ReadScientific(negative, c, n, exponent);
    } else if exponent < 0 {
      ReadSmall(negative, c, n, exponent);
    } else if exponent + 1 < n {
      ReadMixed(negative, c, n, exponent);
    } else {
      ReadLarge(negative, c, n, exponent);
      WholeValue(c, exponent - n + 1);
    }
    ReadSigned(negative, Body(c, n, exponent));
  }

  /** The text is accepted and denotes the value with the sign. */
  ghost predicate ReadsAs(text: string, negative: bool, value: real) {
    var r := ReadNumber(text);
    r.Some? && r.value.negative == negative && Magnitude(r.value) == value
  }

  lemma ReadScientific(negative: bool, c: nat, n: nat, exponent: int)
    requires n > 0 && Scientific(exponent) && NatOf(DigitsText(c, n)) == c
    ensures var b := Body(c, n, exponent);
            && b != [] && b[0] != '-'
            && ReadUnsigned(negative, b) == Some(Number(negative, c, exponent - n + 1))
  {
    hide ReadUnsigned, ReadExponent, NatOf, DigitsText, Decimal;
    var d, e := DigitsText(c, n), ExponentText(exponent);
    if n > 1 {
      assert Body(c, n, exponent) == d[..1] + "." + d[1..] + e;
      ReadPointed(negative, d[..1], d[1..], e);
      assert d[..1] + d[1..] == d;
      ReadExponentText(negative, d, n - 1, exponent);
    } else {
      assert Body(c, n, exponent) == d + e;
      ReadWhole(negative, d, e);
      ReadExponentText(negative, d, 0, exponent);
    }
  }

  lemma ReadSmall(negative: bool, c: nat, n: nat, exponent: int)
    requires n > 0 && !Scientific(exponent) && exponent < 0 && NatOf(DigitsText(c, n)) == c
    ensures var b := Body(c, n, exponent);
            && b != [] && b[0] != '-'
            && ReadUnsigned(negative, b) == Some(Number(negative, c, exponent - n + 1))
  {
    hide ReadUnsigned, DigitsText;
    var d, z := DigitsText(c, n), Zeros(-exponent - 1);
    assert d[..n] == d;
    assert Body(c, n, exponent) == "0" + "." + (z + d) + "";
    ReadPointed(negative, "0", z + d, "");
    LeadingZeros(d, -exponent - 1);
  }

  lemma LeadingZeros(d: string, k: nat)
    requires AllDigits(d)
    ensures AllDigits("0" + (Zeros(k) + d)) && NatOf("0" + (Zeros(k) + d)) == NatOf(d)
  {
    assert "0" + (Zeros(k) + d) == Zeros(k + 1) + d;
    NatOfConcat(Zeros(k + 1), d);
    NatOfZeros(k + 1);
  }

  lemma ReadMixed(negative: bool, c: nat, n: nat, exponent: int)
    requires !Scientific(exponent) && 0 <= exponent && exponent + 1 < n && NatOf(DigitsText(c, n)) == c
    ensures var b := Body(c, n, exponent);
            && b != [] && b[0] != '-'
            && ReadUnsigned(negative, b) == Some(Number(negative, c, exponent - n + 1))
  {
    hide ReadUnsigned, DigitsText, NatOf;
    var d := DigitsText(c, n);
    assert Body(c, n, exponent) == d[..exponent + 1] + "." + d[exponent + 1..] + "";
    ReadPointed(negative, d[..exponent + 1], d[exponent + 1..], "");
    assert d[..exponent + 1] + d[exponent + 1..] == d;
  }

  lemma ReadLarge(negative: bool, c: nat, n: nat, exponent: int)
    requires n > 0 && !Scientific(exponent) && n <= exponent + 1 && NatOf(DigitsText(c, n)) == c
    ensures 0 <= c * Pow(10, exponent - n + 1)
    ensures var b := Body(c, n, exponent);
            && b != [] && b[0] != '-'
            && ReadUnsigned(negative, b) == Some(Number(negative, c * Pow(10, exponent - n + 1), 0))
  {
    hide ReadUnsigned, DigitsText, NatOf, Pow;
    var d, z := DigitsText(c, n), Zeros(exponent - n + 1);
    assert Body(c, n, exponent) == (d + z) + "";
    NatOfConcat(d, z);
    NatOfZeros(exponent - n + 1);
    ReadWhole(negative, d + z, "");
  }

  lemma WholeValue(c: nat, k: nat)
    ensures 0 <= c * Pow(10, k)
    ensures DecimalValue(c * Pow(10, k), 0) == DecimalValue(c, k)
  {
    MulNonneg(c, Pow(10, k));
    RealOfProduct(c, Pow(10, k));
    assert Exp(10, 0) == 1.0;
  }

  /** Text after trailing-zero removal denotes the coefficient and exponent it was printed from. */
  lemma ReadRender(coefficient: nat, count: nat, exponent: int, negative: bool)
    requires count > 0 && coefficient <= Pow(10, count)
    ensures ReadsAs(Render(coefficient, count, exponent, negative), negative,
            DecimalValue(coefficient, exponent - count + 1))
  {
    hide Pow, DecimalValue, Layout, ReadsAs, Stripped;
    var c, e := coefficient, exponent;
    if coefficient == Pow(10, count) {
      PowAdd(10, 1, count - 1);
      PowOne(10);
      c, e := coefficient / 10, exponent + 1;
      PowGrows(10, count - 1, count);
      TenfoldCoefficient(c, exponent - count + 1);
    }
    StrippedValue(c, count, e);
    var (c', n) := Stripped(c, count);
    ReadLayout(c', n, e, negative);
  }

  // ---- one text for one number -----------------------------------------------------------

  /** A coefficient of this many digits, the leading one not zero. */
  ghost predicate Leads(c: nat, count: nat) { count > 0 && Pow(10, count - 1) <= c < Pow(10, count) }

  lemma {:induction false} StrippedLeads(c: nat, count: nat)
    requires Leads(c, count)
    ensures var (d, n) := Stripped(c, count); Leads(d, n) && (n > 1 ==> d % 10 != 0)
  {
    if count > 1 && c % 10 == 0 {
      PowStep(10, count - 2);
      PowStep(10, count - 1);
      StrippedLeads(c / 10, count - 1);
    }
  }

  /** The exponent of such a number is the position of its leading digit. */
  lemma LeadingAt(c: nat, n: nat, e: int)
    requires Leads(c, n)
    ensures LeadingDigitAt(DecimalValue(c, e - n + 1), e)
  {
    hide Pow, Exp;
    ExpIsPow(10, n - 1);
    ExpIsPow(10, n);
    ExpPositive(10, e - n + 1);
    ExpAdd(10, n - 1, e - n + 1);
    ExpAdd(10, n, e - n + 1);
    RMulMono(Exp(10, n - 1), c as real, Exp(10, e - n + 1));
    RMulMono(c as real, Exp(10, n), Exp(10, e - n + 1));
  }

  /** Equal numbers with the same leading position, neither ending in a zero it could drop. */
  lemma SameDigits(c: nat, n: nat, d: nat, m: nat, e: int)
    requires Leads(c, n) && Leads(d, m) && n <= m && (m > 1 ==> d % 10 != 0)
    requires DecimalValue(c, e - n + 1) == DecimalValue(d, e - m + 1)
    ensures c == d && n == m
  {
    hide Pow, Exp;
    var k := m - n;
    ExpPositive(10, e - m + 1);
    ExpAdd(10, k, e - m + 1);
    ExpIsPow(10, k);
    RMulShuffle(c as real, Exp(10, k), Exp(10, e - m + 1));
    RealOfProduct(c, Pow(10, k));
    RMulCompare((c * Pow(10, k)) as real, d as real, Exp(10, e - m + 1));
    assert c * Pow(10, k) == d;
    if k > 0 {
      PowStep(10, k - 1);
      TenDivides(c, Pow(10, k - 1), d);
    } else {
      PowZero();
    }
  }

  lemma PowZero()
    ensures Pow(10, 0) == 1
  {}

  lemma TenDivides(c: nat, p: nat, d: nat)
    requires d == c * (10 * p)
    ensures d % 10 == 0
  {
    MulAssoc(c, 10, p);
    assert d == 10 * (c * p);
  }

  /** Two renderings of one number are the same text, however many digits they started from. */
  lemma RenderUnique(c: nat, n: nat, e: int, d: nat, m: nat, f: int, negative: bool)
    requires n > 0 && Pow(10, n - 1) <= c <= Pow(10, n) && m > 0 && Pow(10, m - 1) <= d <= Pow(10, m)
    requires DecimalValue(c, e - n + 1) == DecimalValue(d, f - m + 1)
    ensures Render(c, n, e, negative) == Render(d, m, f, negative)
  {
    hide Pow, DecimalValue, Layout, Stripped, LeadingDigitAt;
    var first := RenderParts(c, n, e, negative);
    var second := RenderParts(d, m, f, negative);
    var ((a, k, g), (b, l, h)) := (first, second);
    LeadingAt(a, k, g);
    LeadingAt(b, l, h);
    LeadingDigitUnique(DecimalValue(a, g - k + 1), g, h);
    if k <= l {
      SameDigits(a, k, b, l, g);
    } else {
      SameDigits(b, l, a, k, g);
    }
  }

  /** The stripped coefficient, its digits and the exponent that are laid out. */
  lemma RenderParts(c: nat, n: nat, e: int, negative: bool) returns (parts: (nat, nat, int))
    requires n > 0 && Pow(10, n - 1) <= c <= Pow(10, n)
    ensures var (a, k, g) := parts;
            && Leads(a, k) && k <= n && (k > 1 ==> a % 10 != 0)
            && Render(c, n, e, negative) == Layout(a, k, g, negative)
            && DecimalValue(a, g - k + 1) == DecimalValue(c, e - n + 1)
  {
    hide Pow, DecimalValue, Layout, Stripped;
    var c', e' := c, e;
    if c == Pow(10, n) {
      PowStep(10, n - 1);
      c', e' := c / 10, e + 1;
      PowGrows(10, n - 1, n);
      TenfoldCoefficient(c', e - n + 1);
    }
    StrippedValue(c', n, e');
    StrippedLeads(c', n);
    var (a, k) := Stripped(c', n);
    parts := (a, k, e');
  }
}
