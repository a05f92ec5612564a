/** Printed numbers inside JSON text: where they end, and that they read back. */
module JsonNumber {
  import opened Options
  import opened Powers
  import opened Reals
  import opened Text
  import opened DecimalRounding
  import opened DecimalText
  import opened DecimalScales
  import opened DecimalCached
  import opened DecimalPrinter
  import opened DecimalRoundTrip
  import opened JsonGrammar
  import opened JsonLexical

  /** Finite, and zero or normal: what the reader accepts. */
  predicate Readable(bits: nat) {
    bits < W64 && IsFinite(bits) && (SignificandOf(bits) == 0 || EncodedExponent(bits) != 0)
  }

  /** Half a unit below the smallest normal value, and half a unit above the largest finite one. */
  ghost function Underflow(): real { (TWO53 - 1) as real * Exp(2, -1075) }
  ghost function Overflow(): real { (2 * TWO53 - 1) as real * Exp(2, 970) }

  /** Exactly zero, or a magnitude between those: what rounds to zero, below the normal values or to
    * infinity is out of range. */
  ghost predicate InRange(text: string) {
    && ReadNumber(text).Some?
    && var m := Magnitude(ReadNumber(text).value);
       m == 0.0 || Underflow() < m < Overflow()
  }

  /** The text-to-double conversion rounds correctly; it may refuse what is out of range, and refuses
    * subnormal results. */
  ghost predicate IsReader(read: Reader) {
    && (forall text :: read(text).Some? ==> Readable(read(text).value))
    && (forall text, bits ::
          InRange(text) && Readable(bits) && MayReadAs(text, bits) ==>
              read(text).Some? && MayReadAs(text, read(text).value))
  }

  // ---- printed numbers read back ---------------------------------------------------------

  /** A printed value is nearer to the value than to any other. */
  lemma PrintedMayRead(bits: nat, text: string)
    requires Readable(bits) && DecimalPrinter.IsNumeral(text, bits)
    ensures MayReadAs(text, bits) && InRange(text)
  {
    hide IsRendering, IsRounded, ReadsAs, BinaryValue, Canonical, Exp, HalfGap, ReadNumber, Magnitude;
    var s, e := SignificandOf(bits), ExponentOf(bits);
    if s == 0 {
      ZeroReads(text, Negative(bits));
      ReadsAsValue(text, Negative(bits), 0.0);
      ZeroIsNearest(bits);
    } else {
      RenderingReads(text, MagnitudeOf(bits), Negative(bits));
      var r :| IsRounded(MagnitudeOf(bits), r) && ReadsAs(text, Negative(bits), r);
      ReadsAsValue(text, Negative(bits), r);
      CanonicalParts(bits);
      BitsRange(bits);
      ErrorBelowHalfGap(s, e, r);
      forall w: nat | w < W64 && IsFinite(w)
        ensures RAbs(MagnitudeOf(bits) - r) <= RAbs(MagnitudeOf(w) - r)
      {
        CanonicalParts(w);
        if (s, e) != (SignificandOf(w), ExponentOf(w)) {
          GapAround(s, e, SignificandOf(w), ExponentOf(w));
        }
      }
      BelowOverflow(s, e, r);
      NormalSignificand(bits);
      AboveUnderflow(s, e, r);
    }
  }

  lemma NormalSignificand(bits: nat)
    requires Readable(bits) && SignificandOf(bits) != 0
    ensures TWO52 <= SignificandOf(bits)
  {}

  lemma ZeroIsNearest(bits: nat)
    requires SignificandOf(bits) == 0 && IsFinite(bits)
    ensures IsNearest(0.0, bits)
  {
    hide Exp;
    forall w: nat | w < W64 && IsFinite(w)
      ensures RAbs(MagnitudeOf(bits) - 0.0) <= RAbs(MagnitudeOf(w) - 0.0)
    {
      assert MagnitudeOf(bits) == 0.0;
    }
  }

  /** A value's half gap stays below the threshold of infinity. */
  lemma BelowOverflow(s: nat, e: int, r: real)
    requires 0 < s < TWO53 && -1074 <= e <= 971 && RAbs(r - BinaryValue(s, e)) < HalfGap(s, e)
    ensures r < Overflow()
  {
    hide Exp;
    var u, top := Exp(2, e - 1), Exp(2, 970);
    DoubledValue(s, e);
    ExpPositive(2, e - 1);
    HalfGapAtMost(s, e);
    ExpGrows(2, e - 1, 970);
    Stretch((2 * s) as real, (2 * s + 1) as real, (2 * TWO53 - 1) as real, u, top, r);
  }

  /** A normal value's half gap stays above the subnormal values. */
  lemma AboveUnderflow(s: nat, e: int, r: real)
    requires TWO52 <= s < TWO53 && -1074 <= e && RAbs(r - BinaryValue(s, e)) < HalfGap(s, e)
    ensures Underflow() < r
  {
    hide Exp;
    var u, low := Exp(2, e - 1), Exp(2, -1075);
    DoubledValue(s, e);
    ExpPositive(2, -1075);
    HalfGapAtMost(s, e);
    ExpGrows(2, -1075, e - 1);
    Shrink((2 * s) as real, (2 * s - 1) as real, (TWO53 - 1) as real, u, low, r);
  }

  lemma Shrink(a: real, b: real, c: real, u: real, low: real, r: real)
    requires a * u - u < r && b == a - 1.0 && c <= b && 0.0 < low <= u && 0.0 < c
    ensures c * low < r
  {
    assert a * u - u == b * u;
    RMulMonoLeft(c, b, u);
    RMulMonoLeft(low, u, c);
    assert u * c == c * u && low * c == c * low;
  }

  lemma Stretch(a: real, b: real, c: real, u: real, top: real, r: real)
    requires r < a * u + u && b == a + 1.0 && b <= c && 0.0 < u <= top && 0.0 < c
    ensures r < c * top
  {
    assert a * u + u == b * u;
    RMulMonoLeft(b, c, u);
    RMulMonoLeft(u, top, c);
    assert u * c == c * u && top * c == c * top;
  }

  lemma HalfGapAtMost(s: nat, e: int)
    ensures HalfGap(s, e) <= Exp(2, e - 1)
  {
    hide Exp;
    ExpPositive(2, e - 1);
  }

  /** The reader returns the bits that were printed. */
  lemma PrintedReadsBack(read: Reader, bits: nat, text: string)
    requires IsReader(read) && Readable(bits) && DecimalPrinter.IsNumeral(text, bits)
    ensures read(text) == Some(bits)
  {
    hide IsReader, MayReadAs, InRange, DecimalPrinter.IsNumeral, Readable;
    PrintedMayRead(bits, text);
    ReaderReads(read, text, bits);
    RoundTrips(bits, text, read(text).value);
  }

  lemma RoundTrips(bits: nat, text: string, result: nat)
    requires Readable(bits) && DecimalPrinter.IsNumeral(text, bits) && MayReadAs(text, result)
    ensures result == bits
  {
    hide DecimalPrinter.IsNumeral, MayReadAs;
    RoundTrip(bits, text, result);
  }

  lemma ReaderReads(read: Reader, text: string, bits: nat)
    requires IsReader(read) && InRange(text) && Readable(bits) && MayReadAs(text, bits)
    ensures read(text).Some? && MayReadAs(text, read(text).value)
  {
    hide MayReadAs, InRange, Readable;
  }

  // ---- the extent of a number ------------------------------------------------------------

  lemma {:induction false} DigitRunExtends(s: string, rest: string)
    requires rest == "" || !IsDigit(rest[0])
    ensures DigitRun(s + rest) == DigitRun(s)
  {
    if s == "" {
      assert s + rest == rest;
    } else {
      assert (s + rest)[1..] == s[1..] + rest;
      DigitRunExtends(s[1..], rest);
    }
  }

  /** The run of a number without its sign. */
  function UnsignedRun(s: string): nat {
    var n := DigitRun(s);
    var p := n + FractionRun(s[n..]);
    p + ExponentRun(s[p..])
  }

  lemma SignThenRun(s: string)
    ensures NumberRun(s) == SignRun(s, false) + UnsignedRun(s[SignRun(s, false)..])
  {
    hide DigitRun, FractionRun, ExponentRun;
    var sign := SignRun(s, false);
    var u := s[sign..];
    var n := DigitRun(u);
    assert s[sign + n..] == u[n..];
    var f := FractionRun(u[n..]);
    assert s[sign + n + f..] == u[n + f..];
  }

  /** A text the number grammar accepts is one run, and what follows does not lengthen it. */
  lemma NumberExtends(text: string, rest: string)
    requires ReadNumber(text).Some? && text != "" && Delimited(rest)
    ensures NumberRun(text + rest) == |text|
  {
    hide NumberRun, UnsignedRun, ReadUnsigned;
    var sign := SignRun(text, false);
    UnsignedExtends(sign == 1, text[sign..], rest);
    SignThenRun(text + rest);
    assert (text + rest)[sign..] == text[sign..] + rest;
  }

  lemma UnsignedExtends(negative: bool, u: string, rest: string)
    requires ReadUnsigned(negative, u).Some? && Delimited(rest)
    ensures UnsignedRun(u + rest) == |u|
  {
    hide DigitRun, ReadUnsigned, ExponentRun, ExponentShape;
    UnsignedShape(negative, u);
    var n, all := DigitRun(u), u + rest;
    DigitRunExtends(u, rest);
    var v := u[n..];
    assert all[n..] == v + rest;
    if v != "" && v[0] == '.' {
      var w := u[n + 1..];
      var m := DigitRun(w);
      assert (v + rest)[1..] == w + rest;
      DigitRunExtends(w, rest);
      assert all[n + 1 + m..] == w[m..] + rest;
      ExponentExtends(w[m..], rest);
    } else {
      assert FractionRun(v + rest) == 0;
      ExponentExtends(v, rest);
    }
  }

  /** Nothing, or an exponent to the end. */
  predicate ExponentShape(s: string) {
    s != "" ==> (s[0] == 'e' || s[0] == 'E') && ExponentStart(s) + ExponentDigits(s) == |s|
  }

  lemma UnsignedShape(negative: bool, u: string)
    requires ReadUnsigned(negative, u).Some?
    ensures var v := u[DigitRun(u)..];
            ExponentShape(if v != "" && v[0] == '.' then u[DigitRun(u) + 1..][DigitRun(u[DigitRun(u) + 1..])..] else v)
  {
    hide DigitRun, ReadExponent, ExponentShape;
    var n := DigitRun(u);
    if n < |u| && u[n] == '.' {
      var m := DigitRun(u[n + 1..]);
      ReadExponentShape(negative, u[..n] + u[n + 1..][..m], m, u[n + 1..][m..]);
    } else {
      ReadExponentShape(negative, u[..n], 0, u[n..]);
    }
  }

  lemma ReadExponentShape(negative: bool, digits: string, places: nat, s: string)
    requires AllDigits(digits) && ReadExponent(negative, digits, places, s).Some?
    ensures ExponentShape(s)
  {
    hide NatOf, DigitRun;
  }

  lemma ExponentExtends(s: string, rest: string)
    requires Delimited(rest) && ExponentShape(s)
    ensures ExponentRun(s + rest) == |s|
  {
    hide DigitRun;
    if s == "" {
      assert s + rest == rest;
    } else {
      var k := ExponentStart(s);
      assert (s + rest)[k..] == s[k..] + rest;
      assert (s + rest)[1..] == s[1..] + rest;
      DigitRunExtends(s[k..], rest);
    }
  }

  function ExponentStart(s: string): (k: nat)
    requires s != ""
    ensures k <= |s|
  {
    if |s| > 1 && (s[1] == '-' || s[1] == '+') then 2 else 1
  }

  function ExponentDigits(s: string): nat
    requires s != ""
  {
    DigitRun(s[ExponentStart(s)..])
  }

  // ---- printed text starts a number ------------------------------------------------------

  lemma {:induction false} StrippedCount(coefficient: nat, count: nat)
    requires count > 0
    ensures Stripped(coefficient, count).1 > 0
  {
    if count > 1 && coefficient % 10 == 0 {
      StrippedCount(coefficient / 10, count - 1);
    }
  }

  lemma RenderStarts(c: nat, count: nat, e: int, negative: bool)
    requires count > 0
    ensures Render(c, count, e, negative) != "" && StartsNumber(Render(c, count, e, negative)[0])
  {
    hide Stripped, DigitsText, Pow, ExponentText;
    var c', e' := if c == Pow(10, count) then c / 10 else c, if c == Pow(10, count) then e + 1 else e;
    StrippedCount(c', count);
    var (d, n) := Stripped(c', count);
    BodyStarts(d, n, e');
    assert Render(c, count, e, negative) == SignText(negative) + Body(d, n, e');
  }

  lemma BodyStarts(d: nat, n: nat, e: int)
    requires n > 0
    ensures Body(d, n, e) != "" && IsDigit(Body(d, n, e)[0])
  {
    hide DigitsText, ExponentText;
    var digits := DigitsText(d, n);
    assert IsDigit(digits[0]);
    if Before(e) == "" {
      assert Pointed(digits, PointPosition(e), n)[0] == digits[0];
    } else {
      assert Body(d, n, e)[0] == '0';
    }
  }

  lemma PrintedStarts(text: string, bits: nat)
    requires DecimalPrinter.IsNumeral(text, bits)
    ensures text != "" && StartsNumber(text[0])
  {
    hide Pow, Render, IsRounded, DecimalValue;
    if SignificandOf(bits) != 0 {
      var c: nat, count: nat, e: int :| 0 < count <= 17 && Pow(10, count - 1) <= c <= Pow(10, count)
                                        && text == Render(c, count, e, Negative(bits))
                                        && IsRounded(MagnitudeOf(bits), DecimalValue(c, e - count + 1));
      RenderStarts(c, count, e, Negative(bits));
    }
  }

  /** A printed number in a text, up to a delimiter, is the value again. */
  lemma PrintedParses(read: Reader, bits: nat, text: string, rest: string)
    requires IsReader(read) && Readable(bits) && DecimalPrinter.IsNumeral(text, bits) && Delimited(rest)
    ensures text != "" && StartsNumber(text[0])
    ensures ParseScalar(read, text + rest) == Some(Parsed(Json.Number(bits), rest, 1))
  {
    hide IsReader, MayReadAs, DecimalPrinter.IsNumeral, Readable, NumberRun, ReadNumber;
    PrintedStarts(text, bits);
    PrintedReadsBack(read, bits, text);
    assert ReadNumber(text).Some? by {
      PrintedMayRead(bits, text);
    }
    NumberExtends(text, rest);
    assert (text + rest)[..|text|] == text && (text + rest)[|text|..] == rest;
  }

  // ---- every readable value has a text ---------------------------------------------------

  lemma {:induction false} TenAboveTwo(n: nat)
    ensures Exp(2, n) <= Exp(10, n) && Exp(10, -(n as int)) <= Exp(2, -(n as int))
  {
    hide Exp;
    ExpZero();
    if n > 0 {
      TenAboveTwo(n - 1);
      TwoHalves(n);
      TwoHalves(-(n as int) + 1);
      TenPowers();
      ExpAdd(10, 1, n - 1);
      ExpAdd(10, 1, -(n as int));
      ExpPositive(10, -(n as int));
      ExpPositive(10, n - 1);
    } else {
      TwoToZero();
    }
  }

  lemma TwoToZero()
    ensures Exp(2, 0) == 1.0
  {}

  lemma {:induction false} LeadingDigitExists(v: real, low: int, high: int)
    requires low < high && Exp(10, low) <= v < Exp(10, high)
    ensures exists d :: LeadingDigitAt(v, d)
    decreases high - low
  {
    hide Exp;
    if v < Exp(10, low + 1) {
      assert LeadingDigitAt(v, low);
    } else {
      LeadingDigitExists(v, low + 1, high);
    }
  }

  lemma TextExists(bits: nat)
    requires Readable(bits)
    ensures exists text :: DecimalPrinter.IsNumeral(text, bits)
  {
    hide Exp, IsRounded, HalfEven, Render, Pow, LeadingDigitAt;
    if SignificandOf(bits) == 0 {
      assert DecimalPrinter.IsNumeral(if Negative(bits) then "-0" else "0", bits);
    } else {
      var v, negative := MagnitudeOf(bits), Negative(bits);
      MagnitudeRange(bits);
      LeadingDigitExists(v, -1074, 1024);
      var d :| LeadingDigitAt(v, d);
      LeadingFromScaled(v, d);
      TenPowers();
      var c := HalfEven(v * Exp(10, 16 - d));
      RoundedFromScaled(v, d, c);
      TenPower17();
      assert d - 17 + 1 == d - 16;
      IntroduceRendering(c, 17, d, negative, v);
      assert DecimalPrinter.IsNumeral(Render(c, 17, d, negative), bits);
    }
  }

  lemma MagnitudeRange(bits: nat)
    requires Readable(bits) && SignificandOf(bits) > 0
    ensures Exp(10, -1074) <= MagnitudeOf(bits) < Exp(10, 1024)
  {
    hide Exp;
    var s, e := SignificandOf(bits), ExponentOf(bits);
    BitsRange(bits);
    ExpPositive(2, e);
    ExpGrows(2, -1074, e);
    ExpGrows(2, e, 971);
    TenAboveTwo(1074);
    TenAboveTwo(1024);
    ExpAdd(2, 53, 971);
    TwoTo53();
    RMulMonoLeft(1.0, s as real, Exp(2, e));
    RMulMonoLeft(Exp(2, e), Exp(2, 971), s as real);
    var r, u, w := s as real, Exp(2, e), Exp(2, 971);
    assert MagnitudeOf(bits) == r * u == u * r <= w * r == r * w;
    BoundedProduct(r, TWO53 as real, w, MagnitudeOf(bits), Exp(2, 53), Exp(2, 1024));
  }

  lemma BoundedProduct(r: real, t: real, w: real, m: real, p: real, q: real)
    requires r < t && 0.0 < w && m <= r * w && p == t && q == p * w
    ensures m < q
  {
    RMulMono(r, t, w);
  }

  lemma TwoTo53()
    ensures Exp(2, 53) == TWO53 as real
  {
    assert Pow(2, 8) == 256;
    PowAdd(2, 8, 8);
    PowAdd(2, 16, 16);
    PowAdd(2, 32, 16);
    PowAdd(2, 48, 5);
    assert Pow(2, 5) == 32;
    ExpIsPow(2, 53);
  }
}
