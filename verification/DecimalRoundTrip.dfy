/** Seventeen digits are enough: reading a printed value back gives the same bits. */
module DecimalRoundTrip {
  import opened Powers
  import opened Reals
  import opened DecimalRounding
  import opened DecimalText
  import opened DecimalScales
  import opened DecimalCached
  import opened DecimalPrinter

  function RAbs(x: real): real { if x < 0.0 then -x else x }

  /** No finite binary64 magnitude is closer to r. */
  ghost predicate IsNearest(r: real, bits: nat) {
    && IsFinite(bits)
    && forall w: nat :: w < W64 && IsFinite(w) ==> RAbs(MagnitudeOf(bits) - r) <= RAbs(MagnitudeOf(w) - r)
  }

  /** A correctly rounding reader (from_chars, strtod) may return bits for text. */
  ghost predicate MayReadAs(text: string, bits: nat) {
    var n := ReadNumber(text);
    && bits < W64 && n.Some?
    && Negative(bits) == n.value.negative
    && IsNearest(Magnitude(n.value), bits)
  }

  /** Significand and exponent of some finite value. */
  ghost predicate Canonical(s: nat, e: int) {
    s < TWO53 && -1074 <= e && (s >= TWO52 || e == -1074)
  }

  /** Half the gap around a value: less below a power of two. */
  ghost function HalfGap(s: nat, e: int): real {
    (if s == TWO52 then 0.5 else 1.0) * Exp(2, e - 1)
  }

  /** Any other value is at least a whole gap away. */
  lemma GapAround(s: nat, e: int, s': nat, e': int)
    requires Canonical(s, e) && Canonical(s', e') && (s, e) != (s', e')
    ensures RAbs(BinaryValue(s, e) - BinaryValue(s', e')) >= 2.0 * HalfGap(s, e)
  {
    hide Exp, HalfGap, BinaryValue;
    ExpPositive(2, e - 1);
    HalfGapIs(s, e);
    if e' == e {
      GapSame(s, s', e);
    } else if e' > e {
      GapAbove(s, e, s', e');
    } else {
      GapBelow(s, e, s', e');
    }
  }

  lemma TwoHalves(e: int)
    ensures 0.0 < Exp(2, e - 1) && Exp(2, e) == 2.0 * Exp(2, e - 1)
  {
    hide Exp;
    ExpPositive(2, e - 1);
    ExpAdd(2, 1, e - 1);
    ExpTwo();
  }

  /** One more unit in the significand. */
  lemma OneMore(s: nat, t: nat, e: int)
    requires s < t
    ensures BinaryValue(t, e) - BinaryValue(s, e) >= Exp(2, e)
  {
    hide Exp;
    ExpPositive(2, e);
    ScaledDifference(1.0 + s as real, t as real, 0.0, Exp(2, e));
    assert (1.0 + s as real) * Exp(2, e) == Exp(2, e) + s as real * Exp(2, e);
  }

  lemma NoLess(s: nat, t: nat, e: int)
    requires s <= t
    ensures BinaryValue(s, e) <= BinaryValue(t, e)
  {
    hide Exp, BinaryValue;
    ExpPositive(2, e);
    if s < t {
      OneMore(s, t, e);
    }
  }

  lemma GapSame(s: nat, s': nat, e: int)
    requires s != s'
    ensures RAbs(BinaryValue(s, e) - BinaryValue(s', e)) >= 2.0 * Exp(2, e - 1)
  {
    hide Exp, BinaryValue;
    TwoHalves(e);
    if s < s' {
      OneMore(s, s', e);
    } else {
      OneMore(s', s, e);
    }
  }

  /** A significand of 53 bits one binade up is more than every 53-bit significand here. */
  lemma GapAbove(s: nat, e: int, s': nat, e': int)
    requires s < TWO53 && s' >= TWO52 && e' > e
    ensures BinaryValue(s', e') - BinaryValue(s, e) >= 2.0 * Exp(2, e - 1)
  {
    hide Exp, BinaryValue;
    TwoHalves(e);
    OneMore(s, TWO53, e);
    DoubledValue(TWO52, e + 1);
    HigherExponent(TWO52, e + 1, e');
    NoLess(TWO52, s', e');
  }

  lemma HigherExponent(s: nat, e: int, e': int)
    requires e <= e'
    ensures BinaryValue(s, e) <= BinaryValue(s, e')
  {
    hide Exp;
    ExpGrows(2, e, e');
    if s > 0 {
      ScaledDifference(Exp(2, e), Exp(2, e'), 0.0, s as real);
    }
  }

  /** Everything below the binade is at least half a unit below its first value. */
  lemma GapBelow(s: nat, e: int, s': nat, e': int)
    requires TWO52 <= s && s' < TWO53 && e' < e
    ensures BinaryValue(s, e) - BinaryValue(s', e') >= Exp(2, e - 1)
    ensures s > TWO52 ==> BinaryValue(s, e) - BinaryValue(s', e') >= 2.0 * Exp(2, e - 1)
  {
    hide Exp, BinaryValue;
    TwoHalves(e);
    DoubledValue(TWO52, e);
    NoLess(TWO52, s, e);
    if s > TWO52 {
      OneMore(TWO52, s, e);
    }
    HigherExponent(s', e', e - 1);
    OneMore(s', TWO53, e - 1);
  }

  lemma HalfGapIs(s: nat, e: int)
    ensures s == TWO52 ==> 2.0 * HalfGap(s, e) == Exp(2, e - 1)
    ensures 2.0 * HalfGap(s, e) <= 2.0 * Exp(2, e - 1)
  {
    hide Exp;
    ExpPositive(2, e - 1);
  }

  lemma RMulMonoLeft(a: real, b: real, c: real)
    requires a <= b && c >= 0.0
    ensures a * c <= b * c
  {
    if c > 0.0 {
      RMulMono(a, b, c);
    }
  }

  /** The rounding error is at most v / (2 * 10^16). */
  lemma RoundingError(v: real, r: real)
    requires IsRounded(v, r) && v > 0.0
    ensures RAbs(r - v) * (2 * TEN16) as real <= v
  {
    hide Exp, HalfEven;
    var d :| LeadingDigitAt(v, d) && r == RoundedAt(v, d);
    var t := Exp(10, d - 16);
    var y := v * Exp(10, 16 - d);
    ExpPositive(10, d - 16);
    ExpAdd(10, 16 - d, d - 16);
    ExpZero();
    RMulShuffle(v, Exp(10, 16 - d), t);
    assert y * t == v;
    HalfEvenError(y);
    ErrorScaled(HalfEven(y) as real, y, t, r, v);
    ExpAdd(10, 16, d - 16);
    TenPowers();
  }

  lemma ExpZero()
    ensures Exp(10, 0) == 1.0
  {
    assert Pow(10, 0) == 1;
  }

  lemma ErrorScaled(c: real, y: real, t: real, r: real, v: real)
    requires t > 0.0 && c - y <= 0.5 && y - c <= 0.5 && r == c * t && v == y * t
    ensures RAbs(r - v) <= 0.5 * t
  {
    OneSide(c, y, t, r, v);
    OneSide(y, c, t, v, r);
  }

  lemma OneSide(a: real, b: real, t: real, at: real, bt: real)
    requires t > 0.0 && a - b <= 0.5 && at == a * t && bt == b * t
    ensures at - bt <= 0.5 * t
  {
    ScaledDifference(a, b, 0.5, t);
  }

  lemma ScaledDifference(a: real, b: real, h: real, t: real)
    requires a - b <= h && t > 0.0
    ensures a * t - b * t <= h * t
  {
    RMulMonoLeft(a, b + h, t);
    assert (b + h) * t == b * t + h * t;
  }

  /** 2^54 < 2 * 10^16: the rounding error stays inside half a gap. */
  lemma ErrorBelowHalfGap(s: nat, e: int, r: real)
    requires 0 < s < TWO53 && IsRounded(BinaryValue(s, e), r)
    ensures RAbs(r - BinaryValue(s, e)) < HalfGap(s, e)
  {
    hide Exp, IsRounded;
    var u := Exp(2, e - 1);
    ExpPositive(2, e - 1);
    DoubledValue(s, e);
    RMulPositive((2 * s) as real, u);
    RoundingError(BinaryValue(s, e), r);
    var bound := if s == TWO52 then TWO53 as real else (2 * TWO53) as real;
    RMulMonoLeft((2 * s) as real, bound, u);
    assert RAbs(r - BinaryValue(s, e)) * (2 * TEN16) as real <= bound * u;
  }

  lemma SameParts(a: nat, b: nat)
    requires a < W64 && b < W64 && Negative(a) == Negative(b)
    requires IsFinite(a) && IsFinite(b)
    requires SignificandOf(a) == SignificandOf(b) && ExponentOf(a) == ExponentOf(b)
    ensures a == b
  {
    PartsDetermine(a);
    PartsDetermine(b);
  }

  lemma PartsDetermine(a: nat)
    requires a < W64
    ensures a == Fraction(a) + TWO52 * (EncodedExponent(a) + 0x800 * (if Negative(a) then 1 else 0))
  {}

  lemma CanonicalParts(bits: nat)
    requires bits < W64 && IsFinite(bits)
    ensures Canonical(SignificandOf(bits), ExponentOf(bits))
  {}

  /** Printing any finite value and reading it with any correctly rounding reader is the identity. */
  lemma RoundTrip(bits: nat, text: string, result: nat)
    requires bits < W64 && IsFinite(bits) && IsNumeral(text, bits) && MayReadAs(text, result)
    ensures result == bits
  {
    hide IsRendering, IsRounded, ReadsAs, BinaryValue, Canonical;
    CanonicalParts(result);
    if SignificandOf(bits) == 0 {
      ZeroReads(text, Negative(bits));
      ZeroNearest(bits, result);
    } else {
      NonzeroRoundTrip(bits, text, result);
    }
    SameParts(bits, result);
  }

  lemma NonzeroRoundTrip(bits: nat, text: string, result: nat)
    requires bits < W64 && IsFinite(bits) && SignificandOf(bits) > 0
    requires IsRendering(text, MagnitudeOf(bits), Negative(bits)) && MayReadAs(text, result)
    ensures Negative(result) == Negative(bits)
    ensures SignificandOf(result) == SignificandOf(bits) && ExponentOf(result) == ExponentOf(bits)
  {
    hide IsRendering, IsRounded, ReadsAs, BinaryValue, HalfGap, Canonical;
    var s, e := SignificandOf(bits), ExponentOf(bits);
    RenderingReads(text, MagnitudeOf(bits), Negative(bits));
    var r :| IsRounded(MagnitudeOf(bits), r) && ReadsAs(text, Negative(bits), r);
    ReadsAsValue(text, Negative(bits), r);
    CanonicalParts(bits);
    CanonicalParts(result);
    BitsRange(bits);
    ErrorBelowHalfGap(s, e, r);
    if (s, e) != (SignificandOf(result), ExponentOf(result)) {
      GapAround(s, e, SignificandOf(result), ExponentOf(result));
      assert false;
    }
  }

  lemma ZeroReads(text: string, negative: bool)
    requires text == if negative then "-0" else "0"
    ensures ReadsAs(text, negative, 0.0)
  {
    ReadWhole(negative, "0", "");
    ReadSigned(negative, "0");
    assert "0" + "" == "0" && "0"[..0] == [];
    assert text == SignText(negative) + "0";
  }

  /** Only a zero is as close to zero as a zero. */
  lemma ZeroNearest(bits: nat, result: nat)
    requires bits < W64 && IsFinite(bits) && SignificandOf(bits) == 0
    requires result < W64 && IsNearest(0.0, result)
    ensures SignificandOf(result) == 0 && ExponentOf(result) == ExponentOf(bits)
  {
    hide Exp;
    CanonicalParts(result);
    assert MagnitudeOf(bits) == 0.0;
    ExpPositive(2, ExponentOf(result));
    if SignificandOf(result) > 0 {
      OneMore(0, SignificandOf(result), ExponentOf(result));
      assert false;
    }
  }

  lemma ReadsAsValue(text: string, negative: bool, r: real)
    requires ReadsAs(text, negative, r)
    ensures ReadNumber(text).Some? && ReadNumber(text).value.negative == negative
    ensures Magnitude(ReadNumber(text).value) == r
  {}
}
