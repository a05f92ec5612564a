/** Integers on the wire: printed by the daemon, read back through the double conversion. */
module WireNumbers {
  import opened Options
  import opened Powers
  import opened Reals
  import Digits
  import opened Text
  import opened DecimalRounding
  import opened DecimalText
  import opened DecimalScales
  import opened DecimalCached
  import opened DecimalPrinter
  import opened DecimalRoundTrip
  import opened JsonGrammar
  import opened JsonLexical
  import opened JsonNumber
  import opened WireOutput

  const INT_MIN: int := -0x8000_0000
  const INT_MAX: int := 0x7FFF_FFFF

  predicate IsInt(n: int) { INT_MIN <= n <= INT_MAX }

  /** The value cast to int, fraction dropped; none outside the range of int. */
  function CodeOf(bits: nat): (r: Option<int>)
    ensures r.Some? ==> IsInt(r.value)
  {
    if IsFinite(bits) then Cast(SignificandOf(bits), ExponentOf(bits), Negative(bits)) else None
  }

  function Cast(s: nat, e: int, negative: bool): (r: Option<int>)
    ensures r.Some? ==> IsInt(r.value)
  {
    var limit: nat := if negative then -INT_MIN else INT_MAX;
    if e >= 0 then Signed(s * Pow(2, e), limit, negative)
    else
      OneOrMore(2, -e);
      var p := Pow(2, -e);
      if s > limit * p then None
      else
        QuotientFits(s, p, limit);
        Signed(s / p, limit, negative)
  }

  function Signed(m: int, limit: nat, negative: bool): Option<int> {
    if m > limit then None else Some(if negative then -m else m)
  }

  lemma QuotientFits(s: nat, p: nat, limit: nat)
    requires 0 < p && s <= limit * p
    ensures 0 <= s / p <= limit
  {}

  function Size(n: int): nat { if n < 0 then -n else n }

  /** An integral value in range is its own cast. */
  lemma ExactCode(n: int, bits: nat)
    requires IsInt(n) && IsFinite(bits) && Negative(bits) == (n < 0) && MagnitudeOf(bits) == Size(n) as real
    ensures CodeOf(bits) == Some(n)
  {
    hide Pow, Exp, SignificandOf, ExponentOf, Negative;
    var s, e := SignificandOf(bits), ExponentOf(bits);
    if e >= 0 {
      ExpIsPow(2, e);
      RealOfProduct(s, Pow(2, e));
      assert s * Pow(2, e) == Size(n);
    } else {
      OneOrMore(2, -e);
      ExpIsPow(2, -e);
      ExpAdd(2, e, -e);
      TwoToZero();
      var p := Pow(2, -e);
      Undivide(s as real, Exp(2, e), p as real, Size(n) as real);
      RealOfProduct(Size(n), p);
      assert s == Size(n) * p;
      MulDiv(Size(n), p);
      MulMono(Size(n), if n < 0 then -INT_MIN else INT_MAX, p);
    }
  }

  /** The code is the whole part of the value, towards zero; only values in the range of int have one. */
  lemma CodeExactly(bits: nat, n: int)
    ensures CodeOf(bits) == Some(n) <==>
            && IsFinite(bits)
            && var v := MagnitudeOf(bits);
            if Negative(bits) then v <= 2147483648.0 && n <= 0 && (-n) as real <= v < (1 - n) as real
            else v <= 2147483647.0 && n >= 0 && n as real <= v < (n + 1) as real
  {
    hide Pow, SignificandOf, ExponentOf, Negative, IsFinite;
    var s, e, limit := SignificandOf(bits), ExponentOf(bits), if Negative(bits) then -INT_MIN else INT_MAX;
    if e >= 0 {
      ExpIsPow(2, e);
      RealOfProduct(s, Pow(2, e));
      assert MagnitudeOf(bits) == (s * Pow(2, e)) as real;
    } else {
      FractionCode(s, e, limit);
    }
  }

  lemma FractionCode(s: nat, e: int, limit: nat)
    requires e < 0
    ensures var p, v := Pow(2, -e), BinaryValue(s, e);
            && p > 0 && (s > limit * p <==> v > limit as real)
            && (s / p) as real <= v < (s / p + 1) as real && 0 <= s / p
  {
    hide Pow;
    var p := Pow(2, -e);
    OneOrMore(2, -e);
    PowPositive(2, -e);
    QuotientAsProduct(s as real, p as real);
    FloorOfQuotient(s, p);
    RealOfProduct(limit, p);
    var q := s as real / p as real;
    assert q * p as real == s as real;
    RMulCompare(q, limit as real, p as real);
  }

  lemma Undivide(s: real, x: real, p: real, n: real)
    requires s * x == n && x * p == 1.0
    ensures s == n * p
  {
    assert s * (x * p) == (s * x) * p;
  }

  lemma MulDiv(n: nat, p: nat)
    requires p > 0
    ensures n * p / p == n
  {
    assert n * p == p * n;
    Digits.QuotientOf(n * p, p, n, 0);
  }

  lemma IntTextReads(n: int)
    ensures ReadNumber(IntText(n)) == Some(Number.Number(n < 0, Size(n), 0))
    ensures IntText(n) != "" && StartsNumber(IntText(n)[0])
  {
    hide Decimal, ReadUnsigned;
    var d := Decimal(Size(n));
    NatOfDecimal(Size(n));
    ReadWhole(n < 0, d, "");
    assert d + "" == d;
    ReadSigned(n < 0, d);
    assert IntText(n) == SignText(n < 0) + d;
  }

  /** Every int is a binary64 value. */
  lemma IntBits(n: int) returns (bits: nat)
    requires IsInt(n)
    ensures Readable(bits) && Negative(bits) == (n < 0) && MagnitudeOf(bits) == Size(n) as real
  {
    hide Exp, Pow, Normalized;
    TwoToZero();
    if n == 0 {
      bits := 0;
      assert SignificandOf(0) == 0;
    } else {
      var (s, e) := Normalized(Size(n), 0);
      NormalizedFacts(Size(n), 0);
      Pow52();
      MulMono(1, Size(n), TWO52);
      NormalizedExponent(Size(n), 0, 52);
      assert BinaryValue(Size(n), 0) == Size(n) as real;
      bits := Packed(s, 1075 + e, n < 0);
      PackedParts(s, 1075 + e, n < 0);
    }
  }

  function Packed(s: nat, exponent: nat, negative: bool): nat
    requires TWO52 <= s
  {
    s - TWO52 + TWO52 * (exponent + 0x800 * (if negative then 1 else 0))
  }

  lemma PackedParts(s: nat, exponent: nat, negative: bool)
    requires TWO52 <= s < TWO53 && 0 < exponent < 0x7FF
    ensures var bits := Packed(s, exponent, negative);
            bits < W64 && IsFinite(bits) && Negative(bits) == negative && EncodedExponent(bits) == exponent
            && SignificandOf(bits) == s && ExponentOf(bits) == exponent as int - 1075
  {}

  /** The reader gives back every int the daemon prints. */
  lemma IntReads(read: Reader, n: int)
    requires IsReader(read) && IsInt(n)
    ensures read(IntText(n)).Some? && CodeOf(read(IntText(n)).value) == Some(n)
  {
    hide Exp, Pow, ReadNumber, CodeOf, IntText, IsReader, EncodedExponent, SignificandOf, ExponentOf, Negative,
        BinaryValue;
    var text, m := IntText(n), Size(n) as real;
    IntTextReads(n);
    TenToZero();
    var bits := IntBits(n);
    assert Magnitude(ReadNumber(text).value) == m;
    assert MayReadAs(text, bits);
    IntInRange(Size(n));
    ReaderReads(read, text, bits);
    var found := read(text).value;
    assert RAbs(MagnitudeOf(found) - m) <= RAbs(MagnitudeOf(bits) - m);
    ExactCode(n, found);
  }

  lemma TenToZero()
    ensures forall c: nat :: DecimalValue(c, 0) == c as real
  {}

  lemma IntInRange(m: nat)
    requires m <= 0x8000_0000
    ensures m as real < Overflow() && (m > 0 ==> Underflow() < m as real)
  {
    hide Exp;
    TwoToZero();
    ExpGrows(2, 0, 970);
    RMulMonoLeft(1.0, Exp(2, 970), (2 * TWO53 - 1) as real);
    var u := Exp(2, 970);
    assert (2 * TWO53 - 1) as real * u == u * (2 * TWO53 - 1) as real;
    ExpAdd(2, -53, 53);
    TwoTo53();
    ExpPositive(2, -53);
    ExpGrows(2, -1075, -53);
    BelowOne(Exp(2, -53), Exp(2, -1075), TWO53 as real);
  }

  lemma BelowOne(x: real, low: real, p: real)
    requires x * p == 1.0 && 0.0 < x && low <= x && 1.0 < p
    ensures (p - 1.0) * low < 1.0
  {
    RMulMonoLeft(low, x, p - 1.0);
    assert x * (p - 1.0) == 1.0 - x;
    assert low * (p - 1.0) == (p - 1.0) * low;
  }

  /** A printed int, up to a delimiter. */
  lemma IntParses(read: Reader, n: int, rest: string)
    requires IsReader(read) && IsInt(n) && Delimited(rest)
    ensures var t := IntText(n) + rest;
            IntText(n) != "" && StartsNumber(IntText(n)[0]) && t[NumberRun(t)..] == rest
            && NumberAt(read, t).Some? && CodeOf(NumberAt(read, t).value) == Some(n)
  {
    hide IntText, NumberRun, ReadNumber, CodeOf, IsReader;
    IntTextReads(n);
    IntReads(read, n);
    NumberExtends(IntText(n), rest);
    assert (IntText(n) + rest)[..|IntText(n)|] == IntText(n) && (IntText(n) + rest)[|IntText(n)|..] == rest;
  }
}
