/** The cached table of scales, generated with fixed-width word arrays. */
module DecimalScales {
  import opened Powers
  import opened Reals
  import opened BinaryLog
  import opened Digits

  const W32: nat := 0x1_0000_0000
  const W64: nat := 0x1_0000_0000_0000_0000
  const WORDS: nat := 36
  const ENTRIES: nat := 2098

  datatype Wide = Wide(low: nat, high: nat)

  function WideValue(w: Wide): nat {
    w.low + W64 * w.high
  }

  ghost predicate IsWide(w: Wide) {
    w.low < W64 && w.high < W64
  }

  // ---- the exact scale -------------------------------------------------------------------

  /** The decimal exponent that brings 2^e into [10^16, 10^17). */
  function ScaleExponent(e: int): int {
    16 - FloorLog10Pow2(e)
  }

  /** 2^(e+60) * 10^q: the exact scale of which the table keeps the integer part. */
  function ExactScale(e: int): real {
    Exp(2, e + 60) * Exp(10, ScaleExponent(e))
  }

  lemma ExactScaleRange(e: int)
    requires -1074 <= e <= 1074
    ensures Exp(10, 16) * Exp(2, 60) <= ExactScale(e) < Exp(10, 17) * Exp(2, 60)
  {
    hide Exp, Pow, FloorLog10Pow2, TruncDiv, TruncRem;
    FloorLog10Pow2Exact(e);
    ScaledPowerRange(e, FloorLog10Pow2(e), ScaleExponent(e));
  }

  lemma ScaledPowerRange(e: int, d: int, q: int)
    requires Exp(10, d) <= Exp(2, e) < Exp(10, d + 1)
    requires d + q == 16
    ensures Exp(10, 16) * Exp(2, 60) <= Exp(2, e + 60) * Exp(10, q) < Exp(10, 17) * Exp(2, 60)
  {
    hide Exp, Pow;
    ExpAdd(2, e, 60);
    ExpAdd(10, d, q);
    ExpAdd(10, d + 1, q);
    ExpPositive(10, q);
    ExpPositive(2, 60);
    ScaleBracket(Exp(10, d), Exp(2, e), Exp(10, d + 1), Exp(10, q), Exp(2, 60),
                 Exp(10, 16), Exp(2, e + 60), Exp(10, 17));
  }

  lemma ScaleBracket(a: real, b: real, c: real, t: real, s: real, lo: real, mid: real, hi: real)
    requires a <= b < c && t > 0.0 && s > 0.0
    requires lo == a * t && mid == b * s && hi == c * t
    ensures lo * s <= mid * t < hi * s
  {
    var bt := b * t;
    RMulMono(a, b, t);
    RMulMono(b, c, t);
    RMulMono(lo, bt, s);
    RMulMono(bt, hi, s);
    SwapFactors(b, s, t, mid, bt);
  }

  lemma SwapFactors(b: real, s: real, t: real, bs: real, bt: real)
    requires bs == b * s && bt == b * t
    ensures bs * t == bt * s
  {}

  // ---- reading shifted words -------------------------------------------------------------

  /** The number with its binary point moved down by a signed number of bits. */
  function Shifted(n: nat, shift: int): nat {
    if shift >= 0 then
      PowPositive(2, shift);
      n / Pow(2, shift)
    else
      n * Pow(2, -shift)
  }

  /** 32 bits of a word array from a signed bit offset, zero-extended on either side. */
  function WordAt(ws: seq<nat>, bit: int): nat
    requires |ws| > 0
  {
    if bit < 0 then
      if bit > -32 then (ws[0] * Pow(2, -bit)) % W32 else 0
    else
      var index := bit / 32;
      if index >= |ws| then 0
      else
        PowPositive(2, bit % 32);
        (PairOf(ws, index) / Pow(2, bit % 32)) % W32
  }

  function Extract(ws: seq<nat>, shift: int): Wide
    requires |ws| > 0
  {
    Wide(WordAt(ws, shift) + W32 * WordAt(ws, shift + 32),
         WordAt(ws, shift + 64) + W32 * WordAt(ws, shift + 96))
  }

  lemma PowersOfTwo()
    ensures Pow(2, 32) == W32 && Pow(2, 64) == W64 && Pow(2, 60) == 0x1000_0000_0000_0000
  {
    assert Pow(2, 4) == 16;
    hide Pow;
    PowAdd(2, 4, 4);
    PowAdd(2, 8, 8);
    PowAdd(2, 16, 16);
    PowAdd(2, 16, 8);
    PowAdd(2, 24, 4);
    PowAdd(2, 32, 32);
    PowAdd(2, 32, 28);
  }

  lemma ModOfMultiple(n: nat, k: nat, m: nat)
    requires m > 0
    ensures 0 <= m * k && (m * k) % m == 0 && (m * k) / m == k
  {
    DivideOffMultiple(0, k, m);
  }

  /** A negative offset reads the low word moved up. */
  lemma WordBelow(ws: seq<nat>, bit: int)
    requires |ws| > 0 && bit < 0
    ensures WordAt(ws, bit) == Shifted(Value(W32, ws), bit) % W32
  {
    PowersOfTwo();
    var n, p := Value(W32, ws), Pow(2, -bit);
    if bit > -32 {
      var rest := Value(W32, ws[1..]);
      assert n == ws[0] + W32 * rest;
      assert Shifted(n, bit) == n * p;
      assert WordAt(ws, bit) == (ws[0] * p) % W32;
      hide Pow, Value, WordAt, Shifted;
      Regroup(ws[0], W32, rest, p);
      MulNonneg(rest, p);
      MulNonneg(ws[0], p);
      DivideOffMultiple(ws[0] * p, rest * p, W32);
    } else {
      assert Shifted(n, bit) == n * p;
      assert WordAt(ws, bit) == 0;
      hide Pow, Value, WordAt, Shifted;
      PowAdd(2, 32, -bit - 32);
      var high := Pow(2, -bit - 32);
      MulAssoc(n, W32, high);
      MulAssoc(W32, n, high);
      assert n * W32 == W32 * n;
      MulNonneg(n, high);
      ModOfMultiple(0, n * high, W32);
    }
  }

  lemma Regroup(a: nat, w: nat, r: nat, p: nat)
    ensures (a + w * r) * p == a * p + w * (r * p)
  {
    MulAssoc(w, r, p);
  }

  /** A non-negative offset reads from a pair of neighbouring words. */
  lemma WordInside(ws: seq<nat>, bit: nat)
    requires |ws| > 0 && Bounded(W32, ws)
    ensures WordAt(ws, bit) == Shifted(Value(W32, ws), bit) % W32
  {
    hide Pow, Shifted, Value, PairOf, Bounded;
    var i, r := bit / 32, bit % 32;
    var n := Value(W32, ws);
    ShiftSplit(n, i, r);
    if i >= |ws| {
      WordBeyond(ws, i, r);
    } else {
      WordPair(ws, i, r);
    }
  }

  lemma WordBeyond(ws: seq<nat>, i: nat, r: nat)
    requires i >= |ws| && Bounded(W32, ws)
    ensures Pow(W32, i) > 0 && Pow(2, r) > 0
    ensures Value(W32, ws) / Pow(W32, i) / Pow(2, r) % W32 == 0
  {
    hide Pow, Value;
    PowPositive(W32, i);
    PowPositive(2, r);
    ValueBelowPower(W32, ws);
    PowGrows(W32, |ws|, i);
    SmallQuotient(Value(W32, ws), Pow(W32, i));
    SmallQuotient(0, Pow(2, r));
  }

  function PairOf(ws: seq<nat>, i: nat): nat
    requires i < |ws|
  {
    ws[i] + (if i + 1 < |ws| then W32 * ws[i + 1] else 0)
  }

  lemma WordPair(ws: seq<nat>, i: nat, r: nat)
    requires i < |ws| && r < 32 && Bounded(W32, ws)
    ensures Pow(W32, i) > 0 && Pow(2, r) > 0
    ensures PairOf(ws, i) / Pow(2, r) % W32 == Value(W32, ws) / Pow(W32, i) / Pow(2, r) % W32
  {
    hide Pow, Value, PairOf;
    var rest := if i + 1 < |ws| then Value(W32, ws[i + 2..]) else 0;
    PairAt(ws, i);
    PowersOfTwo();
    PowPositive(2, r);
    SliceQuotient(W32, ws, i);
    PowAdd(2, 32 - r, r);
    LowBitsOfQuotient(PairOf(ws, i), rest, Pow(2, r), Pow(2, 32 - r));
  }

  lemma ShiftSplit(n: nat, i: nat, r: nat)
    ensures Pow(2, r) > 0 && Pow(W32, i) > 0
    ensures Shifted(n, 32 * i + r) == n / Pow(W32, i) / Pow(2, r)
  {
    PowersOfTwo();
    hide Pow;
    PowOfPow(2, 32, i);
    PowAdd(2, 32 * i, r);
    PowPositive(2, r);
    PowPositive(W32, i);
    DivideTwice(n, Pow(W32, i), Pow(2, r));
  }

  lemma PairAt(ws: seq<nat>, i: nat)
    requires i < |ws|
    ensures Value(W32, ws[i..]) == PairOf(ws, i) + W64 * (if i + 1 < |ws| then Value(W32, ws[i + 2..]) else 0)
  {
    assert ws[i..][0] == ws[i] && ws[i..][1..] == ws[i + 1..];
    if i + 1 < |ws| {
      assert ws[i + 1..][0] == ws[i + 1] && ws[i + 1..][1..] == ws[i + 2..];
    }
  }

  lemma LowBitsOfQuotient(pair: nat, rest: nat, p: nat, up: nat)
    requires p > 0 && up * p == W32
    ensures (pair + W64 * rest) / p % W32 == pair / p % W32
  {
    var k := up * rest;
    MulNonneg(up, rest);
    assert W64 * rest == p * (W32 * k) by {
      MulAssoc(W32, up, rest);
      MulAssoc(p, W32 * up, rest);
      MulAssoc(p, W32, up);
      MulAssoc(W32, p, up);
      assert W64 == W32 * (p * up);
    }
    DivideOffMultiple(pair, W32 * k, p);
    DivideOffMultiple(pair / p, k, W32);
  }

  lemma WordAtMeaning(ws: seq<nat>, bit: int)
    requires |ws| > 0 && Bounded(W32, ws)
    ensures WordAt(ws, bit) == Shifted(Value(W32, ws), bit) % W32
  {
    if bit < 0 {
      WordBelow(ws, bit);
    } else {
      WordInside(ws, bit);
    }
  }

  /** Moving the point by 32 more bits drops one word. */
  lemma ShiftByWord(n: nat, shift: int)
    ensures Shifted(n, shift + 32) == Shifted(n, shift) / W32
  {
    PowersOfTwo();
    PowPositive(2, if shift < 0 then -shift else shift);
    if shift >= 0 {
      hide Pow;
      PowAdd(2, shift, 32);
      PowPositive(2, shift + 32);
      DivideTwice(n, Pow(2, shift), W32);
    } else if shift <= -32 {
      var high := Pow(2, -shift - 32);
      assert Shifted(n, shift + 32) == n * high by {
        if shift == -32 {
          assert Pow(2, 0) == 1;
        }
      }
      hide Pow;
      PowAdd(2, 32, -shift - 32);
      MulAssoc(W32, n, high);
      MulAssoc(n, W32, high);
      MulNonneg(n, high);
      ModOfMultiple(0, n * high, W32);
    } else {
      hide Pow;
      var up, down := Pow(2, -shift), Pow(2, shift + 32);
      PowPositive(2, shift + 32);
      PowAdd(2, -shift, shift + 32);
      MulNonneg(n, up);
      ModOfMultiple(0, n, up);
      DivideTwice(n * up, up, down);
    }
  }

  lemma WideFromWords(q: nat)
    ensures q % W32 + W32 * (q / W32 % W32)
            + W64 * (q / W32 / W32 % W32 + W32 * (q / W32 / W32 / W32 % W32)) == q % (W64 * W64)
  {}

  /** Four neighbouring words are 128 bits of the shifted number. */
  lemma ExtractMeaning(ws: seq<nat>, shift: int)
    requires |ws| > 0 && Bounded(W32, ws)
    ensures IsWide(Extract(ws, shift))
    ensures WideValue(Extract(ws, shift)) == Shifted(Value(W32, ws), shift) % (W64 * W64)
  {
    var n := Value(W32, ws);
    assert Extract(ws, shift) == Wide(WordAt(ws, shift) + W32 * WordAt(ws, shift + 32),
                                      WordAt(ws, shift + 64) + W32 * WordAt(ws, shift + 96));
    hide WordAt, Shifted, Value, Extract;
    WordAtMeaning(ws, shift);
    WordAtMeaning(ws, shift + 32);
    WordAtMeaning(ws, shift + 64);
    WordAtMeaning(ws, shift + 96);
    ShiftByWord(n, shift);
    ShiftByWord(n, shift + 32);
    ShiftByWord(n, shift + 64);
    WideFromWords(Shifted(n, shift));
  }

  // ---- the integers behind the table -----------------------------------------------------

  /** For q >= 0 the shifted power of ten is the scale, rounded down. */
  lemma EntryFromPower(e: int)
    requires ScaleExponent(e) >= 0
    ensures Shifted(Pow(10, ScaleExponent(e)), -e - 60) == ExactScale(e).Floor
  {
    hide Pow, FloorLog10Pow2, TruncDiv, TruncRem, ScaleExponent;
    var n, k := Pow(10, ScaleExponent(e)), e + 60;
    if k >= 0 {
      assert k == 0 ==> Pow(2, 0) == 1 by { PowerZero(2); }
      RealOfProduct(Pow(2, k), n);
    } else {
      PowPositive(2, -k);
      FloorOfQuotient(n, Pow(2, -k));
      TimesInverse(n as real, Pow(2, -k) as real);
    }
  }

  lemma PowerZero(b: nat)
    ensures Pow(b, 0) == 1
  {}

  lemma TimesInverse(x: real, y: real)
    requires y > 0.0
    ensures (1.0 / y) * x == x / y
  {}

  /** For q < 0 the shifted quotient of 2^1083 is the scale, rounded down. */
  lemma EntryFromQuotient(e: int)
    requires ScaleExponent(e) < 0 <= e + 60 && e <= 1023
    ensures Pow(10, -ScaleExponent(e)) > 0
    ensures Shifted(Pow(2, 1083) / Pow(10, -ScaleExponent(e)), 1023 - e) == ExactScale(e).Floor
  {
    hide Pow, FloorLog10Pow2, TruncDiv, TruncRem, ScaleExponent;
    PowPositive(10, -ScaleExponent(e));
    PowPositive(2, 1023 - e);
    var p, k := Pow(10, -ScaleExponent(e)), Pow(2, 1023 - e);
    DivideTwice(Pow(2, 1083), p, k);
    DivideTwice(Pow(2, 1083), k, p);
    PowAdd(2, 1023 - e, e + 60);
    ModOfMultiple(0, Pow(2, e + 60), k);
    FloorOfQuotient(Pow(2, e + 60), p);
    QuotientAsProduct(Pow(2, e + 60) as real, p as real);
  }

  lemma QuotientAsProduct(x: real, y: real)
    requires y > 0.0
    ensures x * (1.0 / y) == x / y
  {}

  /** Every scale fits in 128 bits. */
  lemma ScaleFits(e: int)
    requires -1074 <= e <= 1074
    ensures 0 <= ExactScale(e).Floor < W64 * W64
  {
    hide Pow, FloorLog10Pow2, TruncDiv, TruncRem, ExactScale;
    ExactScaleRange(e);
    PowersOfTwo();
    TenTo17();
    ExpPositive(10, 16);
    ExpPositive(2, 60);
    RMulPositive(Exp(10, 16), Exp(2, 60));
  }

  lemma TenTo17()
    ensures Pow(10, 16) == 10000000000000000 && Pow(10, 17) == 100000000000000000
  {
    assert Pow(10, 4) == 10000;
    hide Pow;
    PowAdd(10, 4, 4);
    PowAdd(10, 8, 8);
    PowOne(10);
    PowAdd(10, 16, 1);
  }

  lemma PowersFitWords(q: nat)
    requires q <= 340
    ensures Pow(10, q) < Pow(W32, WORDS)
  {
    hide Pow;
    PowersOfTwo();
    ThousandBelowKilo();
    PowGrows(10, q, 342);
    PowOfPow(10, 3, 114);
    PowOfPow(2, 10, 114);
    PowBaseGrows(Pow(10, 3), Pow(2, 10), 114);
    PowOfPow(2, 32, 36);
    PowGrows(2, 1140, 1152);
  }

  lemma ThousandBelowKilo()
    ensures Pow(10, 3) < Pow(2, 10)
  {
    assert Pow(10, 3) == 1000;
    assert Pow(2, 5) == 32;
    PowAdd(2, 5, 5);
  }

  lemma ScaleExponentRange(e: int)
    requires -1074 <= e <= 1023
    ensures -291 <= ScaleExponent(e) <= 340
    ensures ScaleExponent(e) < 0 ==> e >= 0
  {
    CorrectedDivisionIsFloor(e);
  }

  // ---- the loops -------------------------------------------------------------------------

  /** value *= 10 on a word array; the final carry is dropped. */
  method MultiplyTen(value: array<nat>)
    requires Bounded(W32, value[..])
    modifies value
    ensures Bounded(W32, value[..])
    ensures Pow(W32, value.Length) > 0
    ensures Value(W32, value[..]) == 10 * Value(W32, old(value[..])) % Pow(W32, value.Length)
  {
    ghost var source := value[..];
    var carry: nat := 0;
    var i := 0;
    while i < value.Length
      invariant 0 <= i <= value.Length
      invariant Bounded(W32, value[..i])
      invariant value[i..] == source[i..]
      invariant Value(W32, value[..i]) + Pow(W32, i) * carry == 10 * Value(W32, source[..i])
    {
      ghost var done := value[..i];
      MultiplyStep(W32, source[..i], done, carry, source[i], 10);
      assert value[i] == value[i..][0] == source[i];
      var product := value[i] * 10 + carry;
      value[i] := product % W32;
      carry := product / W32;
      assert value[..i + 1] == done + [product % W32];
      assert source[..i + 1] == source[..i] + [source[i]];
      i := i + 1;
    }
    assert value[..] == value[..i] && source == source[..i];
    ValueBelowPower(W32, value[..]);
    PowPositive(W32, i);
    QuotientOf(10 * Value(W32, source), Pow(W32, i), carry, Value(W32, value[..]));
  }

  /** value /= 10 on a word array; the remainder is dropped. */
  method DivideTen(value: array<nat>)
    requires Bounded(W32, value[..])
    modifies value
    ensures Bounded(W32, value[..])
    ensures Value(W32, value[..]) == Value(W32, old(value[..])) / 10
  {
    ghost var source := value[..];
    var remainder: nat := 0;
    var i := value.Length;
    while i > 0
      invariant 0 <= i <= value.Length
      invariant remainder < 10
      invariant Bounded(W32, value[i..])
      invariant value[..i] == source[..i]
      invariant Value(W32, source[i..]) == 10 * Value(W32, value[i..]) + remainder
    {
      ghost var done := value[i..];
      assert value[i - 1] == value[..i][i - 1] == source[i - 1];
      var dividend := remainder * W32 + value[i - 1];
      value[i - 1] := dividend / 10;
      remainder := dividend % 10;
      assert value[i - 1..] == [dividend / 10] + done;
      assert source[i - 1..] == [source[i - 1]] + source[i..];
      assert value[i - 1..][1..] == done && source[i - 1..][1..] == source[i..];
      assert value[..i - 1] == source[..i - 1] by {
        assert source[..i - 1] == source[..i][..i - 1];
      }
      i := i - 1;
    }
    assert value[..] == value[0..] && source == source[0..];
  }

  /** What the table holds at one index. */
  ghost predicate IsScale(w: Wide, e: int) {
    IsWide(w) && WideValue(w) == ExactScale(e).Floor
  }

  lemma ExtractedPower(ws: seq<nat>, e: int)
    requires -1074 <= e <= 1023 && ScaleExponent(e) >= 0
    requires |ws| > 0 && Bounded(W32, ws) && Value(W32, ws) == Pow(10, ScaleExponent(e))
    ensures IsScale(Extract(ws, -e - 60), e)
  {
    hide Pow, Value, Extract, ExactScale, ScaleExponent, Shifted, WideValue, IsWide;
    ExtractMeaning(ws, -e - 60);
    EntryFromPower(e);
    ScaleFits(e);
  }

  lemma ExtractedQuotient(ws: seq<nat>, e: int)
    requires -1074 <= e <= 1023 && ScaleExponent(e) < 0
    requires Pow(10, -ScaleExponent(e)) > 0
    requires |ws| > 0 && Bounded(W32, ws) && Value(W32, ws) == Pow(2, 1083) / Pow(10, -ScaleExponent(e))
    ensures IsScale(Extract(ws, 1023 - e), e)
  {
    hide Pow, Value, Extract, ExactScale, ScaleExponent, Shifted, WideValue, IsWide;
    ScaleExponentRange(e);
    ExtractMeaning(ws, 1023 - e);
    EntryFromQuotient(e);
    ScaleFits(e);
  }

  lemma OneAsWords(ws: seq<nat>, index: nat, d: nat)
    requires index < |ws| && ws[index] == d
    requires forall i :: 0 <= i < |ws| && i != index ==> ws[i] == 0
    ensures Value(W32, ws) == Pow(W32, index) * d
  {
    var low, high := ws[..index], ws[index + 1..];
    assert ws == low + ([d] + high);
    ValueOfConcat(W32, low, [d] + high);
    ValueOfZeros(W32, low);
    ValueOfZeros(W32, high);
    assert ([d] + high)[1..] == high;
  }

  lemma PowerSplit()
    ensures Pow(2, 1083 % 32) < W32
    ensures Pow(W32, 1083 / 32) * Pow(2, 1083 % 32) == Pow(2, 1083)
  {
    hide Pow;
    PowersOfTwo();
    PowOfPow(2, 32, 33);
    PowAdd(2, 1056, 27);
    PowGrows(2, 27, 32);
  }

  lemma OnePowerMore(q: nat)
    requires q < 340
    ensures Pow(W32, WORDS) > 0
    ensures 10 * Pow(10, q) % Pow(W32, WORDS) == Pow(10, q + 1)
  {
    hide Pow;
    PowersFitWords(q + 1);
    PowStep(10, q);
    SmallQuotient(Pow(10, q + 1), Pow(W32, WORDS));
  }

  /** Bring the numerator from 10^power up to 10^decimal. */
  method RaiseTo(numerator: array<nat>, power: nat, decimal: nat)
    requires numerator.Length == WORDS && Bounded(W32, numerator[..])
    requires power <= decimal <= 340 && Value(W32, numerator[..]) == Pow(10, power)
    modifies numerator
    ensures Bounded(W32, numerator[..]) && Value(W32, numerator[..]) == Pow(10, decimal)
  {
    hide Pow, Value;
    var reached := power;
    while reached < decimal
      invariant power <= reached <= decimal
      invariant Bounded(W32, numerator[..]) && Value(W32, numerator[..]) == Pow(10, reached)
    {
      OnePowerMore(reached);
      MultiplyTen(numerator);
      reached := reached + 1;
    }
  }

  /** Bring the numerator from floor(2^1083 / 10^power) down to floor(2^1083 / 10^decimal). */
  method LowerTo(numerator: array<nat>, power: nat, decimal: nat)
    requires numerator.Length == WORDS && Bounded(W32, numerator[..])
    requires power <= decimal && Pow(10, power) > 0
    requires Value(W32, numerator[..]) == Pow(2, 1083) / Pow(10, power)
    modifies numerator
    ensures Pow(10, decimal) > 0
    ensures Bounded(W32, numerator[..]) && Value(W32, numerator[..]) == Pow(2, 1083) / Pow(10, decimal)
  {
    var reached := power;
    while reached < decimal
      invariant power <= reached <= decimal && Pow(10, reached) > 0
      invariant Bounded(W32, numerator[..]) && Value(W32, numerator[..]) == Pow(2, 1083) / Pow(10, reached)
    {
      DivideTen(numerator);
      OneMoreTen(Pow(2, 1083), reached);
      reached := reached + 1;
    }
  }

  lemma OneMoreTen(n: nat, k: nat)
    ensures Pow(10, k) > 0 && Pow(10, k + 1) > 0
    ensures n / Pow(10, k) / 10 == n / Pow(10, k + 1)
  {
    PowPositive(10, k);
    assert Pow(10, k + 1) == 10 * Pow(10, k);
    DivideTwice(n, Pow(10, k), 10);
  }

  /** Entries with a non-negative power of ten, by exact multiplication. */
  method FillFromPowers(scales: array<Wide>)
    requires scales.Length == ENTRIES
    modifies scales
    ensures forall i :: 0 <= i < ENTRIES && ScaleExponent(i - 1074) >= 0 ==> IsScale(scales[i], i - 1074)
  {
    hide Value, Extract, IsScale, ScaleExponent, Pow;
    var numerator := new nat[WORDS](_ => 0);
    numerator[0] := 1;
    var power: nat := 0;
    OneAsWords(numerator[..], 0, 1);
    PowerZero(10);
    PowerZero(W32);
    var exponent := 1023;
    while exponent >= -1074
      invariant -1075 <= exponent <= 1023
      invariant fresh(numerator) && numerator.Length == WORDS && Bounded(W32, numerator[..])
      invariant Value(W32, numerator[..]) == Pow(10, power)
      invariant power == 0 || power <= ScaleExponent(exponent + 1)
      invariant forall i :: exponent + 1074 < i < ENTRIES && ScaleExponent(i - 1074) >= 0 ==>
                IsScale(scales[i], i - 1074)
    {
      var decimal := ScaleExponent(exponent);
      ScaleExponentRange(exponent);
      ScaleMonotone(exponent);
      if decimal >= 0 {
        RaiseTo(numerator, power, decimal);
        power := decimal;
        ExtractedPower(numerator[..], exponent);
        scales[exponent + 1074] := Extract(numerator[..], -exponent - 60);
      }
      exponent := exponent - 1;
    }
  }

  /** Entries with a negative power of ten, by repeated division of 2^1083. */
  method FillFromQuotients(scales: array<Wide>)
    requires scales.Length == ENTRIES
    modifies scales
    ensures forall i :: 0 <= i < ENTRIES && ScaleExponent(i - 1074) < 0 ==> IsScale(scales[i], i - 1074)
    ensures forall i :: 0 <= i < ENTRIES && ScaleExponent(i - 1074) >= 0 ==> scales[i] == old(scales[i])
  {
    hide Value, Extract, IsScale, ScaleExponent, Pow;
    var numerator := new nat[WORDS](_ => 0);
    PowerSplit();
    numerator[1083 / 32] := Pow(2, 1083 % 32);
    OneAsWords(numerator[..], 1083 / 32, Pow(2, 1083 % 32));
    var power: nat := 0;
    PowerZero(10);
    var exponent := -1074;
    while exponent <= 1023
      invariant -1074 <= exponent <= 1024
      invariant fresh(numerator) && numerator.Length == WORDS && Bounded(W32, numerator[..])
      invariant Pow(10, power) > 0 && Value(W32, numerator[..]) == Pow(2, 1083) / Pow(10, power)
      invariant power == 0 || power <= -ScaleExponent(exponent - 1)
      invariant forall i :: 0 <= i < exponent + 1074 && ScaleExponent(i - 1074) < 0 ==> IsScale(scales[i], i - 1074)
      invariant forall i :: 0 <= i < ENTRIES && ScaleExponent(i - 1074) >= 0 ==> scales[i] == old(scales[i])
    {
      var decimal := -ScaleExponent(exponent);
      ScaleMonotone(exponent - 1);
      if decimal > 0 {
        LowerTo(numerator, power, decimal);
        power := decimal;
        ExtractedQuotient(numerator[..], exponent);
        scales[exponent + 1074] := Extract(numerator[..], 1023 - exponent);
      }
      exponent := exponent + 1;
    }
  }

  /** The whole table: one exact floor for every binary exponent of a binary64 value. */
  method MakeScales() returns (scales: array<Wide>)
    ensures fresh(scales) && scales.Length == ENTRIES
    ensures forall i :: 0 <= i < ENTRIES ==> IsScale(scales[i], i - 1074)
  {
    hide IsScale, ScaleExponent;
    scales := new Wide[ENTRIES](_ => Wide(0, 0));
    FillFromPowers(scales);
    FillFromQuotients(scales);
  }

  lemma ScaleMonotone(e: int)
    ensures ScaleExponent(e + 1) <= ScaleExponent(e)
  {
    FloorLog10Pow2Monotone(e, e + 1);
  }
}
