/** The fast path: one 128-bit cached scale and an error-interval test. */
module DecimalCached {
  import opened Powers
  import opened Reals
  import opened Digits
  import opened BinaryLog
  import opened DecimalScales
  import opened DecimalRounding

  // ---- 64 by 64 bit multiplication out of 32-bit limbs -----------------------------------

  function U64(n: nat): nat { n % W64 }

  /** Product of two words as two words, out of four products of 32-bit limbs. */
  function Multiply(lhs: nat, rhs: nat): (w: Wide)
    requires lhs < W64 && rhs < W64
    ensures IsWide(w) && WideValue(w) == lhs * rhs
  {
    var a, b := lhs / W32, lhs % W32;
    var c, d := rhs / W32, rhs % W32;
    LimbProducts(lhs, rhs);
    Combine(a * c, a * d, b * c, b * d)
  }

  /** Carry the four limb products into two words; every sum is a wrapping 64-bit one. */
  function Combine(ac: nat, ad: nat, bc: nat, bd: nat): (w: Wide)
    requires ac <= LIMB_PRODUCT && ad <= LIMB_PRODUCT && bc <= LIMB_PRODUCT && bd <= LIMB_PRODUCT
    requires W64 * ac + W32 * (ad + bc) + bd < W64 * W64
    ensures IsWide(w) && WideValue(w) == W64 * ac + W32 * (ad + bc) + bd
  {
    var low := U64(bd);
    var middle := U64(ad + low / W32);
    var combined := U64(bc + middle % W32);
    NoWrap(bd);
    NoWrap(ad + low / W32);
    NoWrap(bc + middle % W32);
    LowHalf(combined);
    CarryChain(ac, ad, bc, bd, low / W32, low % W32, middle / W32, middle % W32, combined / W32, combined % W32);
    NoWrap(ac + middle / W32 + combined / W32);
    Wide(U64(combined * W32) + low % W32, U64(ac + middle / W32 + combined / W32))
  }

  lemma NoWrap(n: nat)
    ensures n < W64 ==> U64(n) == n && n / W32 < W32
  {}

  lemma LowHalf(n: nat)
    ensures U64(n * W32) == W32 * (n % W32)
  {
    var q, r := n / W32, n % W32;
    assert n * W32 == r * W32 + W64 * q;
    DivideOffMultiple(r * W32, q, W64);
    SmallQuotient(r * W32, W64);
  }

  lemma CarryChain(ac: nat, ad: nat, bc: nat, bd: nat, l1: nat, l0: nat, m1: nat, m0: nat, c1: nat, c0: nat)
    requires bd == W32 * l1 + l0 && ad + l1 == W32 * m1 + m0 && bc + m0 == W32 * c1 + c0
    ensures W32 * c0 + l0 + W64 * (ac + m1 + c1) == W64 * ac + W32 * (ad + bc) + bd
  {}

  const LIMB_PRODUCT: nat := 0xFFFF_FFFE_0000_0001

  /** Four limb products, none of which leaves room for an overflow. */
  lemma LimbProducts(lhs: nat, rhs: nat)
    requires lhs < W64 && rhs < W64
    ensures var a, b, c, d := lhs / W32, lhs % W32, rhs / W32, rhs % W32;
            && 0 <= a * c <= LIMB_PRODUCT && 0 <= a * d <= LIMB_PRODUCT
            && 0 <= b * c <= LIMB_PRODUCT && 0 <= b * d <= LIMB_PRODUCT
            && lhs * rhs == W64 * (a * c) + W32 * (a * d + b * c) + b * d
            && lhs * rhs < W64 * W64
  {
    var a, b, c, d := lhs / W32, lhs % W32, rhs / W32, rhs % W32;
    BoundProduct(a, c, W32 - 1);
    BoundProduct(a, d, W32 - 1);
    BoundProduct(b, c, W32 - 1);
    BoundProduct(b, d, W32 - 1);
    BoundProduct(lhs, rhs, W64 - 1);
    ExpandProduct(a, b, c, d);
  }

  lemma BoundProduct(x: nat, y: nat, m: nat)
    requires x <= m && y <= m
    ensures 0 <= x * y <= m * m
  {
    MulMono(x, m, y);
    MulMono(y, m, m);
  }

  lemma ExpandProduct(a: nat, b: nat, c: nat, d: nat)
    ensures (W32 * a + b) * (W32 * c + d) == W64 * (a * c) + W32 * (a * d + b * c) + b * d
  {
    var x := W32 * c + d;
    assert (W32 * a + b) * x == W32 * (a * x) + b * x;
    assert a * x == W32 * (a * c) + a * d;
    assert b * x == W32 * (b * c) + b * d;
  }

  // ---- the error interval ----------------------------------------------------------------

  const TWO48: nat := 0x1_0000_0000_0000
  const TWO52: nat := 0x10_0000_0000_0000
  const TWO53: nat := 0x20_0000_0000_0000
  const B112: nat := 0x1_0000_0000_0000_0000_0000_0000_0000

  ghost predicate IsScaleTable(scales: array<Wide>)
    reads scales
  {
    scales.Length == ENTRIES && forall i :: 0 <= i < ENTRIES ==> IsScale(scales[i], i - 1074)
  }

  lemma Bits112()
    ensures Exp(2, 112) == B112 as real
  {
    PowersOfTwo();
    assert Pow(2, 4) == 16;
    PowAdd(2, 4, 4);
    PowAdd(2, 8, 8);
    PowAdd(2, 16, 32);
    PowAdd(2, 64, 48);
  }

  /** The exact scaled value lies in [P, P + significand) when P uses the rounded-down scale. */
  lemma ScaledInterval(significand: nat, binaryLog: int, scale: nat)
    requires significand > 0 && scale == ExactScale(binaryLog).Floor
    ensures var y := BinaryValue(significand, binaryLog - 52) * Exp(10, ScaleExponent(binaryLog));
            (scale * significand) as real <= y * B112 as real < (scale * significand + significand) as real
  {
    hide Exp, Pow, FloorLog10Pow2, TruncDiv, TruncRem, ScaleExponent;
    var exact, y := ExactScale(binaryLog), BinaryValue(significand, binaryLog - 52) * Exp(10, ScaleExponent(binaryLog));
    Bits112();
    ExpAdd(2, binaryLog - 52, 112);
    Reassociate(significand as real, Exp(2, binaryLog - 52), Exp(10, ScaleExponent(binaryLog)), B112 as real,
                Exp(2, binaryLog + 60), BinaryValue(significand, binaryLog - 52), y, exact);
    FloorTimes(exact, scale, significand);
  }

  lemma FloorTimes(exact: real, scale: nat, n: nat)
    requires n > 0 && scale == exact.Floor
    ensures (scale * n) as real <= exact * n as real < (scale * n + n) as real
  {
    RealOfProduct(scale, n);
    var low := (scale * n) as real;
    assert scale as real <= exact < scale as real + 1.0;
    OffsetCompare(exact, scale as real, 0.0, n as real, low);
    OffsetCompare(exact, scale as real, 1.0, n as real, low);
  }

  lemma Reassociate(s: real, t: real, e: real, b: real, tb: real, v: real, y: real, exact: real)
    requires tb == t * b && v == s * t && y == v * e && exact == tb * e
    ensures y * b == exact * s
  {}

  /** Whichever side of the half the whole interval is on decides the rounding. */
  lemma IntervalDecides(y: real, unit: nat, c: nat, r: nat, significand: nat, product: nat)
    requires product == c * unit + r && r < unit && significand > 0 && 4 * significand <= unit
    requires product as real <= y * unit as real < (product + significand) as real
    ensures 2 * (r + significand) <= unit ==> HalfEven(y) == c
    ensures 2 * r > unit ==> HalfEven(y) == c + 1
    ensures c as real <= y < c as real + 1.25
  {
    hide HalfEven;
    RealOfProduct(c, unit);
    IntervalSides(y, unit as real, c as real, (c * unit) as real, y * unit as real, r as real, significand as real);
    if 2 * (r + significand) <= unit {
      HalfEvenNear(y, c);
    } else if 2 * r > unit {
      HalfEvenNear(y, c + 1);
    }
  }

  lemma IntervalSides(y: real, u: real, c: real, at: real, yu: real, r: real, s: real)
    requires u > 0.0 && at == c * u && yu == y * u
    requires 0.0 <= r <= u && 0.0 < s && 4.0 * s <= u && at + r <= yu < at + r + s
    ensures c <= y < c + 1.25
    ensures 2.0 * (r + s) <= u ==> y < c + 0.5
    ensures 2.0 * r > u ==> y > c + 0.5
  {
    OffsetCompare(y, c, 0.0, u, at);
    OffsetCompare(y, c, 0.5, u, at);
    OffsetCompare(y, c, 1.25, u, at);
  }

  lemma OffsetCompare(y: real, c: real, h: real, u: real, at: real)
    requires u > 0.0 && at == c * u
    ensures y * u < at + h * u <==> y < c + h
    ensures y * u > at + h * u <==> y > c + h
  {
    assert (c + h) * u == c * u + h * u;
    RMulCompare(y, c + h, u);
  }

  /** Three result words of the 64 by 128 bit product, and the carry test between them. */
  lemma ProductWords(power: Wide, significand: nat, low: Wide, high: Wide, middle: nat, top: nat)
    requires IsWide(low) && IsWide(high)
    requires WideValue(low) == power.low * significand && WideValue(high) == power.high * significand
    requires middle == U64(low.high + high.low)
    requires top == high.high + (if middle < low.high then 1 else 0)
    ensures WideValue(power) * significand == low.low + W64 * middle + W64 * W64 * top
  {
    assert WideValue(power) * significand == power.low * significand + W64 * (power.high * significand);
    assert low.high + high.low == middle + (if middle < low.high then W64 else 0);
  }

  /** The coefficient is the product without its low 112 bits. */
  lemma CoefficientBits(product: nat, lowLow: nat, middle: nat, top: nat)
    requires lowLow < W64 && middle < W64
    requires product == lowLow + W64 * middle + W64 * W64 * top
    requires product < B112 * 2 * TEN17
    ensures 0 <= top && U64(top) == top && U64(top * 0x1_0000) == top * 0x1_0000
    ensures product / B112 == top * 0x1_0000 + middle / TWO48
    ensures product % B112 == (middle % TWO48) * W64 + lowLow
  {
    assert W64 * W64 * top < B112 * 2 * TEN17;
    assert top * 0x1_0000 < 2 * TEN17;
    QuotientOf(product, B112, top * 0x1_0000 + middle / TWO48, (middle % TWO48) * W64 + lowLow);
  }

  /** The scaled value itself: 17 digits, or 18 when the significand is high. */
  lemma ScaledRange(significand: nat, binaryLog: int)
    requires TWO52 <= significand < TWO53 && -1074 <= binaryLog <= 1074
    ensures var y := BinaryValue(significand, binaryLog - 52) * Exp(10, ScaleExponent(binaryLog));
            TEN16 as real <= y < (2 * TEN17) as real
    ensures 0 <= ExactScale(binaryLog).Floor * significand < B112 * 2 * TEN17
  {
    hide Exp, Pow, FloorLog10Pow2, TruncDiv, TruncRem, ScaleExponent, ExactScale;
    ExactScaleRange(binaryLog);
    TenPowers();
    Bits60();
    var scale := ExactScale(binaryLog).Floor;
    assert TEN16 * TWO60 <= scale < TEN17 * TWO60;
    ScaledInterval(significand, binaryLog, scale);
    MulMono(TEN16 * TWO60, scale, significand);
    MulMono(scale + 1, TEN17 * TWO60, significand);
    var product := scale * significand;
    assert (scale + 1) * significand == product + significand;
    var y := BinaryValue(significand, binaryLog - 52) * Exp(10, ScaleExponent(binaryLog));
    hide BinaryValue;
    ProductRange(y, product, significand);
  }

  lemma ProductRange(y: real, product: int, significand: nat)
    requires TWO52 <= significand < TWO53
    requires TEN16 * TWO60 * significand <= product && product + significand <= TEN17 * TWO60 * significand
    requires product as real <= y * B112 as real < (product + significand) as real
    ensures TEN16 as real <= y < (2 * TEN17) as real && 0 <= product < B112 * 2 * TEN17
  {
    assert TEN16 * B112 <= product && product + significand < 2 * TEN17 * B112;
  }

  const TWO60: nat := 0x1000_0000_0000_0000

  lemma Bits60()
    ensures Exp(2, 60) == TWO60 as real
  {
    PowersOfTwo();
  }

  // ---- the fast path ---------------------------------------------------------------------

  /** The significand shifted up to 53 bits. */
  ghost function Normalized(significand: nat, exponent: int): (nat, int)
    requires 0 < significand < TWO53
    decreases TWO53 - significand
  {
    if significand < TWO52 then Normalized(2 * significand, exponent - 1) else (significand, exponent)
  }

  lemma {:induction false} NormalizedFacts(significand: nat, exponent: int)
    requires 0 < significand < TWO53
    ensures var (s, e) := Normalized(significand, exponent);
            && TWO52 <= s < TWO53
            && e <= exponent
            && BinaryValue(s, e) == BinaryValue(significand, exponent)
    decreases TWO53 - significand
  {
    if significand < TWO52 {
      NormalizedFacts(2 * significand, exponent - 1);
      DoubledValue(significand, exponent);
    }
  }

  lemma DoubledValue(significand: nat, exponent: int)
    ensures BinaryValue(2 * significand, exponent - 1) == BinaryValue(significand, exponent)
  {
    ExpAdd(2, 1, exponent - 1);
    hide Exp;
    ExpTwo();
    RMulShuffle(significand as real, 2.0, Exp(2, exponent - 1));
  }

  lemma ExpTwo()
    ensures Exp(2, 1) == 2.0
  {
    assert Pow(2, 1) == 2 * Pow(2, 0);
  }

  /** Shifting by 52 places at most reaches 53 bits. */
  lemma {:induction false} NormalizedExponent(significand: nat, exponent: int, k: nat)
    requires 0 < significand < TWO53 && TWO52 <= significand * Pow(2, k)
    ensures Normalized(significand, exponent).1 >= exponent - k
    decreases k
  {
    if significand < TWO52 {
      if k == 0 {
        assert false;
      } else {
        MulAssoc(significand, 2, Pow(2, k - 1));
        assert significand * 2 == 2 * significand;
        NormalizedExponent(2 * significand, exponent - 1, k - 1);
      }
    }
  }

  lemma NormalizedInTable(significand: nat, exponent: int)
    requires 0 < significand < TWO53 && -1074 <= exponent <= 971
    ensures -1074 <= Normalized(significand, exponent).1 + 52 <= 1023
  {
    hide Normalized, Pow;
    NormalizedFacts(significand, exponent);
    Pow52();
    MulMono(1, significand, TWO52);
    NormalizedExponent(significand, exponent, 52);
  }

  lemma Pow52()
    ensures Pow(2, 52) == TWO52
  {
    assert Pow(2, 4) == 16;
    PowersOfTwo();
    PowAdd(2, 4, 4);
    PowAdd(2, 8, 8);
    PowAdd(2, 16, 4);
    PowAdd(2, 20, 32);
  }

  /** The interval of possible scaled values touches a rounding boundary. */
  ghost predicate Ambiguous(significand: nat, exponent: int)
    requires 0 < significand < TWO53
  {
    var (s, e) := Normalized(significand, exponent);
    var scale := ExactScale(e + 52).Floor;
    scale >= 0 &&
    Straddles(scale * s, s)
  }

  /** Half a unit of the last kept digit lies in [product, product + significand], modulo the unit. */
  ghost predicate Straddles(product: nat, significand: nat) {
    var unit := if product / B112 >= TEN17 then 10 * B112 else B112;
    2 * (product % unit) <= unit <= 2 * (product % unit + significand)
  }

  /** The rounding decision on the words of the product is the decision on the whole interval. */
  lemma Decision(product: nat, s: nat, lowLow: nat, remainderHigh: nat, coefficient: nat)
    requires 0 < s < TWO53 && lowLow < W64 && remainderHigh < TWO48
    requires coefficient == product / B112 && product % B112 == remainderHigh * W64 + lowLow
    ensures var carryPossible := lowLow > W64 - 1 - s;
            var last := coefficient % 10;
            if coefficient >= TEN17 then
              var r := product % (10 * B112);
              && product / (10 * B112) == coefficient / 10
              && (2 * r <= 10 * B112 <= 2 * (r + s) <==>
                  (last == 4 && remainderHigh == TWO48 - 1 && carryPossible)
                  || (last == 5 && remainderHigh == 0 && lowLow == 0))
              && (last >= 5 <==> 2 * r >= 10 * B112)
            else
              var r := product % B112;
              && ((remainderHigh == TWO48 / 2 - 1 && carryPossible) || (remainderHigh == TWO48 / 2 && lowLow == 0)
                  <==> 2 * r <= B112 <= 2 * (r + s))
              && (remainderHigh >= TWO48 / 2 <==> 2 * r >= B112)
  {
    var last, rem := coefficient % 10, product % B112;
    QuotientOf(product, 10 * B112, coefficient / 10, last * B112 + rem);
  }

  /** [product, product + significand) holds the exact value, scaled to 17 or 18 integer digits and 112 bits. */
  ghost predicate Encloses(v: real, d: int, product: nat, significand: nat) {
    var y := v * Exp(10, 16 - d);
    && product as real <= y * B112 as real < (product + significand) as real
    && TEN16 as real <= y < (2 * TEN17) as real
  }

  /** An interval that touches no rounding boundary: 18 integer digits, the last one rounded off. */
  lemma Decided18(v: real, d: int, significand: nat, product: nat)
    requires 0 < significand < TWO53 && product / B112 >= TEN17
    requires Encloses(v, d, product, significand)
    requires !(2 * (product % (10 * B112)) <= 10 * B112 <= 2 * (product % (10 * B112) + significand))
    ensures var c := product / (10 * B112) + (if 2 * (product % (10 * B112)) >= 10 * B112 then 1 else 0);
            TEN16 <= c <= TEN17 && IsRounded(v, DecimalValue(c, d + 1 - 16))
  {
    hide Exp, IsRounded, DecimalValue;
    TenTimesCoarser(v, d, product, significand);
    UnitDecided(v, d + 1, 10 * B112, significand, product);
  }

  /** An interval that touches no rounding boundary: 17 integer digits. */
  lemma Decided17(v: real, d: int, significand: nat, product: nat)
    requires 0 < significand < TWO53 && product / B112 < TEN17
    requires Encloses(v, d, product, significand)
    requires !(2 * (product % B112) <= B112 <= 2 * (product % B112 + significand))
    ensures var c := product / B112 + (if 2 * (product % B112) >= B112 then 1 else 0);
            TEN16 <= c <= TEN17 && IsRounded(v, DecimalValue(c, d - 16))
  {
    hide Exp, IsRounded, DecimalValue;
    UnitDecided(v, d, B112, significand, product);
  }

  lemma EnclosedByTable(significand: nat, binaryLog: int, scale: nat)
    requires TWO52 <= significand < TWO53 && -1074 <= binaryLog <= 1074
    requires scale == ExactScale(binaryLog).Floor
    ensures scale * significand < B112 * 2 * TEN17
    ensures Encloses(BinaryValue(significand, binaryLog - 52), FloorLog10Pow2(binaryLog), scale * significand,
            significand)
  {
    hide ExactScale, BinaryValue, Exp, Pow, FloorLog10Pow2, TruncDiv, TruncRem;
    ScaledRange(significand, binaryLog);
    ScaledInterval(significand, binaryLog, scale);
  }

  /** One digit less: the same interval, in units ten times as large. */
  lemma TenTimesCoarser(v: real, d: int, product: nat, significand: nat)
    requires product / B112 >= TEN17 && significand < TWO53
    requires product as real <= (v * Exp(10, 16 - d)) * B112 as real < (product + significand) as real
    requires v * Exp(10, 16 - d) < (2 * TEN17) as real
    ensures var z := v * Exp(10, 16 - (d + 1));
            && product as real <= z * (10 * B112) as real < (product + significand) as real
            && TEN16 as real <= z
    ensures TEN16 <= product / (10 * B112) < TEN17
  {
    hide Exp;
    ScaledByTen(v, d);
    CoarserUnit(v * Exp(10, 16 - d), v * Exp(10, 16 - (d + 1)), product as real, significand as real);
    assert product < B112 * (2 * TEN17);
  }

  lemma CoarserUnit(y: real, z: real, p: real, s: real)
    requires y == 10.0 * z && p <= y * B112 as real < p + s
    requires p >= B112 as real * TEN17 as real && s < TWO53 as real && y < (2 * TEN17) as real
    ensures p <= z * (10 * B112) as real < p + s && TEN16 as real <= z
    ensures p < B112 as real * (2 * TEN17) as real
  {}

  lemma UnitDecided(v: real, d: int, unit: nat, significand: nat, product: nat)
    requires 0 < significand && 4 * significand <= unit
    requires product as real <= (v * Exp(10, 16 - d)) * unit as real < (product + significand) as real
    requires TEN16 as real <= v * Exp(10, 16 - d) && product / unit < TEN17
    requires !(2 * (product % unit) <= unit <= 2 * (product % unit + significand))
    ensures var c := product / unit + (if 2 * (product % unit) >= unit then 1 else 0);
            TEN16 <= c <= TEN17 && IsRounded(v, DecimalValue(c, d - 16))
  {
    hide Exp, HalfEven, IsRounded, DecimalValue;
    var y, c, r := v * Exp(10, 16 - d), product / unit, product % unit;
    Split(product, unit);
    assert unit * c == c * unit;
    IntervalDecides(y, unit, c, r, significand, product);
    TenPowers();
    RoundedFromScaled(v, d, HalfEven(y));
  }

  /** Round on the words of the product, or say that they cannot decide. */
  method RoundWords(coefficient0: nat, remainderHigh: nat, lowLow: nat, ghost significand: nat, carryPossible: bool,
          decimalExponent0: int, ghost product: nat, ghost v: real)
    returns (ok: bool, coefficient: nat, decimalExponent: int)
    requires 0 < significand < TWO53 && lowLow < W64 && remainderHigh < TWO48
    requires coefficient0 == product / B112 && product % B112 == remainderHigh * W64 + lowLow
    requires carryPossible <==> lowLow > W64 - 1 - significand
    requires Encloses(v, decimalExponent0, product, significand)
    ensures ok <==> !Straddles(product, significand)
    ensures decimalExponent0 <= decimalExponent <= decimalExponent0 + 1
    ensures ok ==> TEN16 <= coefficient <= TEN17
    ensures ok ==> IsRounded(v, DecimalValue(coefficient, decimalExponent - 16))
  {
    hide Encloses, IsRounded, DecimalValue;
    Decision(product, significand, lowLow, remainderHigh, coefficient0);
    ghost var undecided := Straddles(product, significand);
    coefficient, decimalExponent := coefficient0, decimalExponent0;
    if coefficient >= TEN17 {
      if !undecided {
        Decided18(v, decimalExponent0, significand, product);
      }
      var last := coefficient % 10;
      coefficient := coefficient / 10;
      decimalExponent := decimalExponent + 1;
      if last == 4 && remainderHigh == TWO48 - 1 && carryPossible {
        return false, coefficient, decimalExponent;
      }
      if last == 5 && remainderHigh == 0 && lowLow == 0 {
        return false, coefficient, decimalExponent;
      }
      if last >= 5 {
        coefficient := coefficient + 1;
      }
    } else {
      if !undecided {
        Decided17(v, decimalExponent0, significand, product);
      }
      if remainderHigh == TWO48 / 2 - 1 && carryPossible {
        return false, coefficient, decimalExponent;
      }
      if remainderHigh == TWO48 / 2 && lowLow == 0 {
        return false, coefficient, decimalExponent;
      }
      if remainderHigh >= TWO48 / 2 {
        coefficient := coefficient + 1;
      }
    }
    ok := true;
  }

  /** Round the exact value only when its whole error interval selects one result; a false result
      asks for the exact integer path. */
  method Scaled(significand0: nat, exponent0: int, scales: array<Wide>)
    returns (ok: bool, coefficient: nat, decimalExponent: int)
    requires 0 < significand0 < TWO53 && -1074 <= exponent0 <= 971
    requires IsScaleTable(scales)
    ensures ok <==> !Ambiguous(significand0, exponent0)
    ensures ok ==> TEN16 <= coefficient <= TEN17
    ensures -1000 <= decimalExponent <= 1000
    ensures ok ==> IsRounded(BinaryValue(significand0, exponent0), DecimalValue(coefficient, decimalExponent - 16))
  {
    hide Encloses, Straddles, IsScale, Exp, Pow, FloorLog10Pow2, TruncDiv, TruncRem, Multiply, Combine, ExactScale,
        IsRounded, DecimalValue, BinaryValue, WideValue, IsWide;
    var significand, exponent := significand0, exponent0;
    while significand < TWO52
      invariant 0 < significand < TWO53
      invariant Normalized(significand, exponent) == Normalized(significand0, exponent0)
      decreases TWO53 - significand
    {
      significand := significand * 2;
      exponent := exponent - 1;
    }
    NormalizedInTable(significand0, exponent0);
    NormalizedFacts(significand0, exponent0);
    hide Normalized;
    var binaryLog := exponent + 52;
    decimalExponent := FloorLog10Pow2(binaryLog);
    SmallLog(binaryLog);
    var power := scales[binaryLog + 1074];
    TableEntry(power, binaryLog);
    var low := Multiply(power.low, significand);
    var high := Multiply(power.high, significand);
    WordParts(low);
    WordParts(high);
    var middle := U64(low.high + high.low);
    var top := U64(high.high + (if middle < low.high then 1 else 0));
    coefficient := U64(top * 0x1_0000) + middle / TWO48;
    ghost var product := WideValue(power) * significand;
    ProductParts(power, significand, binaryLog, low, high, middle);
    var remainderHigh := middle % TWO48;
    var carryPossible := low.low > W64 - 1 - significand;
    ok, coefficient, decimalExponent := RoundWords(coefficient, remainderHigh, low.low, significand, carryPossible,
                                                   decimalExponent, product, BinaryValue(significand, exponent));
  }

  lemma SmallLog(e: int)
    requires -1074 <= e <= 1023
    ensures -1000 <= FloorLog10Pow2(e) <= 999
  {
    CorrectedDivisionIsFloor(e);
  }

  lemma TableEntry(w: Wide, e: int)
    requires IsScale(w, e)
    ensures IsWide(w) && WideValue(w) == ExactScale(e).Floor && w.low < W64 && w.high < W64
  {}

  lemma WordParts(w: Wide)
    requires IsWide(w)
    ensures w.low < W64 && w.high < W64
  {}

  lemma ProductParts(power: Wide, significand: nat, binaryLog: int, low: Wide, high: Wide, middle: nat)
    requires TWO52 <= significand < TWO53 && -1074 <= binaryLog <= 1074
    requires IsWide(low) && IsWide(high)
    requires WideValue(power) == ExactScale(binaryLog).Floor
    requires WideValue(low) == power.low * significand && WideValue(high) == power.high * significand
    requires middle == U64(low.high + high.low)
    ensures var top := U64(high.high + (if middle < low.high then 1 else 0));
            var product := WideValue(power) * significand;
            && 0 <= product
            && Encloses(BinaryValue(significand, binaryLog - 52), FloorLog10Pow2(binaryLog), product, significand)
            && product / B112 == U64(top * 0x1_0000) + middle / TWO48
            && product % B112 == (middle % TWO48) * W64 + low.low
  {
    hide Encloses, ExactScale, BinaryValue, Exp, Pow, FloorLog10Pow2, TruncDiv, TruncRem;
    EnclosedByTable(significand, binaryLog, WideValue(power));
    ProductWords(power, significand, low, high, middle, high.high + (if middle < low.high then 1 else 0));
    CoefficientBits(WideValue(power) * significand, low.low, middle, high.high + (if middle < low.high then 1 else 0));
  }
}
