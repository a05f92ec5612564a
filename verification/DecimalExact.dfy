/** The exact fallback: a fixed workspace of base-10^9 limbs. */
module DecimalExact {
  import opened Powers
  import opened Digits
  import opened DecimalEmit

  const RADIX: nat := 1000000000
  const LIMBS: nat := 96

  lemma RadixPower()
    ensures Pow(10, 9) == RADIX
  {
    assert Pow(10, 3) == 1000;
    hide Pow;
    PowAdd(10, 3, 3);
    PowAdd(10, 6, 3);
  }

  /** Limb k holds digits 9k to 9k+8. */
  lemma RadixDigits(i: nat, r: nat)
    ensures Pow(10, 9 * i + r) == Pow(RADIX, i) * Pow(10, r)
  {
    hide Pow;
    RadixPower();
    PowOfPow(10, 9, i);
    PowAdd(10, 9 * i, r);
  }

  class Integer {
    const limbs: array<nat>
    var size: nat

    ghost predicate Valid()
      reads this, limbs
    {
      && limbs.Length == LIMBS
      && 1 <= size <= LIMBS
      && Bounded(RADIX, limbs[..size])
      && (size > 1 ==> limbs[size - 1] > 0)
    }

    ghost function Number(): nat
      reads this, limbs
      requires Valid()
    {
      Value(RADIX, limbs[..size])
    }

    /** The limbs of a 64-bit value. */
    constructor (value0: nat)
      requires value0 < 0x1_0000_0000_0000_0000
      ensures Valid() && fresh(limbs) && Number() == value0
    {
      limbs := new nat[LIMBS];
      size := 0;
      new;
      var value: nat := value0;
      limbs[0] := value % RADIX;
      value := value / RADIX;
      size := 1;
      assert limbs[..1] == [value0 % RADIX];
      ValueOfPush(RADIX, [], value0 % RADIX);
      assert [] + [value0 % RADIX] == [value0 % RADIX];
      PowStep(RADIX, 0);
      while value > 0
        invariant 1 <= size <= 3 && Bounded(RADIX, limbs[..size])
        invariant size > 1 && value == 0 ==> limbs[size - 1] > 0
        invariant size == 1 ==> value <= 18446744073
        invariant size == 2 ==> value <= 18
        invariant size == 3 ==> value == 0
        invariant Value(RADIX, limbs[..size]) + Pow(RADIX, size) * value == value0
        decreases value
      {
        ghost var before, n := limbs[..size], size;
        Split(value, RADIX);
        limbs[size] := value % RADIX;
        size := size + 1;
        assert limbs[..size] == before + [value % RADIX];
        ValueOfPush(RADIX, before, value % RADIX);
        PowStep(RADIX, n);
        CarryOut(Pow(RADIX, n), value);
        value := value / RADIX;
      }
    }

    /** Multiply in place; false when the product needs more limbs than there are. */
    method Multiply(factor: nat) returns (ok: bool)
      requires Valid() && 0 < factor < RADIX
      modifies this, limbs
      ensures ok ==> Valid() && Number() == old(Number()) * factor
      ensures old(size) <= size <= old(size) + 1
      ensures !ok ==> Pow(RADIX, LIMBS) <= old(Number()) * factor
    {
      hide Pow, Value;
      var carry := MultiplyLimbs(factor);
      if carry > 0 {
        if size == LIMBS {
          Overflow(Pow(RADIX, LIMBS), carry);
          return false;
        }
        ghost var done := limbs[..size];
        limbs[size] := carry;
        size := size + 1;
        assert limbs[..size] == done + [carry];
        ValueOfPush(RADIX, done, carry);
      } else {
        assert Pow(RADIX, size) * carry == 0;
      }
      return true;
    }

    method MultiplyLimbs(factor: nat) returns (carry: nat)
      requires Valid() && 0 < factor < RADIX
      modifies limbs
      ensures carry < factor && Bounded(RADIX, limbs[..size])
      ensures size > 1 && carry == 0 ==> limbs[size - 1] > 0
      ensures Value(RADIX, limbs[..size]) + Pow(RADIX, size) * carry == old(Number()) * factor
    {
      hide Pow, Value, Multiplied;
      ghost var source := limbs[..size];
      carry := 0;
      var i: nat := 0;
      StartProduct(source, limbs[..0], factor);
      while i < size
        invariant i <= size && carry < factor
        invariant Bounded(RADIX, limbs[..i])
        invariant forall k :: i <= k < size ==> limbs[k] == source[k]
        invariant i == size && size > 1 && carry == 0 ==> limbs[size - 1] > 0
        invariant Multiplied(limbs[..i], carry, source[..i], factor)
      {
        ghost var done := limbs[..i];
        LimbStep(source, i, done, carry, factor);
        var product := limbs[i] * factor + carry;
        limbs[i] := product % RADIX;
        carry := product / RADIX;
        assert limbs[..i + 1] == done + [product % RADIX];
        i := i + 1;
      }
      assert source == source[..i];
      ProductDone(limbs[..i], carry, source, factor);
    }

    method DecimalDigits() returns (count: nat)
      requires Valid() && Number() > 0
      ensures HasDigits(Number(), count) && count <= 9 * size
    {
      hide Pow, Value;
      TopLimb(limbs[..size]);
      var top := limbs[size - 1];
      RadixPower();
      PowGrows(10, 9, 20);
      var low := CountDigits(top);
      if low > 9 {
        PowGrows(10, 9, low - 1);
      }
      TopDigits(Number(), top, size - 1, low);
      count := (size - 1) * 9 + low;
    }

    function Digit(offset: nat): (d: nat)
      requires Valid() && offset < 9 * size
      reads this, limbs
      ensures Pow(10, offset) > 0 && d == Number() / Pow(10, offset) % 10
    {
      PowPositive(10, offset % 9);
      DigitMeaning(limbs[..size], offset);
      (limbs[offset / 9] / Pow(10, offset % 9)) % 10
    }

    method NonzeroBelow(offset: nat) returns (nonzero: bool)
      requires Valid() && offset < 9 * size
      ensures Pow(10, offset) > 0 && (nonzero <==> Number() % Pow(10, offset) > 0)
    {
      hide Pow, Value;
      PowPositive(10, offset % 9);
      BelowMeaning(limbs[..size], offset);
      var whole := offset / 9;
      var i: nat := 0;
      while i < whole
        invariant i <= whole && forall k :: 0 <= k < i ==> limbs[k] == 0
      {
        if limbs[i] != 0 {
          ValueOfNonzero(RADIX, limbs[..size][..whole], i);
          return true;
        }
        i := i + 1;
      }
      ValueOfZeros(RADIX, limbs[..size][..whole]);
      return offset % 9 != 0 && limbs[whole] % Pow(10, offset % 9) != 0;
    }
  }

  /** The top limb bounds the number from both sides. */
  lemma TopLimb(ds: seq<nat>)
    requires ds != [] && Bounded(RADIX, ds)
    ensures var top, p := ds[|ds| - 1], Pow(RADIX, |ds| - 1);
            p * top <= Value(RADIX, ds) < p * (top + 1)
  {
    hide Pow, Value;
    var front := ds[..|ds| - 1];
    assert ds == front + [ds[|ds| - 1]];
    ValueOfPush(RADIX, front, ds[|ds| - 1]);
    ValueBelowPower(RADIX, front);
    Distribute(Pow(RADIX, |ds| - 1), ds[|ds| - 1], 1);
  }

  lemma TopDigits(n: nat, top: nat, k: nat, low: nat)
    requires HasDigits(top, low) && (k > 0 ==> top > 0)
    requires Pow(RADIX, k) * top <= n < Pow(RADIX, k) * (top + 1) && n > 0
    ensures HasDigits(n, 9 * k + low)
  {
    hide Pow;
    RadixDigits(k, low);
    RadixDigits(k, low - 1);
    PowZeroIsOne();
    TopBounds(n, top, Pow(RADIX, k), Pow(10, low), Pow(10, low - 1));
  }

  lemma TopBounds(n: nat, top: nat, p: nat, above: nat, below: nat)
    requires p * top <= n < p * (top + 1)
    ensures top < above ==> n < p * above
    ensures below <= top ==> p * below <= n
  {
    ProductBelow(p, top + 1, above, p * above);
    ProductBelow(p, below, top, p * top);
  }

  lemma ProductBelow(p: nat, a: nat, b: nat, pb: nat)
    requires pb == p * b
    ensures a <= b ==> p * a <= pb
  {
    if a <= b {
      MulMono(a, b, p);
    }
  }

  lemma PowZeroIsOne()
    ensures Pow(10, 0) == 1 && Pow(RADIX, 0) == 1
  {}

  /** One decimal digit, out of the limb that holds it. */
  lemma DigitMeaning(ds: seq<nat>, offset: nat)
    requires Bounded(RADIX, ds) && offset < 9 * |ds|
    ensures Pow(10, offset) > 0 && Pow(10, offset % 9) > 0
    ensures Value(RADIX, ds) / Pow(10, offset) % 10 == (ds[offset / 9] / Pow(10, offset % 9)) % 10
  {
    var i, r := offset / 9, offset % 9;
    var rest := Value(RADIX, ds[i..][1..]);
    assert Value(RADIX, ds[i..]) == ds[i] + RADIX * rest;
    hide Pow, Value;
    RadixDigits(i, r);
    SliceQuotient(RADIX, ds, i);
    PowPositive(10, r);
    DivideTwice(Value(RADIX, ds), Pow(RADIX, i), Pow(10, r));
    RadixPower();
    PowAdd(10, 9 - r, r);
    PowStep(10, 8 - r);
    DigitInside(ds[i], rest, Pow(10, r), Pow(10, 8 - r));
  }

  lemma DigitInside(limb: nat, rest: nat, p: nat, q: nat)
    requires p > 0 && (10 * q) * p == RADIX
    ensures (limb + RADIX * rest) / p % 10 == limb / p % 10
  {
    var k := q * rest;
    MulNonneg(q, rest);
    MulNonneg(10, k);
    assert RADIX * rest == p * (10 * k) by {
      MulAssoc(10, q, p);
      MulAssoc(10, q * p, rest);
      MulAssoc(q, p, rest);
      MulAssoc(p, q, rest);
      MulAssoc(10, p, q * rest);
      MulAssoc(p, 10, k);
    }
    DivideOffMultiple(limb, 10 * k, p);
    DivideOffMultiple(limb / p, k, 10);
  }

  /** What lies below a digit: the whole limbs under it and the low part of its own limb. */
  lemma BelowMeaning(ds: seq<nat>, offset: nat)
    requires Bounded(RADIX, ds) && offset < 9 * |ds|
    ensures Pow(10, offset) > 0 && Pow(10, offset % 9) > 0
    ensures Value(RADIX, ds) % Pow(10, offset) > 0
       <==> Value(RADIX, ds[..offset / 9]) > 0 || ds[offset / 9] % Pow(10, offset % 9) > 0
    ensures offset % 9 == 0 ==> ds[offset / 9] % Pow(10, offset % 9) == 0
  {
    var i, r := offset / 9, offset % 9;
    hide Pow, Value;
    LimbRemainder(ds, i, r);
    RemainderByUnit(ds[i]);
    RadixDigits(i, r);
    SliceQuotient(RADIX, ds, i);
    BelowParts(Value(RADIX, ds), Pow(RADIX, i), Pow(10, r), Value(RADIX, ds[..i]), Value(RADIX, ds[i..]), ds[i],
               Pow(10, offset));
  }

  lemma BelowParts(n: nat, a: nat, b: nat, low: nat, high: nat, limb: nat, p: nat)
    requires a > 0 && b > 0 && p == a * b && n % a == low && n / a == high && high % b == limb % b
    ensures p > 0 && (n % p > 0 <==> low > 0 || limb % b > 0)
  {
    RemainderOfProduct(n, a, b);
  }

  lemma RemainderByUnit(d: nat)
    ensures Pow(10, 0) > 0 && d % Pow(10, 0) == 0
  {
    PowZeroIsOne();
  }

  /** A limb and everything above it leave the limb's own remainder. */
  lemma LimbRemainder(ds: seq<nat>, i: nat, r: nat)
    requires i < |ds| && r < 9
    ensures Pow(10, r) > 0
    ensures Value(RADIX, ds[i..]) % Pow(10, r) == ds[i] % Pow(10, r)
  {
    var rest := Value(RADIX, ds[i..][1..]);
    assert Value(RADIX, ds[i..]) == ds[i] + RADIX * rest;
    hide Pow, Value;
    PowPositive(10, r);
    RadixPower();
    PowAdd(10, r, 9 - r);
    MulAssoc(Pow(10, r), Pow(10, 9 - r), rest);
    MulNonneg(Pow(10, 9 - r), rest);
    DivideOffMultiple(ds[i], Pow(10, 9 - r) * rest, Pow(10, r));
  }

  /** n % (a b) is n % a and a times (n / a) % b. */
  lemma RemainderOfProduct(n: nat, a: nat, b: nat)
    requires a > 0 && b > 0
    ensures a * b > 0
    ensures n % (a * b) > 0 <==> n % a > 0 || n / a % b > 0
  {
    Split(n, a);
    Split(n / a, b);
    RemainderParts(n, a, b, n / a, n % a, n / a / b, n / a % b);
  }

  lemma RemainderParts(n: nat, a: nat, b: nat, q: nat, r: nat, q': nat, r': nat)
    requires n == a * q + r && q == b * q' + r' && r < a && r' < b
    ensures a * b > 0
    ensures n % (a * b) > 0 <==> r > 0 || r' > 0
  {
    Recombine(n, a, b, q, r, q', r');
    QuotientOf(n, a * b, q', a * r' + r);
    if r' > 0 {
      MulMono(1, r', a);
    } else {
      assert a * r' == 0;
    }
  }

  lemma {:induction false} ValueOfNonzero(base: nat, ds: seq<nat>, i: nat)
    requires i < |ds| && ds[i] > 0 && base > 0
    ensures Value(base, ds) > 0
  {
    if i > 0 {
      ValueOfNonzero(base, ds[1..], i - 1);
      MulMono(1, Value(base, ds[1..]), base);
    } else {
      MulNonneg(base, Value(base, ds[1..]));
    }
  }

  /** done and its carry are the product of the limbs so far. */
  ghost predicate Multiplied(done: seq<nat>, carry: nat, source: seq<nat>, factor: nat) {
    Value(RADIX, done) + Pow(RADIX, |done|) * carry == factor * Value(RADIX, source)
  }

  lemma LimbStep(source: seq<nat>, i: nat, done: seq<nat>, carry: nat, factor: nat)
    requires i < |source| && |done| == i && carry < factor && Bounded(RADIX, source)
    requires Multiplied(done, carry, source[..i], factor)
    ensures var product := source[i] * factor + carry;
            && 0 <= product && product / RADIX < factor
            && (source[i] > 0 && product / RADIX == 0 ==> product % RADIX > 0)
            && Multiplied(done + [product % RADIX], product / RADIX, source[..i + 1], factor)
  {
    hide Pow, Value;
    assert source[..i + 1] == source[..i] + [source[i]];
    MultiplyStep(RADIX, source[..i], done, carry, source[i], factor);
    CarryBound(source[i], factor, carry);
  }

  lemma StartProduct(source: seq<nat>, empty: seq<nat>, factor: nat)
    requires empty == []
    ensures Multiplied(empty, 0, source[..0], factor)
  {
    assert Value(RADIX, []) == 0;
  }

  lemma ProductDone(done: seq<nat>, carry: nat, source: seq<nat>, factor: nat)
    requires Multiplied(done, carry, source, factor)
    ensures Value(RADIX, done) + Pow(RADIX, |done|) * carry == Value(RADIX, source) * factor
  {
    hide Pow, Value;
  }

  lemma Overflow(p: nat, carry: nat)
    requires carry > 0
    ensures p <= p * carry
  {
    MulMono(1, carry, p);
  }

  lemma CarryOut(p: nat, value: nat)
    ensures p * (value % RADIX) + (RADIX * p) * (value / RADIX) == p * value
  {
    Split(value, RADIX);
    MulAssoc(p, RADIX, value / RADIX);
    Distribute(p, RADIX * (value / RADIX), value % RADIX);
  }

  /** The carry stays below the factor, so it always fits one limb. */
  lemma CarryBound(limb: nat, factor: nat, carry: nat)
    requires limb < RADIX && carry < factor
    ensures 0 <= limb * factor + carry && (limb * factor + carry) / RADIX < factor
    ensures limb > 0 && (limb * factor + carry) / RADIX == 0 ==> (limb * factor + carry) % RADIX > 0
  {
    MulMono(limb, RADIX - 1, factor);
    MulNonneg(limb, factor);
    if limb > 0 {
      MulMono(1, limb, factor);
    }
  }
}
