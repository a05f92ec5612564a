/** Little-endian digit sequences in any base, and the quotients their slices denote. */
module Digits {
  import opened Powers

  function Value(base: nat, ds: seq<nat>): nat {
    if ds == [] then 0 else ds[0] + base * Value(base, ds[1..])
  }

  ghost predicate Bounded(base: nat, ds: seq<nat>) {
    forall i :: 0 <= i < |ds| ==> ds[i] < base
  }

  lemma {:induction false} ValueOfConcat(base: nat, low: seq<nat>, high: seq<nat>)
    ensures Value(base, low + high) == Value(base, low) + Pow(base, |low|) * Value(base, high)
  {
    if low == [] {
      assert low + high == high;
    } else {
      assert (low + high)[1..] == low[1..] + high;
      ValueOfConcat(base, low[1..], high);
      ConcatStep(base, low[0], Value(base, low[1..]), Pow(base, |low| - 1), Value(base, high));
    }
  }

  lemma ConcatStep(base: nat, d: nat, v: nat, p: nat, w: nat)
    ensures d + base * (v + p * w) == (d + base * v) + (base * p) * w
  {
    MulAssoc(base, p, w);
    Distribute(base, v, p * w);
  }

  /** Appending a digit at the high end. */
  lemma ValueOfPush(base: nat, ds: seq<nat>, d: nat)
    ensures Value(base, ds + [d]) == Value(base, ds) + Pow(base, |ds|) * d
  {
    ValueOfConcat(base, ds, [d]);
    assert Value(base, [d]) == d + base * 0;
  }

  lemma {:induction false} ValueBelowPower(base: nat, ds: seq<nat>)
    requires Bounded(base, ds)
    ensures Value(base, ds) < Pow(base, |ds|)
  {
    if ds != [] {
      ValueBelowPower(base, ds[1..]);
      BoundStep(base, ds[0], Value(base, ds[1..]), Pow(base, |ds| - 1));
    }
  }

  lemma BoundStep(base: nat, d: nat, v: nat, p: nat)
    requires d < base && v < p
    ensures d + base * v < base * p
  {
    MulMono(v + 1, p, base);
    Distribute(base, v, 1);
  }

  lemma {:induction false} ValueOfZeros(base: nat, ds: seq<nat>)
    requires forall i :: 0 <= i < |ds| ==> ds[i] == 0
    ensures Value(base, ds) == 0
  {
    if ds != [] {
      ValueOfZeros(base, ds[1..]);
    }
  }

  /** The slices of a digit sequence are its quotient and remainder by a power of the base. */
  lemma SliceQuotient(base: nat, ds: seq<nat>, i: nat)
    requires base > 0 && Bounded(base, ds) && i <= |ds|
    ensures Pow(base, i) > 0
    ensures Value(base, ds) / Pow(base, i) == Value(base, ds[i..])
    ensures Value(base, ds) % Pow(base, i) == Value(base, ds[..i])
  {
    PowPositive(base, i);
    ValueBelowPower(base, ds[..i]);
    ValueOfConcat(base, ds[..i], ds[i..]);
    assert ds[..i] + ds[i..] == ds;
    QuotientOf(Value(base, ds), Pow(base, i), Value(base, ds[i..]), Value(base, ds[..i]));
  }

  lemma QuotientOf(n: nat, m: nat, q: nat, r: nat)
    requires m > 0 && n == r + m * q && r < m
    ensures n / m == q && n % m == r
  {
    hide *;
    var q', r' := n / m, n % m;
    assert n == m * q' + r';
    if q < q' {
      MulMono(q + 1, q', m);
    } else if q' < q {
      MulMono(q' + 1, q, m);
    }
  }

  /** Division twice is division by the product. */
  lemma DivideTwice(n: nat, a: nat, b: nat)
    requires a > 0 && b > 0
    ensures a * b > 0
    ensures n / a / b == n / (a * b)
  {
    Split(n, a);
    Split(n / a, b);
    QuotientTwice(n, a, b, n / a, n % a, n / a / b, n / a % b);
  }

  lemma QuotientTwice(n: nat, a: nat, b: nat, q: nat, r: nat, q': nat, r': nat)
    requires n == a * q + r && q == b * q' + r' && r < a && r' < b
    ensures a * b > 0
    ensures n / (a * b) == q'
  {
    Recombine(n, a, b, q, r, q', r');
    QuotientOf(n, a * b, q', a * r' + r);
  }

  lemma Recombine(n: nat, a: nat, b: nat, q: nat, r: nat, q': nat, r': nat)
    requires n == a * q + r && q == b * q' + r' && r < a && r' < b
    ensures 0 <= a * r' && 0 <= a * b
    ensures n == a * r' + r + (a * b) * q'
    ensures a * r' + r < a * b
  {
    MulAssoc(a, b, q');
    Distribute(a, b * q', r');
    MulMono(r', b - 1, a);
    MulNonneg(a, r');
    MulNonneg(a, b);
    Distribute(a, b - 1, 1);
  }

  lemma Distribute(a: int, b: int, c: int)
    ensures a * (b + c) == a * b + a * c
  {}

  /** A number splits into quotient and remainder. */
  lemma Split(n: nat, m: nat)
    requires m > 0
    ensures n == m * (n / m) + n % m && 0 <= n / m && 0 <= n % m < m
  {}

  lemma SmallQuotient(n: nat, m: nat)
    requires n < m
    ensures n / m == 0 && n % m == n
  {}

  /** Multiples of the divisor pass through a division. */
  lemma DivideOffMultiple(n: nat, k: nat, m: nat)
    requires m > 0
    ensures 0 <= m * k && (n + m * k) / m == n / m + k && (n + m * k) % m == n % m
  {
    MulNonneg(m, k);
    Split(n, m);
    assert m * (n / m + k) == m * (n / m) + m * k;
    QuotientOf(n + m * k, m, n / m + k, n % m);
  }

  /** One step of schoolbook multiplication by a small factor, low digit first. */
  lemma MultiplyStep(base: nat, source: seq<nat>, result: seq<nat>, carry: nat, d: nat, factor: nat)
    requires base > 0 && |source| == |result|
    requires Value(base, result) + Pow(base, |result|) * carry == factor * Value(base, source)
    ensures var product := d * factor + carry;
            && 0 <= product
            && Value(base, result + [product % base]) + Pow(base, |result| + 1) * (product / base)
               == factor * Value(base, source + [d])
  {
    MulNonneg(d, factor);
    var product := d * factor + carry;
    var p := Pow(base, |result|);
    ValueOfPush(base, source, d);
    ValueOfPush(base, result, product % base);
    Split(product, base);
    assert Pow(base, |result| + 1) == base * p;
    CarryOver(p, base, product / base, product % base, d, factor, carry,
              Value(base, result), Value(base, source));
  }

  lemma CarryOver(p: nat, base: nat, q: nat, r: nat, d: nat, factor: nat, carry: nat, v: nat, w: nat)
    requires base * q + r == d * factor + carry
    requires v + p * carry == factor * w
    ensures v + p * r + (base * p) * q == factor * (w + p * d)
  {
    MulAssoc(p, base, q);
    Distribute(p, base * q, r);
    Distribute(p, d * factor, carry);
    Distribute(factor, w, p * d);
    MulAssoc(p, d, factor);
  }
}
