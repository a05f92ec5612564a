/** The bounded output cursor and decimal digit strings. Bytes are modelled by characters. */
module Text {
  import opened Powers
  import opened Digits

  /** Non-owning output cursor over a buffer the caller keeps. */
  class Writer {
    const data: array<char>
    var size: nat

    ghost predicate Valid()
      reads this
    {
      size <= data.Length
    }

    ghost function View(): string
      reads this, data
      requires Valid()
    {
      data[..size]
    }

    function Remaining(): nat
      reads this
      requires Valid()
    {
      data.Length - size
    }

    constructor (buffer: array<char>)
      ensures Valid() && data == buffer && View() == []
    {
      data := buffer;
      size := 0;
    }

    method AppendChar(c: char) returns (ok: bool)
      requires Valid()
      modifies this, data
      ensures Valid()
      ensures ok <==> old(Remaining()) > 0
      ensures View() == old(View()) + (if ok then [c] else [])
    {
      if Remaining() == 0 {
        return false;
      }
      data[size] := c;
      size := size + 1;
      return true;
    }

    /** All of the text or nothing. */
    method Append(text: string) returns (ok: bool)
      requires Valid()
      modifies this, data
      ensures Valid()
      ensures ok <==> |text| <= old(Remaining())
      ensures View() == old(View()) + (if ok then text else [])
    {
      if |text| > Remaining() {
        return false;
      }
      var i := 0;
      while i < |text|
        invariant 0 <= i <= |text| && size == old(size)
        invariant data[..size + i] == old(data[..size]) + text[..i]
      {
        data[size + i] := text[i];
        i := i + 1;
      }
      size := size + |text|;
      return true;
    }
  }

  // ---- decimal digits --------------------------------------------------------------------

  predicate IsDigit(c: char) {
    '0' <= c <= '9'
  }

  function DigitChar(d: nat): (c: char)
    requires d < 10
    ensures IsDigit(c) && DigitOf(c) == d
  {
    '0' + d as char
  }

  function DigitOf(c: char): (d: nat)
    requires IsDigit(c)
    ensures d < 10
  {
    (c - '0') as nat
  }

  predicate AllDigits(s: string) {
    forall i :: 0 <= i < |s| ==> IsDigit(s[i])
  }

  /** The number a digit string denotes. */
  function NatOf(s: string): nat
    requires AllDigits(s)
  {
    if s == [] then 0 else 10 * NatOf(s[..|s| - 1]) + DigitOf(s[|s| - 1])
  }

  /** The last count digits of a number. */
  function DigitsText(n: nat, count: nat): (s: string)
    ensures |s| == count && AllDigits(s)
  {
    if count == 0 then [] else DigitsText(n / 10, count - 1) + [DigitChar(n % 10)]
  }

  /** Shortest decimal text of a number. */
  function Decimal(n: nat): (s: string)
    ensures |s| > 0 && AllDigits(s)
  {
    if n < 10 then [DigitChar(n)] else Decimal(n / 10) + [DigitChar(n % 10)]
  }

  function Zeros(k: nat): (s: string)
    ensures |s| == k && AllDigits(s)
  {
    seq(k, _ => '0')
  }

  lemma {:induction false} NatOfConcat(a: string, b: string)
    requires AllDigits(a) && AllDigits(b)
    ensures AllDigits(a + b)
    ensures NatOf(a + b) == NatOf(a) * Pow(10, |b|) + NatOf(b)
  {
    if b == [] {
      assert a + b == a;
    } else {
      var front, last := b[..|b| - 1], b[|b| - 1];
      assert (a + b)[..|a + b| - 1] == a + front && (a + b)[|a + b| - 1] == last;
      NatOfConcat(a, front);
      TenTimes(NatOf(a), Pow(10, |front|), NatOf(front), DigitOf(last));
    }
  }

  lemma TenTimes(a: nat, p: nat, f: nat, d: nat)
    ensures 10 * (a * p + f) + d == a * (10 * p) + (10 * f + d)
  {
    MulAssoc(a, 10, p);
  }

  lemma {:induction false} NatOfZeros(k: nat)
    ensures NatOf(Zeros(k)) == 0
  {
    if k > 0 {
      assert Zeros(k)[..k - 1] == Zeros(k - 1);
      NatOfZeros(k - 1);
    }
  }

  lemma {:induction false} NatOfDigitsText(n: nat, count: nat)
    requires n < Pow(10, count)
    ensures NatOf(DigitsText(n, count)) == n
  {
    if count > 0 {
      NatOfDigitsText(n / 10, count - 1);
      assert DigitsText(n, count)[..count - 1] == DigitsText(n / 10, count - 1);
    }
  }

  lemma {:induction false} NatOfDecimal(n: nat)
    ensures NatOf(Decimal(n)) == n
  {
    var s := Decimal(n);
    if n < 10 {
      assert s[..0] == [];
    } else {
      NatOfDecimal(n / 10);
      assert s[..|s| - 1] == Decimal(n / 10);
    }
  }

  /** The digits of a number, leading digit first. */
  lemma {:induction false} LeadingDigit(n: nat, count: nat)
    requires count > 0 && n < Pow(10, count)
    ensures Pow(10, count - 1) > 0 && n / Pow(10, count - 1) < 10
    ensures DigitsText(n, count)
         == [DigitChar(n / Pow(10, count - 1))] + DigitsText(n % Pow(10, count - 1), count - 1)
  {
    if count == 1 {
      assert Pow(10, 0) == 1 && Pow(10, 1) == 10;
      assert DigitsText(n / 10, 0) == [];
    } else {
      var p := Pow(10, count - 2);
      LeadingDigit(n / 10, count - 1);
      TenfoldQuotient(n, p);
      assert Pow(10, count - 1) == 10 * p;
      assert DigitsText(n, count) == DigitsText(n / 10, count - 1) + [DigitChar(n % 10)];
      var m := n % (10 * p);
      assert DigitsText(m, count - 1) == DigitsText(m / 10, count - 2) + [DigitChar(m % 10)];
    }
  }

  lemma TenfoldQuotient(n: nat, p: nat)
    requires p > 0
    ensures n / (10 * p) == n / 10 / p
    ensures n % (10 * p) / 10 == n / 10 % p
    ensures n % (10 * p) % 10 == n % 10
  {
    var q, r := n / 10 / p, n / 10 % p;
    assert n / 10 == p * q + r;
    assert n == (10 * r + n % 10) + (10 * p) * q by {
      MulAssoc(10, p, q);
    }
    QuotientOf(n, 10 * p, q, 10 * r + n % 10);
  }
}
