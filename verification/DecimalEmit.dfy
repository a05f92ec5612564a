/** The imperative printer: length first, then every character, all or nothing. */
module DecimalEmit {
  import opened Powers
  import opened Text
  import opened DecimalText

  /** n has exactly count decimal digits (zero has one). */
  ghost predicate HasDigits(n: nat, count: nat) {
    count > 0 && n < Pow(10, count) && (count > 1 ==> Pow(10, count - 1) <= n)
  }

  lemma DigitCountUnique(n: nat, a: nat, b: nat)
    requires HasDigits(n, a) && HasDigits(n, b)
    ensures a == b
  {
    hide Pow;
    if a < b {
      PowGrows(10, a, b - 1);
    } else if b < a {
      PowGrows(10, b, a - 1);
    }
  }

  lemma {:induction false} DecimalHasDigits(n: nat)
    ensures HasDigits(n, |Decimal(n)|)
  {
    if n < 10 {
      assert Pow(10, 1) == 10 * Pow(10, 0);
    } else {
      var k := |Decimal(n / 10)|;
      DecimalHasDigits(n / 10);
      assert Pow(10, k + 1) == 10 * Pow(10, k);
      if k > 1 {
        assert Pow(10, k) == 10 * Pow(10, k - 1);
      } else {
        assert Pow(10, k) == 10;
      }
    }
  }

  method CountDigits(value: nat) returns (count: nat)
    requires value < Pow(10, 20)
    ensures HasDigits(value, count) && count <= 20
  {
    hide Pow;
    count := 1;
    while count < 20 && value >= Pow(10, count)
      invariant 1 <= count <= 20
      invariant count > 1 ==> Pow(10, count - 1) <= value
    {
      count := count + 1;
    }
  }

  /** The length computed before anything is written. */
  lemma LayoutLength(coefficient: nat, count: nat, exponent: int, negative: bool)
    requires count > 0
    ensures |Layout(coefficient, count, exponent, negative)|
         == (if negative then 1 else 0)
            + (if Scientific(exponent) then
                 count + (if count > 1 then 1 else 0) + 2
                 + (if |Decimal(Abs(exponent))| > 2 then |Decimal(Abs(exponent))| else 2)
               else if exponent < 0 then 1 + Abs(exponent) + count
               else (if count > exponent + 1 then count else exponent + 1) + (if count > exponent + 1 then 1 else 0))
  {
    if Scientific(exponent) {
      DecimalHasDigits(Abs(exponent));
      assert Pow(10, 1) == 10 * Pow(10, 0);
      var k := |Decimal(Abs(exponent))|;
      if k > 1 {
        PowGrows(10, 1, k - 1);
      }
    }
  }

  /** Append count zeros. */
  method AppendZeros(output: Writer, count: nat)
    requires output.Valid() && count <= output.Remaining()
    modifies output, output.data
    ensures output.Valid() && output.View() == old(output.View()) + Zeros(count)
  {
    var i := 0;
    while i < count
      invariant 0 <= i <= count && output.Valid()
      invariant output.View() == old(output.View()) + Zeros(i)
    {
      var _ := output.AppendChar('0');
      assert Zeros(i + 1) == Zeros(i) + ['0'];
      i := i + 1;
    }
  }

  /** The digits of a coefficient, leading digit first, with a point after `point` of them. */
  method AppendDigits(output: Writer, coefficient0: nat, count: nat, point: int)
    requires output.Valid() && count > 0 && coefficient0 < Pow(10, count)
    requires |Pointed(DigitsText(coefficient0, count), point, count)| <= output.Remaining()
    modifies output, output.data
    ensures output.Valid()
    ensures output.View() == old(output.View()) + Pointed(DigitsText(coefficient0, count), point, count)
  {
    hide Pow, DigitsText, Pointed;
    ghost var d := DigitsText(coefficient0, count);
    ghost var start := output.View();
    var coefficient: nat := coefficient0;
    var divisor := Pow(10, count - 1);
    var i: nat := 0;
    PointedStart(d, point);
    while i < count
      invariant i <= count && output.Valid()
      invariant coefficient < Pow(10, count - i)
      invariant i < count ==> divisor == Pow(10, count - 1 - i)
      invariant d[i..] == DigitsText(coefficient, count - i)
      invariant output.View() == start + Pointed(d, point, i)
    {
      LeadingDigit(coefficient, count - i);
      assert d[i] == d[i..][0] && d[i + 1..] == d[i..][1..];
      PointedStep(d, point, i);
      if i > 0 && i == point {
        var _ := output.AppendChar('.');
      }
      var _ := output.AppendChar(DigitChar(coefficient / divisor));
      coefficient := coefficient % divisor;
      NextDivisor(divisor, count - 1 - i);
      divisor := divisor / 10;
      i := i + 1;
    }
  }

  lemma PointedStart(d: string, point: int)
    ensures Pointed(d, point, 0) == ""
  {}

  lemma PointedStep(d: string, point: int, i: nat)
    requires i < |d|
    ensures Pointed(d, point, i + 1) == Pointed(d, point, i) + (if i > 0 && i == point then "." else "") + [d[i]]
    ensures |Pointed(d, point, i + 1)| <= |Pointed(d, point, |d|)|
  {}

  lemma NextDivisor(divisor: nat, k: nat)
    requires divisor == Pow(10, k)
    ensures k > 0 ==> divisor / 10 == Pow(10, k - 1)
  {}

  /** Print a coefficient of count digits whose leading digit stands for 10^exponent: exactly the
      rendered text, or nothing when it does not fit. */
  method Emit(output: Writer, coefficient0: nat, count0: nat, exponent0: int, negative: bool) returns (ok: bool)
    requires output.Valid()
    requires 0 < count0 <= 17 && coefficient0 <= Pow(10, count0)
    requires -0x8000_0000 < exponent0 < 0x7FFF_FFFF
    modifies output, output.data
    ensures output.Valid()
    ensures ok <==> |Render(coefficient0, count0, exponent0, negative)| <= old(output.Remaining())
    ensures output.View()
         == old(output.View()) + (if ok then Render(coefficient0, count0, exponent0, negative) else "")
  {
    hide Pow, DigitsText, Decimal;
    var coefficient: nat, count: nat, exponent := coefficient0, count0, exponent0;
    TenfoldPower(count0);
    if coefficient == Pow(10, count) {
      coefficient := coefficient / 10;
      exponent := exponent + 1;
    }
    ghost var stripped := Stripped(coefficient, count);
    while count > 1 && coefficient % 10 == 0
      invariant 0 < count <= count0 && coefficient < Pow(10, count)
      invariant Stripped(coefficient, count) == stripped
      modifies {}
    {
      TenfoldPower(count);
      coefficient := coefficient / 10;
      count := count - 1;
    }
    hide Stripped;
    var scientific := Scientific(exponent);
    var exponentMagnitude := Abs(exponent);
    SmallExponent(exponentMagnitude);
    var exponentDigits := CountDigits(exponentMagnitude);
    DecimalHasDigits(exponentMagnitude);
    DigitCountUnique(exponentMagnitude, exponentDigits, |Decimal(exponentMagnitude)|);
    if exponentDigits < 2 {
      exponentDigits := 2;
    }
    var length := if negative then 1 else 0;
    if scientific {
      length := length + count + (if count > 1 then 1 else 0) + 2 + exponentDigits;
    } else if exponent < 0 {
      length := length + 1 + exponentMagnitude + count;
    } else {
      length := length + (if count > exponent + 1 then count else exponent + 1)
                + (if count > exponent + 1 then 1 else 0);
    }
    LayoutLength(coefficient, count, exponent, negative);
    if length > output.Remaining() {
      return false;
    }
    EmitLayout(output, coefficient, count, exponent, negative);
    return true;
  }

  /** Every piece fits, because the whole does. */
  method EmitLayout(output: Writer, coefficient: nat, count: nat, exponent: int, negative: bool)
    requires output.Valid() && count > 0 && coefficient < Pow(10, count)
    requires |Layout(coefficient, count, exponent, negative)| <= output.Remaining()
    modifies output, output.data
    ensures output.Valid() && output.View() == old(output.View()) + Layout(coefficient, count, exponent, negative)
  {
    hide Pow, DigitsText, Pointed, Before, After;
    ghost var start, front := output.View(), SignText(negative) + Before(exponent);
    ghost var digits := Pointed(DigitsText(coefficient, count), PointPosition(exponent), count);
    assert Layout(coefficient, count, exponent, negative) == front + (digits + After(count, exponent));
    AppendFront(output, exponent, negative);
    AppendDigits(output, coefficient, count, PointPosition(exponent));
    AppendTail(output, count, exponent);
    assert output.View() == start + (front + (digits + After(count, exponent)));
  }

  method AppendFront(output: Writer, exponent: int, negative: bool)
    requires output.Valid() && |SignText(negative) + Before(exponent)| <= output.Remaining()
    modifies output, output.data
    ensures output.Valid() && output.View() == old(output.View()) + (SignText(negative) + Before(exponent))
  {
    if negative {
      var _ := output.AppendChar('-');
    }
    if !Scientific(exponent) && exponent < 0 {
      var _ := output.Append("0.");
      AppendZeros(output, -exponent - 1);
    }
  }

  method AppendTail(output: Writer, count: nat, exponent: int)
    requires output.Valid() && |After(count, exponent)| <= output.Remaining()
    modifies output, output.data
    ensures output.Valid() && output.View() == old(output.View()) + After(count, exponent)
  {
    hide ExponentText;
    if Scientific(exponent) {
      AppendExponent(output, exponent);
    } else if exponent >= count {
      AppendZeros(output, exponent - count + 1);
    }
  }

  method AppendExponent(output: Writer, exponent: int)
    requires output.Valid() && |ExponentText(exponent)| <= output.Remaining()
    modifies output, output.data
    ensures output.Valid() && output.View() == old(output.View()) + ExponentText(exponent)
  {
    hide Decimal;
    var _ := output.AppendChar('e');
    var _ := output.AppendChar(if exponent < 0 then '-' else '+');
    if Abs(exponent) < 10 {
      var _ := output.AppendChar('0');
    }
    var _ := output.Append(Decimal(Abs(exponent)));
  }

  lemma TenfoldPower(count: nat)
    requires count > 0
    ensures Pow(10, count) == 10 * Pow(10, count - 1) && 0 < Pow(10, count - 1) < Pow(10, count)
  {
    PowPositive(10, count - 1);
  }

  lemma SmallExponent(e: nat)
    requires e <= 0x7FFF_FFFF
    ensures e < Pow(10, 20)
  {
    assert Pow(10, 5) == 100000;
    hide Pow;
    PowAdd(10, 5, 5);
    PowAdd(10, 10, 10);
  }
}
