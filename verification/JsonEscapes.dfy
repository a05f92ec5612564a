/** What the escapes in a string stand for, told by readers of their own. */
module JsonEscapes {
  import opened Options
  import opened JsonGrammar
  import Escaping

  // ---- code units as bytes ---------------------------------------------------------------

  predicate IsContinuation(c: char) { 0x80 <= c as int <= 0xBF }

  /** The code unit that a sequence of bytes encodes, told by its lead byte. */
  function UnitOf(s: string): Option<nat> {
    if |s| == 1 && s[0] as int < 0x80 then Some(s[0] as int)
    else if |s| == 2 && 0xC0 <= s[0] as int <= 0xDF && IsContinuation(s[1]) then
      Some((s[0] as int - 0xC0) * 0x40 + (s[1] as int - 0x80))
    else if |s| == 3 && 0xE0 <= s[0] as int <= 0xEF && IsContinuation(s[1]) && IsContinuation(s[2]) then
      Some((s[0] as int - 0xE0) * 0x1000 + (s[1] as int - 0x80) * 0x40 + (s[2] as int - 0x80))
    else None
  }

  /** The bytes of a code unit read back as that unit, in the shortest form. */
  lemma UnitReads(code: nat)
    requires code < 0x1_0000
    ensures UnitOf(UnitBytes(code)) == Some(code)
    ensures |UnitBytes(code)| == 1 <==> code <= 0x7F
    ensures |UnitBytes(code)| == 2 <==> 0x80 <= code <= 0x7FF
    ensures |UnitBytes(code)| == 3 <==> 0x800 <= code
  {
    var high, middle, low := code / 4096, code / 64 % 64, code % 64;
    assert code / 64 == 64 * high + middle;
    assert code == 64 * (code / 64) + low;
  }

  /** No two texts of bytes are one unit in the same form. */
  lemma UnitDecides(a: string, b: string)
    requires UnitOf(a).Some? && UnitOf(a) == UnitOf(b) && |a| == |b|
    ensures a == b
  {
    if |a| == 1 {
      assert a[0] == b[0];
    } else if |a| == 2 {
      assert a[0] == b[0] && a[1] == b[1];
    } else {
      assert a[0] == b[0] && a[1] == b[1] && a[2] == b[2];
    }
  }

  // ---- hexadecimal digits ----------------------------------------------------------------

  const LOWER: string := "0123456789abcdef"
  const UPPER: string := "0123456789ABCDEF"

  /** A character is a digit of this value, in either case. */
  predicate IsDigitOf(c: char, d: nat) { d < 16 && (c == LOWER[d] || c == UPPER[d]) }

  lemma HexExactly(c: char)
    ensures IsHex(c) <==> exists d :: IsDigitOf(c, d)
    ensures IsHex(c) ==> IsDigitOf(c, HexValue(c))
    ensures forall d :: IsDigitOf(c, d) ==> IsHex(c) && HexValue(c) == d
  {
    forall d | IsDigitOf(c, d)
      ensures IsHex(c) && HexValue(c) == d
    {
      HexDigit(c, d);
    }
    if IsHex(c) {
      HexIsDigit(c);
    }
  }

  lemma HexDigit(c: char, d: nat)
    requires IsDigitOf(c, d)
    ensures IsHex(c) && HexValue(c) == d
  {}

  lemma HexIsDigit(c: char)
    requires IsHex(c)
    ensures IsDigitOf(c, HexValue(c))
  {}

  /** Four hexadecimal digits after \\u give the bytes of their number, whatever their case. */
  lemma UnicodeEscape(h: string, d: seq<nat>, rest: string)
    requires |h| == 4 && |d| == 4 && forall i :: 0 <= i < 4 ==> IsDigitOf(h[i], d[i])
    ensures var body := StringBody("\\u" + h + "\"" + rest);
            && body.Some? && body.value.rest == rest
            && UnitOf(body.value.text) == Some(d[0] * 0x1000 + d[1] * 0x100 + d[2] * 0x10 + d[3])
            && (|body.value.text| <= 2 ==> d[0] == 0 && d[1] < 8)
            && (|body.value.text| == 1 <==> d[0] == 0 && d[1] == 0 && d[2] < 8)
  {
    hide UnitBytes, UnitOf;
    var s := "\\u" + h + "\"" + rest;
    forall i | 0 <= i < 4
      ensures IsHex(h[i]) && HexValue(h[i]) == d[i]
    {
      HexExactly(h[i]);
    }
    assert s[2..6] == h && s[6..] == "\"" + rest;
    UnitReads(HexCode(h));
    ClosedString("\"" + rest, rest);
    assert Decode(s) == Some(Decoded(UnitBytes(HexCode(h)), 6));
    assert UnitBytes(HexCode(h)) + "" == UnitBytes(HexCode(h));
  }

  lemma ClosedString(s: string, rest: string)
    requires s == "\"" + rest
    ensures StringBody(s) == Some(Quoted("", rest))
  {
    assert s[1..] == rest;
  }

  // ---- short escapes ---------------------------------------------------------------------

  /** The characters with a short escape, and what each stands for. */
  const SHORT: map<char, int> :=
      map['"' := 34, '\\' := 92, '/' := 47, 'b' := 8, 'f' := 12, 'n' := 10, 'r' := 13, 't' := 9]

  lemma ShortEscapeReads(c: char, rest: string)
    requires c in SHORT
    ensures StringBody("\\" + [c] + "\"" + rest) == Some(Quoted([SHORT[c] as char], rest))
  {
    var s := "\\" + [c] + "\"" + rest;
    assert s[2..] == "\"" + rest;
    ClosedString("\"" + rest, rest);
    assert Decode(s) == Some(Decoded([SHORT[c] as char], 2));
    assert [SHORT[c] as char] + "" == [SHORT[c] as char];
  }

  /** No other character can follow a backslash, but u with four hexadecimal digits. */
  lemma OtherEscapesRefused(s: string)
    requires s != "" && s[0] == '\\'
    ensures StringBody(s).Some? ==> |s| >= 2 && (s[1] in SHORT || s[1] == 'u')
    ensures StringBody(s).Some? && s[1] == 'u' ==>
              |s| >= 6 && forall i :: 2 <= i < 6 ==> exists d :: IsDigitOf(s[i], d)
  {
    hide StringBody, IsHex, HexValue, IsDigitOf;
    if StringBody(s).Some? {
      BodyDecodes(s);
      if s[1] == 'u' {
        forall i | 2 <= i < 6
          ensures exists d :: IsDigitOf(s[i], d)
        {
          HexExactly(s[i]);
        }
      }
    }
  }

  lemma BodyDecodes(s: string)
    requires s != "" && s[0] == '\\' && StringBody(s).Some?
    ensures Decode(s).Some?
  {
    hide Decode;
  }

  /** Any other character stands for itself, whatever its code. */
  lemma PlainCharacter(c: char, rest: string)
    requires c != '"' && c != '\\'
    ensures StringBody([c] + "\"" + rest) == Some(Quoted([c], rest))
  {
    var s := [c] + "\"" + rest;
    assert s[1..] == "\"" + rest;
    ClosedString("\"" + rest, rest);
    assert [c] + "" == [c];
  }

  /** Only space, tab, line feed and carriage return are skipped. */
  lemma BlanksExactly(c: char)
    ensures IsBlank(c) <==> c as int in {0x20, 0x09, 0x0A, 0x0D}
  {}

  // ---- writing strings -------------------------------------------------------------------

  /** Written, the quote, the backslash and the line controls take their short escape, and with all controls
    * escaped backspace and form feed do too and the other controls their four lower-case digits; everything
    * else is written as it is. */
  lemma EscapesExactly(c: char, allControls: bool)
    ensures var e := Escaping.EscapeChar(c, allControls);
            && (c as int in {34, 92, 10, 13, 9} || (allControls && c as int in {8, 12}) ==>
                  |e| == 2 && e[0] == '\\' && e[1] in SHORT && SHORT[e[1]] == c as int)
            && (allControls && c as int < 0x20 && c as int !in {8, 9, 10, 12, 13} ==>
                  e == "\\u00" + [LOWER[c as int / 16], LOWER[c as int % 16]])
            && ((c as int >= 0x20 && c as int !in {34, 92}) || (!allControls && c as int !in {34, 92, 10, 13, 9}) ==>
                  e == [c])
  {
    if allControls && c as int < 0x20 {
      LowerDigit(c as int / 16);
      LowerDigit(c as int % 16);
    }
  }

  lemma LowerDigit(d: nat)
    requires d < 16
    ensures Escaping.HexDigit(d) == LOWER[d]
  {}

  // ---- nesting ---------------------------------------------------------------------------

  /** Arrays inside one another. */
  function NestedText(n: nat): string
    requires n > 0
  {
    if n == 1 then "[]" else "[" + NestedText(n - 1) + "]"
  }

  function Nested(n: nat): Json
    requires n > 0
  {
    Array(if n == 1 then [] else [Nested(n - 1)])
  }

  lemma {:induction false} NestedParses(read: Reader, n: nat, rest: string)
    requires n > 0
    ensures ParseValue(read, NestedText(n) + rest) == Some(Parsed(Nested(n), rest, n))
  {
    hide ParseValue, ParseToken, ParseRest, Blank;
    var s, inner := NestedText(n) + rest, if n == 1 then "" else NestedText(n - 1);
    assert s == "[" + (inner + ("]" + rest));
    var t := inner + ("]" + rest);
    ArrayStarts(read, s, t);
    CloseReads(rest);
    ContainerRest(read, false, t);
    if n > 1 {
      NestedParses(read, n - 1, "]" + rest);
      NotClosedYet(n - 1, "]" + rest);
      RestStep(read, false, t, [], [], 0);
      assert [] + [""] == [""] && [] + [Nested(n - 1)] == [Nested(n - 1)];
    } else {
      assert t == "]" + rest;
    }
  }

  lemma ArrayStarts(read: Reader, s: string, t: string)
    requires s == "[" + t
    ensures ParseValue(read, s) == ParseContainer(read, false, t)
  {
    hide ParseContainer;
    BlankStops(s);
    assert s[1..] == t;
  }

  lemma CloseReads(rest: string)
    ensures Consume("]" + rest, ']') == Some(rest)
  {
    BlankStops("]" + rest);
    assert ("]" + rest)[1..] == rest;
  }

  lemma NotClosedYet(n: nat, rest: string)
    requires n > 0
    ensures Consume(NestedText(n) + rest, ']').None?
  {
    var s := NestedText(n) + rest;
    assert s[0] == '[';
    BlankStops(s);
  }

  /** A document may nest 128 levels and no more. */
  lemma NestingLimit(read: Reader, n: nat)
    requires n > 0
    ensures Fits(ParseText(read, NestedText(n)), 0) <==> n <= 128
  {
    hide ParseValue;
    NestedParses(read, n, "");
    assert NestedText(n) + "" == NestedText(n);
  }
}
