/** Escaping a string for JSON, and that decoding undoes it. */
module Escaping {
  import opened Options
  import opened Text
  import opened JsonGrammar

  function HexDigit(d: nat): (c: char)
    requires d < 16
    ensures IsHex(c) && HexValue(c) == d
  {
    if d < 10 then '0' + d as char else 'a' + (d - 10) as char
  }

  /** Two-character escapes; backspace and form feed only when every control is escaped. */
  function ShortEscape(c: char, allControls: bool): string {
    if c == '"' then "\\\""
    else if c == '\\' then "\\\\"
    else if c == '\n' then "\\n"
    else if c == '\r' then "\\r"
    else if c == '\t' then "\\t"
    else if allControls && c == '\U{8}' then "\\b"
    else if allControls && c == '\U{c}' then "\\f"
    else ""
  }

  function LongEscape(c: char): (r: string)
    requires c as int < 0x20
    ensures |r| == 6
  {
    "\\u00" + [HexDigit(c as int / 16), HexDigit(c as int % 16)]
  }

  function EscapeChar(c: char, allControls: bool): (r: string)
    ensures r != ""
  {
    if ShortEscape(c, allControls) != "" then ShortEscape(c, allControls)
    else if allControls && c as int < 0x20 then LongEscape(c)
    else [c]
  }

  function Escape(s: string, allControls: bool): string {
    if s == "" then "" else Escape(s[..|s| - 1], allControls) + EscapeChar(s[|s| - 1], allControls)
  }

  function Quote(s: string, allControls: bool): string {
    "\"" + Escape(s, allControls) + "\""
  }

  lemma {:induction false} EscapeConcat(a: string, b: string, allControls: bool)
    ensures Escape(a + b, allControls) == Escape(a, allControls) + Escape(b, allControls)
  {
    hide EscapeChar;
    if b == "" {
      assert a + b == a;
    } else {
      assert (a + b)[..|a + b| - 1] == a + b[..|b| - 1];
      EscapeConcat(a, b[..|b| - 1], allControls);
    }
  }

  /** A part never escapes to more than the whole. */
  lemma EscapePrefix(s: string, i: nat, allControls: bool)
    requires i <= |s|
    ensures |Escape(s[..i], allControls)| <= |Escape(s, allControls)|
  {
    assert s == s[..i] + s[i..];
    EscapeConcat(s[..i], s[i..], allControls);
  }

  predicate Plain(s: string, allControls: bool) {
    forall i :: 0 <= i < |s| ==> EscapeChar(s[i], allControls) == [s[i]]
  }

  lemma {:induction false} EscapePlain(s: string, allControls: bool)
    requires Plain(s, allControls)
    ensures Escape(s, allControls) == s
  {
    hide EscapeChar;
    if s != "" {
      assert EscapeChar(s[|s| - 1], allControls) == [s[|s| - 1]];
      EscapePlain(s[..|s| - 1], allControls);
    }
  }

  /** Append the escaped text in runs; it is written in full exactly when it fits. */
  method WriteEscaped(sink: Writer, value: string, allControls: bool) returns (ok: bool)
    requires sink.Valid()
    modifies sink, sink.data
    ensures sink.Valid() && old(sink.View()) <= sink.View()
    ensures ok <==> |Escape(value, allControls)| <= old(sink.Remaining())
    ensures ok ==> sink.View() == old(sink.View()) + Escape(value, allControls)
  {
    hide EscapeChar, Escape, Plain, ShortEscape, LongEscape;
    ghost var start := sink.View();
    var first, i := 0, 0;
    NothingEscaped(value, allControls);
    while i < |value|
      invariant 0 <= first <= i <= |value| && sink.Valid()
      invariant sink.View() == start + Escape(value[..first], allControls)
      invariant Plain(value[first..i], allControls)
    {
      var c := value[i];
      var escaped := ShortEscape(c, allControls);
      if escaped == "" && allControls && c as int < 0x20 {
        escaped := LongEscape(c);
      }
      RunEscapes(value, first, i, allControls);
      EscapePrefix(value, i, allControls);
      EscapePrefix(value, i + 1, allControls);
      if escaped != "" {
        assert escaped == EscapeChar(c, allControls) by { EscapedIs(c, allControls, escaped); }
        ok := AppendBoth(sink, value[first..i], escaped);
        if !ok {
          return;
        }
        first := i + 1;
        NothingPlain(value, i + 1, allControls);
      } else {
        PlainMore(value, first, i, allControls);
      }
      i := i + 1;
    }
    RunEscapes(value, first, i, allControls);
    assert value[..i] == value;
    ok := sink.Append(value[first..i]);
  }

  method AppendBoth(sink: Writer, run: string, escaped: string) returns (ok: bool)
    requires sink.Valid()
    modifies sink, sink.data
    ensures sink.Valid() && old(sink.View()) <= sink.View()
    ensures ok <==> |run| + |escaped| <= old(sink.Remaining())
    ensures ok ==> sink.View() == old(sink.View()) + (run + escaped)
  {
    ok := sink.Append(run);
    if ok {
      ok := sink.Append(escaped);
    }
  }

  lemma NothingEscaped(value: string, allControls: bool)
    ensures Escape(value[..0], allControls) == "" && Plain(value[0..0], allControls)
  {}

  lemma NothingPlain(value: string, i: nat, allControls: bool)
    requires i <= |value|
    ensures Plain(value[i..i], allControls)
  {}

  lemma EscapedIs(c: char, allControls: bool, escaped: string)
    requires escaped != ""
    requires escaped == ShortEscape(c, allControls)
             || (ShortEscape(c, allControls) == "" && allControls && c as int < 0x20 && escaped == LongEscape(c))
    ensures EscapeChar(c, allControls) == escaped
  {}

  /** A run of plain characters, and the character after it. */
  lemma RunEscapes(value: string, first: nat, i: nat, allControls: bool)
    requires first <= i <= |value| && Plain(value[first..i], allControls)
    ensures Escape(value[..i], allControls) == Escape(value[..first], allControls) + value[first..i]
    ensures i < |value| ==>
            Escape(value[..i + 1], allControls) == Escape(value[..i], allControls) + EscapeChar(value[i], allControls)
  {
    hide EscapeChar, Escape, Plain;
    assert value[..i] == value[..first] + value[first..i];
    EscapeConcat(value[..first], value[first..i], allControls);
    EscapePlain(value[first..i], allControls);
    if i < |value| {
      EscapeLast(value[..i + 1], allControls);
      assert value[..i + 1][..i] == value[..i];
    }
  }

  lemma EscapeLast(s: string, allControls: bool)
    requires s != ""
    ensures Escape(s, allControls) == Escape(s[..|s| - 1], allControls) + EscapeChar(s[|s| - 1], allControls)
  {}

  lemma PlainMore(value: string, first: nat, i: nat, allControls: bool)
    requires first <= i < |value| && Plain(value[first..i], allControls)
    requires ShortEscape(value[i], allControls) == "" && !(allControls && value[i] as int < 0x20)
    ensures Plain(value[first..i + 1], allControls)
  {
    assert value[first..i + 1] == value[first..i] + [value[i]];
  }

  // ---- decoding --------------------------------------------------------------------------

  lemma DecodeEscaped(c: char, allControls: bool, rest: string)
    ensures (EscapeChar(c, allControls) + rest)[0] != '"'
    ensures Decode(EscapeChar(c, allControls) + rest) == Some(Decoded([c], |EscapeChar(c, allControls)|))
  {
    var e := EscapeChar(c, allControls);
    if ShortEscape(c, allControls) == "" && allControls && c as int < 0x20 {
      assert (e + rest)[2..6] == e[2..6];
      HexOfControl(c, e);
    } else if ShortEscape(c, allControls) != "" {
      assert (e + rest)[1] == e[1];
    }
  }

  lemma HexOfControl(c: char, e: string)
    requires c as int < 0x20 && e == LongEscape(c)
    ensures |e| == 6 && HexCode(e[2..6]) == c as int && UnitBytes(c as int) == [c]
  {
    var h := e[2..6];
    assert h[0] == '0' && h[1] == '0' && h[2] == HexDigit(c as int / 16) && h[3] == HexDigit(c as int % 16);
  }

  /** Decoding an escaped string gives the string back, whatever its bytes. */
  lemma {:induction false} EscapeRoundTrip(s: string, allControls: bool, rest: string)
    ensures StringBody(Escape(s, allControls) + "\"" + rest) == Some(Quoted(s, rest))
  {
    EscapedBody(s, allControls, "\"" + rest);
    assert Escape(s, allControls) + "\"" + rest == Escape(s, allControls) + ("\"" + rest);
    assert ("\"" + rest)[1..] == rest && s + "" == s;
  }

  lemma {:induction false} EscapedBody(s: string, allControls: bool, rest: string)
    ensures StringBody(Escape(s, allControls) + rest) == Prepend(s, StringBody(rest))
    decreases |s|
  {
    hide Decode, EscapeChar;
    var body := StringBody(rest);
    if s == "" {
      assert Escape(s, allControls) + rest == rest;
      assert body.Some? ==> "" + body.value.text == body.value.text;
    } else {
      var c, n := s[0], |s| - 1;
      assert s == [c] + s[1..] && [c][..0] == "";
      EscapeConcat([c], s[1..], allControls);
      assert Escape([c], allControls) == EscapeChar(c, allControls);
      var tail := Escape(s[1..], allControls) + rest;
      assert Escape(s, allControls) + rest == EscapeChar(c, allControls) + tail;
      DecodeEscaped(c, allControls, tail);
      assert (EscapeChar(c, allControls) + tail)[|EscapeChar(c, allControls)|..] == tail;
      EscapedBody(s[1..], allControls, rest);
      assert body.Some? ==> [c] + (s[1..] + body.value.text) == s + body.value.text;
    }
  }
}
