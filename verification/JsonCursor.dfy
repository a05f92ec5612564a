/** The cursor that reads JSON tokens from a mutable buffer and decodes strings in place. */
module JsonCursor {
  import opened Options
  import opened Text
  import opened DecimalText
  import opened JsonGrammar

  /** A borrowed piece of the buffer. */
  datatype View = View(start: nat, size: nat)

  class Cursor {
    const bytes: array<char>
    const decode: bool
    const read: Reader
    var position: nat

    ghost predicate Valid()
      reads this
    {
      position <= bytes.Length
    }

    ghost function Unread(): string
      reads this, bytes
      requires Valid()
    {
      bytes[position..]
    }

    constructor (input: array<char>, decode: bool, read: Reader)
      ensures Valid() && bytes == input && this.decode == decode && this.read == read && position == 0
    {
      bytes, this.decode, this.read, position := input, decode, read, 0;
    }

    /** Skip blanks and look at the next character; NUL at the end. */
    method Peek() returns (c: char)
      requires Valid()
      modifies this
      ensures Valid() && position >= old(position)
      ensures bytes[..] == old(bytes[..])
      ensures Unread() == Blank(old(Unread()))
      ensures c == if Unread() == "" then '\0' else Unread()[0]
    {
      hide Blank;
      ghost var all := bytes[..];
      while position < bytes.Length && IsBlank(bytes[position])
        invariant old(position) <= position <= bytes.Length
        invariant Blank(all[position..]) == Blank(all[old(position)..])
      {
        BlankStep(all, position);
        position := position + 1;
      }
      assert Unread() == all[position..] && old(Unread()) == all[old(position)..];
      BlankStops(Unread());
      return if position < bytes.Length then bytes[position] else '\0';
    }

    method ConsumeChar(c: char) returns (ok: bool)
      requires Valid()
      modifies this
      ensures Valid() && position >= old(position)
      ensures bytes[..] == old(bytes[..])
      ensures ok <==> Consume(old(Unread()), c).Some?
      ensures Unread() == if ok then Consume(old(Unread()), c).value else Blank(old(Unread()))
      ensures ok ==> position > old(position)
    {
      var next := Peek();
      if next != c || position == bytes.Length {
        return false;
      }
      assert bytes[position..][1..] == bytes[position + 1..];
      position := position + 1;
      return true;
    }

    method End() returns (ended: bool)
      requires Valid()
      modifies this
      ensures Valid() && position >= old(position)
      ensures bytes[..] == old(bytes[..])
      ensures ended <==> Blank(old(Unread())) == ""
    {
      var _ := Peek();
      return position == bytes.Length;
    }

    method ReadLiteral(word: string) returns (ok: bool)
      requires Valid()
      modifies this
      ensures Valid() && position >= old(position)
      ensures bytes[..] == old(bytes[..])
      ensures ok <==> word <= old(Unread())
      ensures Unread() == if ok then old(Unread())[|word|..] else old(Unread())
    {
      if |word| > bytes.Length - position || bytes[position..position + |word|] != word {
        return false;
      }
      assert old(Unread())[..|word|] == bytes[position..position + |word|];
      position := position + |word|;
      return true;
    }

    method Digits()
      requires Valid()
      modifies this
      ensures Valid() && position == old(position) + DigitRun(old(Unread()))
      ensures bytes[..] == old(bytes[..])
    {
      while position < bytes.Length && '0' <= bytes[position] <= '9'
        invariant old(position) <= position <= bytes.Length
        invariant position + DigitRun(bytes[position..]) == old(position) + DigitRun(old(Unread()))
      {
        assert bytes[position..][1..] == bytes[position + 1..];
        position := position + 1;
      }
      assert position < bytes.Length ==> bytes[position..][0] == bytes[position];
    }

    /** The longest run a number may have, which the reader must accept as a whole. */
    method ReadNumber() returns (ok: bool, bits: nat)
      requires Valid()
      modifies this
      ensures Valid() && position >= old(position)
      ensures bytes[..] == old(bytes[..])
      ensures var t := Blank(old(Unread()));
          Unread() == t[NumberRun(t)..]
          && (ok <==> NumberAt(read, t).Some?) && (ok ==> bits == NumberAt(read, t).value)
    {
      hide Blank, NumberRun, Convert;
      var _ := Peek();
      var first := position;
      ghost var all := bytes[..];
      assert Unread() == all[first..];
      ghost var n := NumberRun(all[first..]);
      SkipNumber();
      Suffix(all, first, n);
      var lexeme := bytes[first..position];
      assert lexeme == all[first..position];
      assert Unread() == all[position..];
      var parsed := Convert(read, lexeme);
      return parsed.Some?, if parsed.Some? then parsed.value else 0;
    }

    method SkipNumber()
      requires Valid()
      modifies this
      ensures Valid() && position == old(position) + NumberRun(old(Unread()))
      ensures bytes[..] == old(bytes[..])
    {
      hide WholeRun, FractionRun, ExponentRun;
      var first := position;
      ghost var all, t := bytes[..], Unread();
      assert t == all[first..];
      WholePart();
      ghost var whole := WholeRun(t);
      assert Unread() == all[position..] == t[whole..] by { Suffix(all, first, whole); }
      FractionPart();
      ghost var point := whole + FractionRun(t[whole..]);
      assert Unread() == all[position..] == t[point..] by { Suffix(all, first, point); }
      ExponentPart();
    }

    method WholePart()
      requires Valid()
      modifies this
      ensures Valid() && position == old(position) + WholeRun(old(Unread()))
      ensures bytes[..] == old(bytes[..])
    {
      hide DigitRun;
      ghost var s := Unread();
      var sign := Take('-', '-');
      assert s[SignRun(s, false)..] == Unread();
      Digits();
    }

    method FractionPart()
      requires Valid()
      modifies this
      ensures Valid() && position == old(position) + FractionRun(old(Unread()))
      ensures bytes[..] == old(bytes[..])
    {
      hide DigitRun;
      ghost var s := Unread();
      var dot := Take('.', '.');
      if dot {
        assert s[1..] == Unread();
        Digits();
      }
    }

    method ExponentPart()
      requires Valid()
      modifies this
      ensures Valid() && position == old(position) + ExponentRun(old(Unread()))
      ensures bytes[..] == old(bytes[..])
    {
      hide DigitRun;
      ghost var s := Unread();
      var e := Take('e', 'E');
      if e {
        assert s[1..] == Unread();
        var sign := Take('-', '+');
        assert s[1 + SignRun(s[1..], true)..] == Unread();
        Digits();
      }
    }

    method Take(a: char, b: char) returns (ok: bool)
      requires Valid()
      modifies this
      ensures Valid() && position == old(position) + (if ok then 1 else 0)
      ensures bytes[..] == old(bytes[..])
      ensures ok <==> old(Unread()) != "" && (old(Unread())[0] == a || old(Unread())[0] == b)
    {
      if position < bytes.Length && (bytes[position] == a || bytes[position] == b) {
        position := position + 1;
        return true;
      }
      return false;
    }

    /** Decode a string where it stands: the text is never longer than what it replaces, so nothing
      * before the opening quote and nothing unread is touched, and a terminator fits behind it. */
    method ReadString() returns (ok: bool, text: View)
      requires Valid()
      modifies this, bytes
      ensures Valid() && position >= old(position)
      ensures Same(old(bytes[..]), bytes[..], old(position), position)
      ensures !decode ==> bytes[..] == old(bytes[..])
      ensures ok <==> StringToken(old(Unread())).Some?
      ensures ok ==> Unread() == StringToken(old(Unread())).value.rest && text.start >= old(position)
      ensures ok && decode ==> IsView(text, StringToken(old(Unread())).value.text)
    {
      hide StringBody, Same;
      ghost var before, p0 := bytes[..], position;
      ok := ConsumeChar('"');
      SameItself(before, p0, position);
      if !ok {
        return false, View(0, 0);
      }
      ghost var p1 := position;
      ok, text := DecodeBody();
      SameTransitive(before, before, bytes[..], p0, p1, position);
    }

    /** The bytes of a decoded piece, terminated, all of it already read. */
    ghost predicate IsView(view: View, text: string)
      reads this, bytes
      requires Valid()
    {
      && view.size == |text| && view.start + view.size < position
      && bytes[view.start..view.start + view.size] == text && bytes[view.start + view.size] == '\0'
    }

    /** What follows an opening quote. */
    method DecodeBody() returns (ok: bool, text: View)
      requires Valid()
      modifies this, bytes
      ensures Valid() && position >= old(position)
      ensures Same(old(bytes[..]), bytes[..], old(position), position)
      ensures !decode ==> bytes[..] == old(bytes[..])
      ensures ok <==> StringBody(old(Unread())).Some?
      ensures ok ==> Unread() == StringBody(old(Unread())).value.rest && text.start >= old(position)
      ensures ok && decode ==> IsView(text, StringBody(old(Unread())).value.text)
    {
      hide StringBody, Decode, Prepend, Decoding;
      ok, text := false, View(0, 0);
      ghost var before := bytes[..];
      var first := position;
      assert Unread() == before[first..];
      SkipPlain();
      var written: nat := position;
      ghost var done := before[first..position];
      assert Decoding(before, first, written, done) by { StartsDecoding(before, first); }
      while position < bytes.Length && bytes[position] != '"'
        invariant Valid() && written <= position && first <= position && Decoding(before, first, written, done)
        decreases bytes.Length - position
      {
        ghost var unit;
        ok, written, unit := DecodeUnit(before, first, written, done);
        if !ok {
          return;
        }
        done := done + unit;
      }
      ok, text := Close(before, first, written, done);
    }

    /** Part of the body is decoded to done; the rest is as it was. */
    ghost predicate Decoding(before: string, first: nat, written: nat, done: string)
      reads this, bytes
      requires Valid()
    {
      && first <= written <= position && |done| == written - first && |before| == bytes.Length
      && bytes[..first] == before[..first] && bytes[position..] == before[position..]
      && (if decode then bytes[first..written] == done else bytes[..] == before)
      && StringBody(before[first..]) == Prepend(done, StringBody(before[position..]))
    }

    lemma StartsDecoding(before: string, first: nat)
      requires Valid() && first <= position && bytes[..] == before
      requires StringBody(before[first..]) == Prepend(before[first..position], StringBody(before[position..]))
      ensures Decoding(before, first, position, before[first..position])
    {}

    /** The common case moves nothing. */
    method SkipPlain()
      requires Valid()
      modifies this
      ensures Valid() && position >= old(position) && bytes[..] == old(bytes[..])
      ensures StringBody(old(Unread())) == Prepend(bytes[old(position)..position], StringBody(Unread()))
    {
      hide StringBody, Prepend;
      ghost var all := bytes[..];
      var first := position;
      assert all[first..first] == "";
      PrependNothing(StringBody(all[first..]));
      while position < bytes.Length && bytes[position] != '"' && bytes[position] != '\\'
        invariant first <= position <= bytes.Length
        invariant StringBody(all[first..]) == Prepend(all[first..position], StringBody(all[position..]))
      {
        PlainStep(all, first, position);
        position := position + 1;
      }
      assert bytes[..] == all;
      assert Unread() == all[position..] && bytes[first..position] == all[first..position];
    }

    method DecodeUnit(ghost before: string, first: nat, at: nat, ghost done: string)
      returns (ok: bool, written: nat, ghost unit: string)
      requires Valid() && position < bytes.Length && bytes[position] != '"' && Decoding(before, first, at, done)
      modifies this, bytes
      ensures Valid() && position > old(position)
      ensures bytes[..first] == before[..first] && bytes[position..] == before[position..]
      ensures !decode ==> bytes[..] == before
      ensures if ok then written <= position && Decoding(before, first, written, done + unit)
              else StringBody(before[first..]).None?
    {
      hide StringBody, Decode;
      ghost var p := position;
      assert Unread() == before[p..] && before[p] == before[p..][0] == bytes[p];
      BodyFails(before, p, done);
      var text;
      ok, text := ReadUnit();
      unit := text;
      written := at;
      assert bytes[p..] == before[p..];
      assert bytes[position..] == bytes[p..][position - p..] == before[p..][position - p..] == before[position..];
      if !ok {
        return;
      }
      UnitStep(before, p, done);
      Emit(at, text);
      written := at + |text|;
      Adjacent(bytes[..], first, at, written);
    }

    method Close(ghost before: string, first: nat, written: nat, ghost done: string) returns (ok: bool, text: View)
      requires Valid() && (position < bytes.Length ==> bytes[position] == '"') && Decoding(before, first, written, done)
      modifies this, bytes
      ensures Valid() && position >= old(position)
      ensures bytes[..first] == before[..first] && bytes[position..] == before[position..]
      ensures !decode ==> bytes[..] == before
      ensures ok <==> StringBody(before[first..]).Some?
      ensures ok ==> Unread() == StringBody(before[first..]).value.rest && text.start == first
      ensures ok && decode ==> IsView(text, StringBody(before[first..]).value.text)
    {
      hide StringBody;
      BodyEnds(before, position, done);
      if position == bytes.Length {
        return false, View(0, 0);
      }
      assert bytes[position..][0] == before[position..][0];
      position := position + 1;
      if decode {
        bytes[written] := '\0';
      }
      return true, View(first, written - first);
    }

    /** A key and its colon. */
    method ReadKey(braces: bool) returns (ok: bool, key: View)
      requires Valid()
      modifies this, bytes
      ensures Valid() && position >= old(position)
      ensures Same(old(bytes[..]), bytes[..], old(position), position)
      ensures !decode ==> bytes[..] == old(bytes[..])
      ensures ok <==> KeyPart(braces, old(Unread())).Some?
      ensures ok ==> Unread() == KeyPart(braces, old(Unread())).value.rest
      ensures ok && decode ==> IsText(bytes[..position], key, KeyPart(braces, old(Unread())).value.text)
    {
      hide StringToken, Consume;
      ok, key := true, View(0, 0);
      if braces {
        ok, key := ReadString();
        if ok {
          ghost var start, middle, p := old(bytes[..]), bytes[..], position;
          ok := ConsumeChar(':');
          if decode {
            ViewInPrefix(middle, key, p, position, StringToken(old(Unread())).value.text);
          }
          SameFurther(start, middle, old(position), p, position);
        }
      }
    }

    /** Pass over one value without keeping it. */
    method Skip(depth: nat) returns (ok: bool)
      requires Valid() && depth <= DEPTH_LIMIT
      modifies this, bytes
      ensures Valid() && position >= old(position)
      ensures Same(old(bytes[..]), bytes[..], old(position), position)
      ensures !decode ==> bytes[..] == old(bytes[..])
      ensures ok <==> Fits(ParseValue(read, old(Unread())), depth)
      ensures ok ==> Unread() == ParseValue(read, old(Unread())).value.rest
      decreases DEPTH_LIMIT - depth, 1
    {
      hide Same, ParseScalar, ParseContainer, Blank;
      if depth == DEPTH_LIMIT {
        SameItself(bytes[..], position, position);
        return false;
      }
      ghost var before, p0 := bytes[..], position;
      var token := Peek();
      SameItself(before, p0, position);
      if position == bytes.Length {
        return false;
      }
      ghost var t, p1 := Unread(), position;
      if token != '{' && token != '[' {
        ok := SkipScalar();
        SameTransitive(before, before, bytes[..], p0, p1, position);
        return;
      }
      position := position + 1;
      assert Unread() == t[1..] && bytes[..] == before;
      SameItself(before, p0, position);
      p1 := position;
      ok := SkipContainer(depth, token == '{');
      SameTransitive(before, before, bytes[..], p0, p1, position);
    }

    method SkipScalar() returns (ok: bool)
      requires Valid() && Unread() != "" && !IsBlank(Unread()[0])
      modifies this, bytes
      ensures Valid() && position >= old(position)
      ensures Same(old(bytes[..]), bytes[..], old(position), position)
      ensures !decode ==> bytes[..] == old(bytes[..])
      ensures ok <==> ParseScalar(read, old(Unread())).Some?
      ensures ok ==> Unread() == ParseScalar(read, old(Unread())).value.rest
    {
      hide Same, StringBody, NumberRun, NumberAt;
      ghost var before := bytes[..];
      SameItself(before, position, position);
      BlankStops(Unread());
      var token := bytes[position];
      assert Unread()[0] == token;
      if token == '"' {
        var text;
        ok, text := ReadString();
        return;
      } else if StartsNumber(token) {
        var bits;
        ok, bits := ReadNumber();
      } else if token == 't' {
        ok := ReadLiteral("true");
      } else if token == 'f' {
        ok := ReadLiteral("false");
      } else {
        ok := ReadLiteral("null");
      }
      SameItself(before, old(position), position);
    }

    method SkipContainer(depth: nat, braces: bool) returns (ok: bool)
      requires Valid() && depth < DEPTH_LIMIT
      modifies this, bytes
      ensures Valid() && position >= old(position)
      ensures Same(old(bytes[..]), bytes[..], old(position), position)
      ensures !decode ==> bytes[..] == old(bytes[..])
      ensures ok <==> Fits(ParseContainer(read, braces, old(Unread())), depth)
      ensures ok ==> Unread() == ParseContainer(read, braces, old(Unread())).value.rest
      decreases DEPTH_LIMIT - depth, 0
    {
      hide Same, ParseValue, ParseRest, KeyPart, Consume, ParseContainer, Container;
      ghost var before, p0, whole := bytes[..], position, ParseContainer(read, braces, Unread());
      ghost var keys: seq<string>, values: seq<Json>, h: nat := [], [], 0;
      ContainerRest(read, braces, Unread());
      RestBlank(read, braces, Unread(), keys, values, h);
      ok := ConsumeChar(Closing(braces));
      SameItself(before, p0, position);
      if ok {
        return;
      }
      ok := true;
      while ok
        invariant p0 <= position <= bytes.Length && Same(before, bytes[..], p0, position)
        invariant !decode ==> bytes[..] == before
        invariant |keys| == |values| && depth + h < DEPTH_LIMIT
        invariant ok ==> whole == ParseRest(read, braces, Unread(), keys, values, h)
        invariant !ok ==> Fits(whole, depth) && Unread() == whole.value.rest
        decreases ok, bytes.Length - position
      {
        ghost var now, p, s := bytes[..], position, Unread();
        RestStep(read, braces, s, keys, values, h);
        if whole.Some? {
          RestDeeper(read, braces, s, keys, values, h);
        }
        var good;
        good, ok := SkipNext(depth, braces);
        SameTransitive(before, now, bytes[..], p0, p, position);
        if !good {
          return false;
        }
        ghost var part := KeyPart(braces, s).value;
        ghost var v := ParseValue(read, part.rest).value;
        keys, values, h := keys + [part.text], values + [v.value], Max(h, v.height);
      }
      ok := true;
    }

    /** An element and what separates it from the next. */
    method SkipNext(depth: nat, braces: bool) returns (ok: bool, more: bool)
      requires Valid() && depth < DEPTH_LIMIT
      modifies this, bytes
      ensures Valid() && position >= old(position)
      ensures Same(old(bytes[..]), bytes[..], old(position), position)
      ensures !decode ==> bytes[..] == old(bytes[..])
      ensures ok <==>
              KeyPart(braces, old(Unread())).Some?
                  && Fits(ParseValue(read, KeyPart(braces, old(Unread())).value.rest), depth + 1)
                      && var rest := ParseValue(read, KeyPart(braces, old(Unread())).value.rest).value.rest;
                         Consume(rest, Closing(braces)).Some? || Consume(rest, ',').Some?
      ensures ok ==> var rest := ParseValue(read, KeyPart(braces, old(Unread())).value.rest).value.rest;
                     (more <==> Consume(rest, Closing(braces)).None?)
                     && Unread() == Consume(rest, if more then ',' else Closing(braces)).value
      ensures ok ==> position > old(position)
      decreases DEPTH_LIMIT - depth - 1, 3
    {
      hide Same, ParseValue, KeyPart, Consume, Closing;
      ghost var before, p0 := bytes[..], position;
      ok := SkipElement(depth, braces);
      more := false;
      if ok {
        ghost var middle, p1 := bytes[..], position;
        ok, more := Separator(braces);
        SameFurther(before, middle, p0, p1, position);
      }
    }

    method SkipElement(depth: nat, braces: bool) returns (ok: bool)
      requires Valid() && depth < DEPTH_LIMIT
      modifies this, bytes
      ensures Valid() && position >= old(position)
      ensures Same(old(bytes[..]), bytes[..], old(position), position)
      ensures !decode ==> bytes[..] == old(bytes[..])
      ensures ok <==>
              KeyPart(braces, old(Unread())).Some?
                  && Fits(ParseValue(read, KeyPart(braces, old(Unread())).value.rest), depth + 1)
      ensures ok ==>
              Unread() == ParseValue(read, KeyPart(braces, old(Unread())).value.rest).value.rest
                  && position > old(position)
      decreases DEPTH_LIMIT - depth - 1, 2
    {
      hide Same, ParseValue, KeyPart;
      ghost var before, p0, s := bytes[..], position, Unread();
      var key;
      ok, key := ReadKey(braces);
      if ok {
        ghost var middle, p1 := bytes[..], position;
        ok := Skip(depth + 1);
        SameTransitive(before, middle, bytes[..], p0, p1, position);
      }
    }

    /** The closing bracket, or a comma and more to come. */
    method Separator(braces: bool) returns (ok: bool, more: bool)
      requires Valid()
      modifies this
      ensures Valid() && position >= old(position) && bytes[..] == old(bytes[..])
      ensures ok <==> Consume(old(Unread()), Closing(braces)).Some? || Consume(old(Unread()), ',').Some?
      ensures more <==> ok && Consume(old(Unread()), Closing(braces)).None?
      ensures ok ==> Unread() == Consume(old(Unread()), if more then ',' else Closing(braces)).value
    {
      hide Consume;
      ConsumeBlank(Unread(), ',');
      var close := ConsumeChar(Closing(braces));
      if close {
        return true, false;
      }
      ok := ConsumeChar(',');
      more := ok;
    }

    /** One character or escape of a string, decoded. */
    method ReadUnit() returns (ok: bool, unit: string)
      requires Valid() && position < bytes.Length && bytes[position] != '"'
      modifies this
      ensures Valid() && position > old(position)
      ensures bytes[..] == old(bytes[..])
      ensures ok <==> Decode(old(Unread())).Some?
      ensures ok ==>
              unit == Decode(old(Unread())).value.text && position == old(position) + Decode(old(Unread())).value.length
    {
      ghost var s := Unread();
      var c := bytes[position];
      assert s[0] == c;
      position := position + 1;
      ok, unit := false, "";
      if c != '\\' {
        return true, [c];
      }
      if position == bytes.Length {
        return;
      }
      assert s[1] == bytes[position];
      c := bytes[position];
      position := position + 1;
      if c == 'u' {
        if bytes.Length - position < 4 {
          return;
        }
        var code: nat := 0;
        ghost var hex := s[2..6];
        var i := 0;
        while i < 4
          invariant 0 <= i <= 4 && position == old(position) + 2 + i
          invariant forall k :: 0 <= k < i ==> IsHex(hex[k])
          invariant code == HexPrefix(hex, i)
        {
          var digit := bytes[position];
          assert digit == hex[i];
          position := position + 1;
          if !IsHex(digit) {
            return;
          }
          code := code * 16 + HexValue(digit);
          i := i + 1;
        }
        HexPrefixAll(hex);
        return true, UnitBytes(code);
      }
      var simple := SimpleEscape(c);
      if simple.Some? {
        return true, [simple.value];
      }
    }

    /** Overwrite decoded characters; the validating cursor only counts them. */
    method Emit(at: nat, unit: string)
      requires Valid() && at + |unit| <= position
      modifies bytes
      ensures bytes[..at] == old(bytes[..at]) && bytes[at + |unit|..] == old(bytes[at + |unit|..])
      ensures if decode then bytes[at..at + |unit|] == unit else bytes[..] == old(bytes[..])
    {
      if decode {
        var i := 0;
        while i < |unit|
          invariant 0 <= i <= |unit| && bytes[at..at + i] == unit[..i]
          invariant bytes[..at] == old(bytes[..at]) && bytes[at + |unit|..] == old(bytes[at + |unit|..])
        {
          bytes[at + i] := unit[i];
          i := i + 1;
        }
      }
    }
  }

  lemma BlankStep(s: string, p: nat)
    requires p < |s| && IsBlank(s[p])
    ensures Blank(s[p..]) == Blank(s[p + 1..])
  {
    assert s[p..][0] == s[p] && s[p..][1..] == s[p + 1..];
  }

  /** A suffix of a suffix. */
  lemma Suffix(s: string, i: nat, j: nat)
    requires i + j <= |s|
    ensures s[i..][j..] == s[i + j..] && s[i..][..j] == s[i..i + j]
  {}

  lemma Adjacent(s: string, a: nat, b: nat, c: nat)
    ensures a <= b <= c <= |s| ==> s[a..c] == s[a..b] + s[b..c]
  {}

  predicate IsText(bytes: string, view: View, text: string) {
    view.start + view.size <= |bytes| && bytes[view.start..view.start + view.size] == text
  }

  lemma ViewInPrefix(bytes: string, view: View, read: nat, position: nat, text: string)
    requires read <= position <= |bytes| && view.size == |text| && view.start + view.size < read
    requires bytes[view.start..view.start + view.size] == text
    ensures IsText(bytes[..position], view, text)
  {
    assert bytes[..position][view.start..view.start + view.size] == bytes[view.start..view.start + view.size];
  }

  /** Equal outside a range. */
  predicate Same(a: string, b: string, from: nat, to: nat) {
    |a| == |b| && from <= to <= |a| && a[..from] == b[..from] && a[to..] == b[to..]
  }

  lemma SameTransitive(a: string, b: string, c: string, from: nat, middle: nat, to: nat)
    requires Same(a, b, from, middle) && Same(b, c, middle, to)
    ensures Same(a, c, from, to)
  {
    assert a[..from] == b[..from] == b[..middle][..from] == c[..middle][..from] == c[..from];
    assert a[to..] == a[middle..][to - middle..] == b[middle..][to - middle..] == b[to..] == c[to..];
  }

  lemma SameFurther(a: string, b: string, from: nat, middle: nat, to: nat)
    requires Same(a, b, from, middle) && middle <= to <= |a|
    ensures Same(a, b, from, to)
  {
    SameTransitive(a, b, b, from, middle, to);
  }

  lemma SameItself(a: string, from: nat, to: nat)
    requires from <= to <= |a|
    ensures Same(a, a, from, to)
  {}

  function HexPrefix(s: string, i: nat): nat
    requires i <= |s| <= 4 && forall k :: 0 <= k < i ==> IsHex(s[k])
  {
    if i == 0 then 0 else HexPrefix(s, i - 1) * 16 + HexValue(s[i - 1])
  }

  lemma HexPrefixAll(s: string)
    requires |s| == 4 && forall k :: 0 <= k < 4 ==> IsHex(s[k])
    ensures HexPrefix(s, 4) == HexCode(s)
  {
    assert HexPrefix(s, 1) == HexValue(s[0]);
    assert HexPrefix(s, 2) == HexValue(s[0]) * 16 + HexValue(s[1]);
    assert HexPrefix(s, 3) == HexValue(s[0]) * 256 + HexValue(s[1]) * 16 + HexValue(s[2]);
  }

  lemma {:induction false} UnitStep(s: string, p: nat, done: string)
    requires p < |s| && s[p] != '"' && Decode(s[p..]).Some?
    ensures var d := Decode(s[p..]).value;
            p + d.length <= |s| &&
            Prepend(done, StringBody(s[p..])) == Prepend(done + d.text, StringBody(s[p + d.length..]))
  {
    var d := Decode(s[p..]).value;
    assert s[p..][d.length..] == s[p + d.length..];
    var rest := StringBody(s[p + d.length..]);
    if rest.Some? {
      assert done + (d.text + rest.value.text) == done + d.text + rest.value.text;
    }
  }

  lemma BodyFails(s: string, p: nat, done: string)
    requires p < |s| && s[p] != '"'
    ensures Decode(s[p..]).None? ==> Prepend(done, StringBody(s[p..])).None?
  {}

  lemma BodyEnds(s: string, p: nat, done: string)
    requires p <= |s|
    ensures p == |s| ==> Prepend(done, StringBody(s[p..])).None?
    ensures p < |s| && s[p] == '"' ==> Prepend(done, StringBody(s[p..])) == Some(Quoted(done, s[p + 1..]))
  {
    if p < |s| && s[p] == '"' {
      assert s[p..][1..] == s[p + 1..] && done + "" == done;
    }
  }

  lemma PrependNothing(q: Option<Quoted>)
    ensures Prepend("", q) == q
  {
    if q.Some? {
      assert "" + q.value.text == q.value.text;
    }
  }

  lemma PlainStep(s: string, first: nat, p: nat)
    requires first <= p < |s| && s[p] != '"' && s[p] != '\\'
    ensures Prepend(s[first..p], StringBody(s[p..])) == Prepend(s[first..p + 1], StringBody(s[p + 1..]))
  {
    hide StringBody;
    assert s[p..][0] == s[p];
    assert Decode(s[p..]) == Some(Decoded([s[p]], 1));
    UnitStep(s, p, s[first..p]);
    hide Prepend;
    assert s[first..p] + [s[p]] == s[first..p + 1];
  }
}
