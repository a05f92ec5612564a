/** What has been read of a text stays read when more of the text arrives. */
module JsonPrefix {
  import opened Options
  import opened Text
  import opened DecimalText
  import opened JsonGrammar

  lemma {:induction false} BlankLonger(s: string, more: string)
    requires Blank(s) != ""
    ensures Blank(s + more) == Blank(s) + more
  {
    if IsBlank(s[0]) {
      assert (s + more)[1..] == s[1..] + more;
      BlankLonger(s[1..], more);
    }
  }

  lemma ConsumeLonger(s: string, c: char, more: string)
    ensures Consume(s, c).Some? ==> Consume(s + more, c) == Some(Consume(s, c).value + more)
    ensures Blank(s) != "" && Consume(s, c).None? ==> Consume(s + more, c).None?
  {
    hide Blank;
    if Blank(s) != "" {
      BlankLonger(s, more);
      assert (Blank(s) + more)[1..] == Blank(s)[1..] + more;
    }
  }

  lemma DecodeLonger(s: string, more: string)
    requires s != "" && s[0] != '"' && Decode(s).Some?
    ensures Decode(s + more) == Decode(s)
  {
    if s[0] == '\\' && s[1] == 'u' {
      assert (s + more)[2..6] == s[2..6];
    }
  }

  lemma {:induction false} BodyLonger(s: string, more: string)
    requires StringBody(s).Some?
    ensures StringBody(s + more) == Some(Quoted(StringBody(s).value.text, StringBody(s).value.rest + more))
    decreases |s|
  {
    hide Decode;
    if s[0] == '"' {
      assert (s + more)[1..] == s[1..] + more;
    } else {
      DecodeLonger(s, more);
      var n := Decode(s).value.length;
      assert (s + more)[n..] == s[n..] + more;
      BodyLonger(s[n..], more);
    }
  }

  lemma TokenLonger(s: string, more: string)
    requires StringToken(s).Some?
    ensures StringToken(s + more) == Some(Quoted(StringToken(s).value.text, StringToken(s).value.rest + more))
  {
    hide Blank, StringBody, Consume;
    ConsumeLonger(s, '"', more);
    BodyLonger(Consume(s, '"').value, more);
  }

  lemma KeyLonger(braces: bool, s: string, more: string)
    requires KeyPart(braces, s).Some?
    ensures KeyPart(braces, s + more)
            == Some(Quoted(KeyPart(braces, s).value.text, KeyPart(braces, s).value.rest + more))
  {
    hide StringToken, Consume;
    if braces {
      TokenLonger(s, more);
      ConsumeLonger(StringToken(s).value.rest, ':', more);
    }
  }

  // ---- numbers ---------------------------------------------------------------------------

  lemma {:induction false} DigitsInside(s: string, more: string)
    requires DigitRun(s) < |s|
    ensures DigitRun(s + more) == DigitRun(s)
  {
    if IsDigit(s[0]) {
      assert (s + more)[1..] == s[1..] + more;
      DigitsInside(s[1..], more);
    }
  }

  lemma WholeInside(s: string, more: string)
    requires WholeRun(s) < |s|
    ensures WholeRun(s + more) == WholeRun(s)
  {
    hide DigitRun;
    var sign := SignRun(s, false);
    assert (s + more)[sign..] == s[sign..] + more;
    DigitsInside(s[sign..], more);
  }

  lemma FractionInside(s: string, more: string)
    requires FractionRun(s) < |s|
    ensures FractionRun(s + more) == FractionRun(s)
  {
    hide DigitRun;
    if s[0] == '.' {
      assert (s + more)[1..] == s[1..] + more;
      DigitsInside(s[1..], more);
    }
  }

  lemma ExponentInside(s: string, more: string)
    requires ExponentRun(s) < |s|
    ensures ExponentRun(s + more) == ExponentRun(s)
  {
    hide DigitRun;
    if s[0] == 'e' || s[0] == 'E' {
      assert (s + more)[1..] == s[1..] + more;
      var sign := 1 + SignRun(s[1..], true);
      assert (s + more)[sign..] == s[sign..] + more;
      DigitsInside(s[sign..], more);
    }
  }

  /** A number that something follows is not lengthened by what comes later. */
  lemma NumberInside(s: string, more: string)
    requires NumberRun(s) < |s|
    ensures NumberRun(s + more) == NumberRun(s)
  {
    hide WholeRun, FractionRun, ExponentRun;
    var whole := WholeRun(s);
    var point := whole + FractionRun(s[whole..]);
    WholeInside(s, more);
    assert (s + more)[whole..] == s[whole..] + more;
    FractionInside(s[whole..], more);
    assert (s + more)[point..] == s[point..] + more;
    ExponentInside(s[point..], more);
  }

  // ---- values ----------------------------------------------------------------------------

  ghost predicate Longer(a: Option<Parsed>, b: Option<Parsed>, more: string) {
    a.Some? && a.value.rest != "" ==> b == Some(a.value.(rest := a.value.rest + more))
  }

  lemma ScalarLonger(read: Reader, t: string, more: string)
    requires t != ""
    ensures Longer(ParseScalar(read, t), ParseScalar(read, t + more), more)
  {
    hide StringBody, NumberRun;
    if ParseScalar(read, t).Some? && ParseScalar(read, t).value.rest != "" {
      var s := t + more;
      if t[0] == '"' {
        assert s[1..] == t[1..] + more;
        BodyLonger(t[1..], more);
      } else if StartsNumber(t[0]) {
        var n := NumberRun(t);
        NumberInside(t, more);
        assert s[..n] == t[..n] && s[n..] == t[n..] + more;
      } else {
        var word := if t[0] == 't' then "true" else if t[0] == 'f' then "false" else "null";
        assert s[|word|..] == t[|word|..] + more;
      }
    }
  }

  /** A value that something follows is read the same when more comes. */
  lemma {:induction false} ValueLonger(read: Reader, s: string, more: string)
    ensures Longer(ParseValue(read, s), ParseValue(read, s + more), more)
    decreases |s|, 2
  {
    hide Blank, ParseScalar, ParseContainer;
    var t := Blank(s);
    if t != "" {
      BlankLonger(s, more);
      if t[0] == '{' || t[0] == '[' {
        assert (t + more)[1..] == t[1..] + more;
        ContainerLonger(read, t[0] == '{', t[1..], more);
      } else {
        ScalarLonger(read, t, more);
      }
    }
  }

  lemma {:induction false} ContainerLonger(read: Reader, braces: bool, s: string, more: string)
    ensures Longer(ParseContainer(read, braces, s), ParseContainer(read, braces, s + more), more)
    decreases |s|, 4
  {
    hide Blank, Consume, ParseRest, Container;
    ContainerRest(read, braces, s);
    ContainerRest(read, braces, s + more);
    ConsumeLonger(s, Closing(braces), more);
    if Consume(s, Closing(braces)).None? && ParseContainer(read, braces, s).Some? {
      RestStarts(read, braces, s);
      RestLonger(read, braces, s, [], [], 0, more);
    }
  }

  lemma RestStarts(read: Reader, braces: bool, s: string)
    requires ParseRest(read, braces, s, [], [], 0).Some?
    ensures Blank(s) != ""
  {
    hide ParseRest, ParseScalar, ParseContainer;
    RestStep(read, braces, s, [], [], 0);
  }

  lemma {:induction false} RestLonger(read: Reader, braces: bool, s: string, keys: seq<string>, values: seq<Json>,
          height: nat, more: string)
    requires |keys| == |values|
    ensures Longer(ParseRest(read, braces, s, keys, values, height),
            ParseRest(read, braces, s + more, keys, values, height), more)
    decreases |s|, 3
  {
    hide ParseRest, ParseValue, KeyPart, Consume, Container, Max;
    RestStep(read, braces, s, keys, values, height);
    RestStep(read, braces, s + more, keys, values, height);
    var key := KeyPart(braces, s);
    if key.Some? {
      KeyLonger(braces, s, more);
      var v := ParseValue(read, key.value.rest);
      ValueLonger(read, key.value.rest, more);
      if v.Some? {
        var r, ks, vs := v.value.rest, keys + [key.value.text], values + [v.value.value];
        EmptyRest();
        ConsumeLonger(r, Closing(braces), more);
        ConsumeLonger(r, ',', more);
        ConsumeNeeds(r, ',');
        if Consume(r, Closing(braces)).None? && Consume(r, ',').Some? {
          RestLonger(read, braces, Consume(r, ',').value, ks, vs, Max(height, v.value.height), more);
        }
      }
    }
  }

  lemma EmptyRest()
    ensures forall c :: Consume("", c).None?
  {}

  lemma ConsumeNeeds(s: string, c: char)
    ensures Consume(s, c).Some? ==> Blank(s) != ""
  {}
}
