/** Counting tokens before anything is parsed: the count bounds the nodes of every accepted text. */
module JsonLexical {
  import opened Options
  import opened DecimalText
  import opened JsonGrammar

  predicate StartsWord(c: char) { StartsNumber(c) || c == 't' || c == 'f' || c == 'n' }

  predicate IsDelimiter(c: char) {
    c == ',' || c == ']' || c == '}' || c == ':' || IsBlank(c) || c == '"' || c == '[' || c == '{'
  }

  /** The text after a quoted string whose opening quote has been passed. */
  function AfterQuote(s: string): (r: string)
    ensures |r| <= |s|
  {
    if s == "" then ""
    else if s[0] == '"' then s[1..]
    else if s[0] == '\\' && |s| > 1 then AfterQuote(s[2..])
    else AfterQuote(s[1..])
  }

  function AfterWord(s: string): (r: string)
    ensures |r| <= |s|
  {
    if s == "" || IsDelimiter(s[0]) then s else AfterWord(s[1..])
  }

  /** Opening brackets, strings and words. */
  function TokenCount(s: string): nat
    decreases |s|
  {
    if s == "" then 0
    else if s[0] == '{' || s[0] == '[' then 1 + TokenCount(s[1..])
    else if s[0] == '"' then 1 + TokenCount(AfterQuote(s[1..]))
    else if StartsWord(s[0]) then 1 + TokenCount(AfterWord(s[1..]))
    else TokenCount(s[1..])
  }

  method CountTokens(input: string) returns (count: nat)
    ensures count == TokenCount(input)
  {
    hide AfterQuote, AfterWord;
    count := 0;
    var i := 0;
    assert input[0..] == input;
    while i < |input|
      invariant 0 <= i <= |input| && count + TokenCount(input[i..]) == TokenCount(input)
      decreases |input| - i
    {
      var c := input[i];
      ghost var s := input[i..];
      assert s[0] == c && s[1..] == input[i + 1..];
      i := i + 1;
      if c == '{' || c == '[' {
        count := count + 1;
      } else if c == '"' {
        count := count + 1;
        i := PassQuote(input, i);
      } else if StartsWord(c) {
        count := count + 1;
        i := PassWord(input, i);
      }
    }
  }

  method PassQuote(input: string, first: nat) returns (i: nat)
    requires first <= |input|
    ensures first <= i <= |input| && input[i..] == AfterQuote(input[first..])
  {
    i := first;
    while i < |input|
      invariant first <= i <= |input| && AfterQuote(input[i..]) == AfterQuote(input[first..])
    {
      var next := input[i];
      QuoteStep(input, i);
      i := i + 1;
      if next == '"' {
        return;
      }
      if next == '\\' && i < |input| {
        i := i + 1;
      }
    }
  }

  lemma {:induction false} QuoteStep(s: string, i: nat)
    requires i < |s|
    ensures AfterQuote(s[i..]) == if s[i] == '"' then s[i + 1..]
                                  else if s[i] == '\\' && i + 1 < |s| then AfterQuote(s[i + 2..])
                                  else AfterQuote(s[i + 1..])
  {
    assert s[i..][0] == s[i] && s[i..][1..] == s[i + 1..];
    if i + 1 < |s| {
      assert s[i..][2..] == s[i + 2..];
    }
  }

  method PassWord(input: string, first: nat) returns (i: nat)
    requires first <= |input|
    ensures first <= i <= |input| && input[i..] == AfterWord(input[first..])
  {
    i := first;
    while i < |input| && !IsDelimiter(input[i])
      invariant first <= i <= |input| && AfterWord(input[i..]) == AfterWord(input[first..])
    {
      assert input[i..][0] == input[i] && input[i..][1..] == input[i + 1..];
      i := i + 1;
    }
    assert i < |input| ==> input[i..][0] == input[i];
  }

  // ---- the count along a parse -----------------------------------------------------------

  lemma {:induction false} CountBlank(s: string)
    ensures TokenCount(Blank(s)) == TokenCount(s)
  {
    hide TokenCount, Blank;
    if s != "" && IsBlank(s[0]) {
      CountBlank(s[1..]);
      OneBlank(s);
      BlankGoesOn(s);
    } else {
      BlankStops(s);
    }
  }

  lemma {:induction false} OneBlank(s: string)
    requires s != "" && IsBlank(s[0])
    ensures TokenCount(s) == TokenCount(s[1..])
  {
    hide AfterQuote, AfterWord, Blank;
  }

  lemma {:induction false} CountConsume(s: string, c: char)
    requires Consume(s, c).Some? && (c == ':' || c == ',' || c == ']' || c == '}')
    ensures TokenCount(Consume(s, c).value) == TokenCount(s)
    ensures c != ':' && s != "" ==> Delimited(s)
  {
    CountBlank(s);
  }

  lemma {:induction false} StringEnds(s: string)
    requires StringBody(s).Some?
    ensures AfterQuote(s) == StringBody(s).value.rest
    decreases |s|
  {
    if s[0] != '"' {
      var n := Decode(s).value.length;
      StringEnds(s[n..]);
      if s[0] == '\\' && s[1] == 'u' {
        HexPlain(s);
      }
    }
  }

  lemma {:induction false} HexPlain(s: string)
    requires |s| >= 6 && s[0] == '\\' && IsHex(s[2]) && IsHex(s[3]) && IsHex(s[4]) && IsHex(s[5])
    ensures AfterQuote(s) == AfterQuote(s[6..])
  {
    QuoteStep(s, 2);
    QuoteStep(s, 3);
    QuoteStep(s, 4);
    QuoteStep(s, 5);
  }

  lemma CountString(s: string)
    requires StringToken(s).Some?
    ensures TokenCount(s) == 1 + TokenCount(StringToken(s).value.rest)
  {
    hide AfterQuote, StringBody;
    CountBlank(s);
    StringEnds(Blank(s)[1..]);
  }

  /** At the end, or before a character that ends a word. */
  predicate Delimited(s: string) { s == "" || IsDelimiter(s[0]) }

  lemma {:induction false} WordEnds(s: string, n: nat)
    requires n <= |s| && (forall i :: 0 <= i < n ==> !IsDelimiter(s[i])) && Delimited(s[n..])
    ensures AfterWord(s) == s[n..]
  {
    if n > 0 {
      assert s[1..][n - 1..] == s[n..];
      WordEnds(s[1..], n - 1);
    }
  }

  lemma CountWord(s: string, n: nat)
    requires 0 < n <= |s| && StartsWord(s[0]) && (forall i :: 0 <= i < n ==> !IsDelimiter(s[i])) && Delimited(s[n..])
    ensures TokenCount(s) == 1 + TokenCount(s[n..])
  {
    assert s[1..][n - 1..] == s[n..];
    WordEnds(s[1..], n - 1);
  }

  lemma {:induction false} NumberPlain(s: string)
    ensures forall i :: 0 <= i < NumberRun(s) ==> !IsDelimiter(s[i])
  {
    hide DigitRun;
    var w := WholeRun(s);
    WholePlain(s);
    FractionPlain(s[w..]);
    var p := w + FractionRun(s[w..]);
    ExponentPlain(s[p..]);
    forall i | 0 <= i < NumberRun(s)
      ensures !IsDelimiter(s[i])
    {
      if w <= i < p {
        assert s[i] == s[w..][i - w];
      } else if p <= i {
        assert s[i] == s[p..][i - p];
      }
    }
  }

  lemma DigitsPlain(s: string, from: nat)
    requires from <= |s|
    ensures forall i :: from <= i < from + DigitRun(s[from..]) ==> !IsDelimiter(s[i])
  {
    hide DigitRun;
    var n := DigitRun(s[from..]);
    forall i | from <= i < from + n
      ensures !IsDelimiter(s[i])
    {
      assert s[from..][..n][i - from] == s[i];
    }
  }

  lemma WholePlain(s: string)
    ensures forall i :: 0 <= i < WholeRun(s) ==> !IsDelimiter(s[i])
  {
    hide DigitRun;
    DigitsPlain(s, SignRun(s, false));
  }

  lemma FractionPlain(s: string)
    ensures forall i :: 0 <= i < FractionRun(s) ==> !IsDelimiter(s[i])
  {
    hide DigitRun;
    if s != "" {
      DigitsPlain(s, 1);
    }
  }

  lemma ExponentPlain(s: string)
    ensures forall i :: 0 <= i < ExponentRun(s) ==> !IsDelimiter(s[i])
  {
    hide DigitRun;
    if s != "" {
      var sign := 1 + SignRun(s[1..], true);
      DigitsPlain(s, sign);
      assert |s| > 1 ==> s[1..][0] == s[1];
    }
  }

  lemma CountLiteral(t: string, word: string)
    requires word <= t && (word == "true" || word == "false" || word == "null") && Delimited(t[|word|..])
    ensures TokenCount(t) == 1 + TokenCount(t[|word|..])
  {
    hide TokenCount;
    assert forall i :: 0 <= i < |word| ==> t[i] == word[i];
    CountWord(t, |word|);
  }

  /** A scalar is one token. */
  lemma CountScalar(read: Reader, t: string)
    requires t != "" && t[0] != '{' && t[0] != '[' && ParseScalar(read, t).Some?
    ensures TokenCount(t) >= 1
    ensures var rest := ParseScalar(read, t).value.rest; Delimited(rest) ==> TokenCount(t) == 1 + TokenCount(rest)
  {
    hide AfterWord, NumberRun, NumberAt, StringBody, AfterQuote;
    var rest := ParseScalar(read, t).value.rest;
    if t[0] == '"' {
      StringEnds(t[1..]);
    } else if Delimited(rest) {
      if StartsNumber(t[0]) {
        NumberPlain(t);
        CountWord(t, NumberRun(t));
      } else {
        hide TokenCount;
        CountLiteral(t, if t[0] == 't' then "true" else if t[0] == 'f' then "false" else "null");
      }
    }
  }

  /** No value without a token. */
  lemma ValueHasToken(read: Reader, s: string)
    requires ParseValue(read, s).Some?
    ensures TokenCount(s) >= 1
  {
    hide AfterWord, NumberRun, NumberAt, StringBody, AfterQuote, ParseContainer, ParseScalar;
    CountBlank(s);
    var t := Blank(s);
    if t[0] != '{' && t[0] != '[' {
      CountScalar(read, t);
    }
  }

  // ---- no accepted text has more tokens than half its bytes ------------------------------

  lemma {:induction false} TokenTokens(read: Reader, t: string)
    requires ParseToken(read, t).Some? && Delimited(ParseToken(read, t).value.rest)
    ensures var rest := ParseToken(read, t).value.rest; 2 * TokenCount(t) <= 2 * TokenCount(rest) + |t| - |rest| + 1
    decreases |t|, 1
  {
    hide AfterQuote, AfterWord, ParseContainer, ParseScalar;
    if t[0] == '{' || t[0] == '[' {
      ContainerTokens(read, t[0] == '{', t[1..]);
    } else {
      CountScalar(read, t);
    }
  }

  lemma {:induction false} ContainerTokens(read: Reader, braces: bool, s: string)
    requires ParseContainer(read, braces, s).Some?
    ensures var rest := ParseContainer(read, braces, s).value.rest;
            2 * TokenCount(s) <= 2 * TokenCount(rest) + |s| - |rest|
    decreases |s|, 4
  {
    hide TokenCount, Consume, ParseContainer, ParseRest;
    ContainerRest(read, braces, s);
    if Consume(s, Closing(braces)).Some? {
      CountConsume(s, Closing(braces));
    } else {
      RestTokens(read, braces, s, [], [], 0);
    }
  }

  lemma {:induction false} RestTokens(read: Reader, braces: bool, s: string, keys: seq<string>, values: seq<Json>,
          height: nat)
    requires |keys| == |values| && ParseRest(read, braces, s, keys, values, height).Some?
    ensures var rest := ParseRest(read, braces, s, keys, values, height).value.rest;
            2 * TokenCount(s) <= 2 * TokenCount(rest) + |s| - |rest|
    decreases |s|, 3
  {
    hide TokenCount, Consume, ParseValue, ParseToken, ParseRest, KeyPart, Delimited, Blank;
    RestStep(read, braces, s, keys, values, height);
    KeyTokens(braces, s);
    var key := KeyPart(braces, s).value;
    var v := ParseValue(read, key.rest).value;
    var close, comma := Consume(v.rest, Closing(braces)), Consume(v.rest, ',');
    CountConsume(v.rest, if close.Some? then Closing(braces) else ',');
    CountBlank(key.rest);
    ValueIsToken(read, key.rest);
    TokenTokens(read, Blank(key.rest));
    if close.None? {
      RestTokens(read, braces, comma.value, keys + [key.text], values + [v.value], Max(height, v.height));
    }
  }

  lemma {:induction false} KeyTokens(braces: bool, s: string)
    requires KeyPart(braces, s).Some?
    ensures var rest := KeyPart(braces, s).value.rest;
            2 * TokenCount(s) <= 2 * TokenCount(rest) + |s| - |rest| && |rest| <= |s|
  {
    hide TokenCount, StringBody;
    if braces {
      CountString(s);
      CountConsume(StringToken(s).value.rest, ':');
      StringIsLong(s);
    }
  }

  lemma StringIsLong(s: string)
    requires StringToken(s).Some?
    ensures |StringToken(s).value.rest| + 2 <= |s|
  {
    hide StringBody;
  }

  lemma ValueIsToken(read: Reader, s: string)
    ensures ParseValue(read, s) == ParseToken(read, Blank(s))
  {}

  /** The node limit never refuses an accepted text. */
  lemma {:induction false} TokensAreFew(read: Reader, s: string)
    requires ParseText(read, s).Some?
    ensures TokenCount(s) <= |s| / 2 + 1
  {
    hide TokenCount, ParseToken, Blank;
    var rest := ParseText(read, s).value.rest;
    CountBlank(s);
    CountBlank(rest);
    EmptyCount();
    ValueIsToken(read, s);
    BlankDelimited(rest);
    TokenTokens(read, Blank(s));
  }

  lemma EmptyCount()
    ensures TokenCount("") == 0
  {}

  lemma BlankDelimited(s: string)
    requires Blank(s) == ""
    ensures Delimited(s)
  {}
}
