/** Printing what was parsed, and parsing it again. */
module JsonRoundTrip {
  import opened Options
  import opened Ordering
  import opened JsonGrammar
  import opened JsonNumber
  import opened JsonPrint

  // ---- parsed values can be printed ------------------------------------------------------

  lemma {:induction false} PutAllFacts(keys: seq<string>, values: seq<Json>)
    requires |keys| == |values|
    ensures Sorted(PutAll<Json>(keys, values))
    ensures forall m :: m in PutAll<Json>(keys, values) ==> m.value in values
    decreases |keys|
  {
    hide Put, Less;
    if keys != [] {
      var n := |keys| - 1;
      PutAllFacts(keys[..n], values[..n]);
      PutSorted(PutAll<Json>(keys[..n], values[..n]), keys[n], values[n]);
      PutMembers(PutAll<Json>(keys[..n], values[..n]), keys[n], values[n]);
      forall m | m in PutAll<Json>(keys, values)
        ensures m.value in values
      {
        if m.value != values[n] {
          assert m.value in values[..n];
        }
      }
    }
  }

  lemma {:induction false} PutMembers(members: seq<Member<Json>>, key: string, value: Json)
    ensures forall m :: m in Put(members, key, value) ==> m.value == value || m in members
  {
    hide Less;
    if members != [] && !Less(key, members[0].key) && key != members[0].key {
      PutMembers(members[1..], key, value);
      assert members == [members[0]] + members[1..];
    }
  }

  /** Printable values no deeper than h. */
  ghost predicate AllWithin(values: seq<Json>, h: nat) {
    forall k :: 0 <= k < |values| ==> WellFormed(values[k]) && Height(values[k]) <= h
  }

  lemma {:induction false} HighestWithin(v: Json, n: nat, h: nat)
    requires IsContainer(v) && n <= Size(v) && forall k :: 0 <= k < n ==> Height(Element(v, k)) <= h
    ensures Highest(v, n) <= h
  {
    if n > 0 {
      HighestWithin(v, n - 1, h);
    }
  }

  lemma {:induction false} ContainerWithin(braces: bool, keys: seq<string>, values: seq<Json>, h: nat)
    requires |keys| == |values| && AllWithin(values, h)
    ensures WellFormed(Container(braces, keys, values)) && Height(Container(braces, keys, values)) <= h + 1
  {
    hide PutAll, Less;
    var v := Container(braces, keys, values);
    if braces {
      PutAllFacts(keys, values);
    }
    forall k | 0 <= k < Size(v)
      ensures WellFormed(Element(v, k)) && Height(Element(v, k)) <= h
    {
      if braces {
        assert v.members[k] in v.members;
        var j :| 0 <= j < |values| && values[j] == v.members[k].value;
      }
    }
    HighestWithin(v, Size(v), h);
  }

  lemma {:induction false} TokenWithin(read: Reader, t: string)
    requires IsReader(read) && ParseToken(read, t).Some?
    ensures var p := ParseToken(read, t).value; WellFormed(p.value) && Height(p.value) <= p.height
    decreases |t|, 1
  {
    hide ParseContainer, StringBody, NumberRun, IsReader, Readable;
    if t[0] == '{' || t[0] == '[' {
      ContainerParsed(read, t[0] == '{', t[1..]);
    } else if t[0] != '"' && StartsNumber(t[0]) {
      ReaderReadable(read, t[..NumberRun(t)]);
    }
  }

  lemma ReaderReadable(read: Reader, text: string)
    requires IsReader(read)
    ensures read(text).Some? ==> Readable(read(text).value)
  {
    hide Readable, InRange;
  }

  lemma {:induction false} ContainerParsed(read: Reader, braces: bool, s: string)
    requires IsReader(read) && ParseContainer(read, braces, s).Some?
    ensures var p := ParseContainer(read, braces, s).value; WellFormed(p.value) && Height(p.value) <= p.height
    decreases |s|, 4
  {
    hide ParseContainer, ParseRest, IsReader, Consume, Container;
    ContainerRest(read, braces, s);
    if Consume(s, Closing(braces)).Some? {
      ContainerWithin(braces, [], [], 0);
    } else {
      RestParsed(read, braces, s, [], [], 0);
    }
  }

  lemma {:induction false} RestParsed(read: Reader, braces: bool, s: string, keys: seq<string>, values: seq<Json>,
          h: nat)
    requires IsReader(read) && |keys| == |values| && AllWithin(values, h)
             && ParseRest(read, braces, s, keys, values, h).Some?
    ensures var p := ParseRest(read, braces, s, keys, values, h).value;
            WellFormed(p.value) && Height(p.value) <= p.height
    decreases |s|, 3
  {
    hide ParseRest, IsReader, Consume, Container, KeyPart, ParseToken, Blank, Height, WellFormed;
    RestStep(read, braces, s, keys, values, h);
    var key := KeyPart(braces, s).value;
    var v := ParseValue(read, key.rest).value;
    TokenWithin(read, Blank(key.rest));
    var keys', values', h' := keys + [key.text], values + [v.value], Max(h, v.height);
    assert AllWithin(values', h');
    if Consume(v.rest, Closing(braces)).Some? {
      ContainerWithin(braces, keys', values', h');
    } else {
      RestParsed(read, braces, Consume(v.rest, ',').value, keys', values', h');
    }
  }

  /** Whatever the parser returns can be printed, and nests no deeper than the text it came from. */
  lemma {:induction false} ParsedIsPrintable(read: Reader, s: string)
    requires IsReader(read) && ParseText(read, s).Some?
    ensures var p := ParseText(read, s).value; WellFormed(p.value) && Height(p.value) <= p.height
  {
    hide ParseToken, IsReader, Height, WellFormed;
    TokenWithin(read, Blank(s));
  }

  // ---- the round trip --------------------------------------------------------------------

  /** Any print of a parsed value parses to exactly that value again. */
  lemma PrintThenParse(read: Reader, source: string, indent: nat, text: string)
    requires IsReader(read) && ParseText(read, source).Some?
    requires Prints(ParseText(read, source).value.value, indent, 1, text)
    ensures ParseText(read, text).Some? && ParseText(read, text).value.value == ParseText(read, source).value.value
    ensures Fits(ParseText(read, source), 0) ==> Fits(ParseText(read, text), 0)
  {
    hide ParseValue, IsReader, Prints, Height, WellFormed;
    var v := ParseText(read, source).value.value;
    ParsedIsPrintable(read, source);
    PrintParses(read, v, indent, 1, text, "");
    assert text + "" == text;
  }
}
