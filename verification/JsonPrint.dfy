/** Printing a parsed value, and that the parser undoes it. */
module JsonPrint {
  import opened Options
  import opened Ordering
  import DecimalPrinter
  import opened JsonGrammar
  import opened JsonLexical
  import opened JsonCursor
  import opened JsonNumber
  import opened Escaping

  // ---- what the parser produces ----------------------------------------------------------

  predicate IsContainer(v: Json) { v.Array? || v.Object? }

  function Size(v: Json): nat
    requires IsContainer(v)
  {
    if v.Array? then |v.items| else |v.members|
  }

  function Element(v: Json, k: nat): (e: Json)
    requires IsContainer(v) && k < Size(v)
    ensures e < v
  {
    if v.Array? then v.items[k] else v.members[k].value
  }

  /** Numbers are readable and the members of objects are sorted. */
  ghost predicate WellFormed(v: Json) {
    && (v.Number? ==> Readable(v.bits))
    && (v.Object? ==> Sorted(v.members))
    && (IsContainer(v) ==> forall k :: 0 <= k < Size(v) ==> WellFormed(Element(v, k)))
  }

  /** Nesting of a value: 1 for a scalar. */
  function Height(v: Json): nat
    decreases v, 1, 0
  {
    1 + if IsContainer(v) then Highest(v, Size(v)) else 0
  }

  function Highest(v: Json, n: nat): nat
    requires IsContainer(v) && n <= Size(v)
    decreases v, 0, n
  {
    if n == 0 then 0 else Max(Highest(v, n - 1), Height(Element(v, n - 1)))
  }

  // ---- the printed text ------------------------------------------------------------------

  function Spaces(count: nat): string { seq(count, _ => ' ') }

  /** A line break and indentation, or nothing in compact form. */
  function Break(indent: nat, depth: nat): string {
    if indent == 0 then "" else "\n" + Spaces(indent * depth)
  }

  /** What precedes element k: a comma, the indentation and the key. */
  function Lead(v: Json, k: nat, indent: nat, depth: nat): string
    requires IsContainer(v) && k < Size(v)
  {
    (if k > 0 then "," else "") + Break(indent, depth)
    + (if v.Object? then Quote(v.members[k].key, true) + (if indent > 0 then ": " else ":") else "")
  }

  function Tail(v: Json, indent: nat, depth: nat): string
    requires IsContainer(v) && depth > 0
  {
    (if Size(v) > 0 then Break(indent, depth - 1) else "") + [Closing(v.Object?)]
  }

  /** The text is the print of the value. */
  ghost predicate Prints(v: Json, indent: nat, depth: nat, text: string)
    requires depth > 0
    decreases v, 1, 0, 0
  {
    && depth <= DEPTH_LIMIT && indent <= 16
    && match v
       case Null => text == "null"
       case Bool(b) => text == (if b then "true" else "false")
       case Number(bits) => DecimalPrinter.IsNumeral(text, bits)
       case String(t) => text == Quote(t, true)
       case _ => exists body :: PrintsParts(v, Size(v), indent, depth, body)
                                && text == [if v.Object? then '{' else '['] + body + Tail(v, indent, depth)
  }

  /** The first n elements with what precedes each. */
  ghost predicate PrintsParts(v: Json, n: nat, indent: nat, depth: nat, body: string)
    requires IsContainer(v) && n <= Size(v) && depth > 0
    decreases v, 0, n, 1
  {
    if n == 0 then body == "" else exists before, part :: PrintsLast(v, n, indent, depth, before, part, body)
  }

  ghost predicate PrintsLast(v: Json, n: nat, indent: nat, depth: nat, before: string, part: string, body: string)
    requires IsContainer(v) && 0 < n <= Size(v) && depth > 0
    decreases v, 0, n, 0
  {
    && PrintsParts(v, n - 1, indent, depth, before) && Prints(Element(v, n - 1), indent, depth + 1, part)
    && body == before + Lead(v, n - 1, indent, depth) + part
  }

  /** A value has one print at an indentation and depth. */
  lemma {:induction false} PrintsUnique(v: Json, indent: nat, depth: nat, a: string, b: string)
    requires depth > 0 && Prints(v, indent, depth, a) && Prints(v, indent, depth, b)
    ensures a == b
    decreases v, 1, 0
  {
    hide DecimalPrinter.IsNumeral, Quote, PrintsParts, Tail;
    if IsContainer(v) {
      var p :| PrintsParts(v, Size(v), indent, depth, p)
               && a == [if v.Object? then '{' else '['] + p + Tail(v, indent, depth);
      var q :| PrintsParts(v, Size(v), indent, depth, q)
               && b == [if v.Object? then '{' else '['] + q + Tail(v, indent, depth);
      PartsUnique(v, Size(v), indent, depth, p, q);
    } else if v.Number? {
      DecimalPrinter.TextUnique(v.bits, a, b);
    }
  }

  lemma {:induction false} PartsUnique(v: Json, n: nat, indent: nat, depth: nat, a: string, b: string)
    requires IsContainer(v) && n <= Size(v) && depth > 0
    requires PrintsParts(v, n, indent, depth, a) && PrintsParts(v, n, indent, depth, b)
    ensures a == b
    decreases v, 0, n
  {
    hide Prints, Lead;
    if n > 0 {
      var before, part :| PrintsLast(v, n, indent, depth, before, part, a);
      var before', part' :| PrintsLast(v, n, indent, depth, before', part', b);
      PartsUnique(v, n - 1, indent, depth, before, before');
      PrintsUnique(Element(v, n - 1), indent, depth + 1, part, part');
    }
  }

  // ---- parsing what was printed ----------------------------------------------------------

  lemma {:induction false} BlankBreak(indent: nat, depth: nat, rest: string)
    ensures Blank(Break(indent, depth) + rest) == Blank(rest)
  {
    if indent > 0 {
      var n := indent * depth;
      assert (Break(indent, depth) + rest)[1..] == Spaces(n) + rest;
      BlankSpaces(n, rest);
    } else {
      assert Break(indent, depth) + rest == rest;
    }
  }

  lemma {:induction false} BlankSpaces(n: nat, rest: string)
    ensures Blank(Spaces(n) + rest) == Blank(rest)
  {
    if n == 0 {
      assert Spaces(n) + rest == rest;
    } else {
      assert (Spaces(n) + rest)[1..] == Spaces(n - 1) + rest;
      BlankSpaces(n - 1, rest);
    }
  }

  function KeyOf(v: Json, k: nat): string
    requires IsContainer(v) && k < Size(v)
  {
    if v.Object? then v.members[k].key else ""
  }

  function Keys(v: Json, n: nat): (r: seq<string>)
    requires IsContainer(v) && n <= Size(v)
    ensures |r| == n
  {
    seq(n, k requires 0 <= k < n => KeyOf(v, k))
  }

  function Values(v: Json, n: nat): (r: seq<Json>)
    requires IsContainer(v) && n <= Size(v)
    ensures |r| == n
  {
    seq(n, k requires 0 <= k < n => Element(v, k))
  }

  /** Sorted members are what inserting them in order gives. */
  lemma {:induction false} SortedIsItself(v: Json, n: nat)
    requires v.Object? && Sorted(v.members) && n <= Size(v)
    ensures PutAll<Json>(Keys(v, n), Values(v, n)) == v.members[..n]
  {
    hide Less;
    if n > 0 {
      SortedIsItself(v, n - 1);
      assert Keys(v, n)[..n - 1] == Keys(v, n - 1) && Values(v, n)[..n - 1] == Values(v, n - 1);
      var m := v.members[n - 1];
      PutLast(v.members[..n - 1], m.key, m.value);
      assert v.members[..n] == v.members[..n - 1] + [m];
    }
  }

  lemma {:induction false} PutLast<V>(members: seq<Member<V>>, key: string, value: V)
    requires forall i :: 0 <= i < |members| ==> Less(members[i].key, key)
    ensures Put(members, key, value) == members + [Member(key, value)]
  {
    hide Less;
    if members != [] {
      LessAsymmetric(members[0].key, key);
      PutLast(members[1..], key, value);
    }
  }

  lemma ContainerIsItself(v: Json)
    requires IsContainer(v) && WellFormed(v)
    ensures Container(v.Object?, Keys(v, Size(v)), Values(v, Size(v))) == v
  {
    if v.Object? {
      SortedIsItself(v, Size(v));
      assert v.members[..Size(v)] == v.members;
    } else {
      assert Values(v, Size(v)) == v.items;
    }
  }

  /** Where the parser stands after the first n elements. */
  function AfterParts(read: Reader, v: Json, n: nat, after: string): Option<Parsed>
    requires IsContainer(v) && n <= Size(v)
  {
    var keys, values, h := Keys(v, n), Values(v, n), Highest(v, n);
    var close, comma := Consume(after, Closing(v.Object?)), Consume(after, ',');
    if close.Some? then Some(Parsed(Container(v.Object?, keys, values), close.value, h + 1))
    else if comma.None? then None
    else ParseRest(read, v.Object?, comma.value, keys, values, h)
  }

  /** The key of an element, if any, and its colon. */
  function KeyText(v: Json, k: nat, indent: nat): string
    requires IsContainer(v) && k < Size(v)
  {
    if v.Object? then Quote(v.members[k].key, true) + (if indent > 0 then ": " else ":") else ""
  }

  lemma {:induction false} KeyReads(v: Json, k: nat, indent: nat, depth: nat, rest: string)
    requires IsContainer(v) && k < Size(v)
    ensures var r := KeyPart(v.Object?, Break(indent, depth) + KeyText(v, k, indent) + rest);
            r.Some? && r.value.text == KeyOf(v, k) && Blank(r.value.rest) == Blank(rest)
  {
    hide Escape, Quote, StringToken, Blank, Break;
    var lead := Break(indent, depth);
    if v.Object? {
      var key, colon := v.members[k].key, if indent > 0 then ": " else ":";
      assert lead + KeyText(v, k, indent) + rest == lead + Quote(key, true) + (colon + rest);
      QuoteReads(key, lead, indent, depth, colon + rest);
      ColonReads(indent, rest);
    } else {
      assert lead + KeyText(v, k, indent) + rest == lead + rest;
      BlankBreak(indent, depth, rest);
    }
  }

  lemma QuoteReads(key: string, lead: string, indent: nat, depth: nat, rest: string)
    requires lead == Break(indent, depth)
    ensures StringToken(lead + Quote(key, true) + rest) == Some(Quoted(key, rest))
  {
    hide Escape, StringBody, Blank, Break;
    var body := Escape(key, true) + "\"" + rest;
    assert lead + Quote(key, true) + rest == lead + ("\"" + body);
    BlankBreak(indent, depth, "\"" + body);
    BlankStops("\"" + body);
    assert ("\"" + body)[1..] == body;
    EscapeRoundTrip(key, true, rest);
  }

  lemma ColonReads(indent: nat, rest: string)
    ensures var r := Consume((if indent > 0 then ": " else ":") + rest, ':');
            r.Some? && Blank(r.value) == Blank(rest)
  {
    hide Blank;
    if indent > 0 {
      BlankStops(": " + rest);
      assert (": " + rest)[1..] == " " + rest;
      BlankGoesOn(" " + rest);
      assert (" " + rest)[1..] == rest;
    } else {
      BlankStops(":" + rest);
      assert (":" + rest)[1..] == rest;
    }
  }

  /** Reading one printed element. */
  lemma {:induction false} ElementStep(read: Reader, v: Json, k: nat, indent: nat, depth: nat, part: string,
          after: string)
    requires IsReader(read) && IsContainer(v) && WellFormed(v) && k < Size(v) && depth > 0 && Delimited(after)
    requires Prints(Element(v, k), indent, depth + 1, part)
    ensures ParseRest(read, v.Object?, Break(indent, depth) + KeyText(v, k, indent) + part + after, Keys(v, k),
            Values(v, k), Highest(v, k))
         == AfterParts(read, v, k + 1, after)
    decreases v, 0, 0
  {
    hide ParseRest, Prints, KeyPart, IsReader, Delimited, Blank, Consume, ParseToken, Container, KeyText, Break, Height;
    var s, e := Break(indent, depth) + KeyText(v, k, indent) + part + after, Element(v, k);
    assert s == Break(indent, depth) + KeyText(v, k, indent) + (part + after);
    KeyReads(v, k, indent, depth, part + after);
    RestStep(read, v.Object?, s, Keys(v, k), Values(v, k), Highest(v, k));
    PrintParses(read, e, indent, depth + 1, part, after);
    assert Keys(v, k + 1) == Keys(v, k) + [KeyOf(v, k)] && Values(v, k + 1) == Values(v, k) + [e];
  }

  lemma {:induction false} PartsParse(read: Reader, v: Json, n: nat, indent: nat, depth: nat, body: string,
          after: string)
    requires IsReader(read) && IsContainer(v) && WellFormed(v) && 0 < n <= Size(v) && depth > 0 && Delimited(after)
    requires PrintsParts(v, n, indent, depth, body)
    ensures ParseRest(read, v.Object?, body + after, [], [], 0) == AfterParts(read, v, n, after)
    decreases v, 0, n
  {
    hide ParseRest, Prints, PrintsParts, KeyPart, IsReader, Blank, ParseToken, Container, KeyText, Break, Highest,
        WellFormed, Lead, Consume, Closing;
    PartsLast(v, n, indent, depth, body);
    var before, part :| PrintsLast(v, n, indent, depth, before, part, body);
    var s := Break(indent, depth) + KeyText(v, n - 1, indent) + part + after;
    ElementStep(read, v, n - 1, indent, depth, part, after);
    LeadIs(v, n - 1, indent, depth);
    if n == 1 {
      assert body + after == s by { NothingBefore(v, indent, depth, before); }
      NoneRead(v);
    } else {
      assert body + after == before + ("," + s);
      PartsParse(read, v, n - 1, indent, depth, before, "," + s);
      CommaFirst(s, v.Object?);
    }
  }

  lemma PartsLast(v: Json, n: nat, indent: nat, depth: nat, body: string)
    requires IsContainer(v) && 0 < n <= Size(v) && depth > 0 && PrintsParts(v, n, indent, depth, body)
    ensures exists before, part :: PrintsLast(v, n, indent, depth, before, part, body)
  {}

  lemma NothingBefore(v: Json, indent: nat, depth: nat, before: string)
    requires IsContainer(v) && depth > 0 && PrintsParts(v, 0, indent, depth, before)
    ensures before == ""
  {}

  lemma NoneRead(v: Json)
    requires IsContainer(v)
    ensures Keys(v, 0) == [] && Values(v, 0) == [] && Highest(v, 0) == 0
  {}

  lemma LeadIs(v: Json, k: nat, indent: nat, depth: nat)
    requires IsContainer(v) && k < Size(v)
    ensures Lead(v, k, indent, depth) == (if k > 0 then "," else "") + (Break(indent, depth) + KeyText(v, k, indent))
  {
    hide Break, Quote;
  }

  lemma CommaFirst(s: string, braces: bool)
    ensures Consume("," + s, Closing(braces)) == None && Consume("," + s, ',') == Some(s)
  {
    BlankStops("," + s);
    assert ("," + s)[1..] == s;
  }

  lemma TailCloses(v: Json, indent: nat, depth: nat, rest: string)
    requires IsContainer(v) && depth > 0
    ensures Consume(Tail(v, indent, depth) + rest, Closing(v.Object?)) == Some(rest)
            && Delimited(Tail(v, indent, depth) + rest)
  {
    hide Blank;
    var end := [Closing(v.Object?)] + rest;
    assert end[1..] == rest;
    BlankStops(end);
    if Size(v) > 0 {
      assert Tail(v, indent, depth) + rest == Break(indent, depth - 1) + end;
      BlankBreak(indent, depth - 1, end);
      if indent > 0 {
        assert (Tail(v, indent, depth) + rest)[0] == '\n';
      }
    } else {
      assert Tail(v, indent, depth) + rest == end;
    }
  }

  /** What continues a container does not close it. */
  lemma RestNotClosed(read: Reader, braces: bool, s: string)
    requires ParseRest(read, braces, s, [], [], 0).Some?
    ensures Consume(s, Closing(braces)).None?
  {
    hide ParseRest, Blank;
    RestStep(read, braces, s, [], [], 0);
  }

  /** A print of a value, followed by a delimiter or nothing, parses to that value. */
  lemma {:induction false} PrintParses(read: Reader, v: Json, indent: nat, depth: nat, text: string, rest: string)
    requires IsReader(read) && WellFormed(v) && depth > 0 && Delimited(rest) && Prints(v, indent, depth, text)
    ensures ParseValue(read, text + rest) == Some(Parsed(v, rest, Height(v)))
    decreases v, 1, 0
  {
    hide IsReader, ParseContainer, ParseScalar, ParseRest, Blank, Delimited, DecimalPrinter.IsNumeral, Readable,
        Consume,
        PrintsParts;
    var s := text + rest;
    if IsContainer(v) {
      ContainerParses(read, v, indent, depth, text, rest);
    } else if v.Number? {
      PrintedParses(read, v.bits, text, rest);
      BlankStops(s);
    } else {
      NamesParse(read, v, text, rest);
    }
  }

  lemma {:induction false} ContainerParses(read: Reader, v: Json, indent: nat, depth: nat, text: string, rest: string)
    requires IsReader(read) && WellFormed(v) && IsContainer(v) && depth > 0 && Delimited(rest)
             && Prints(v, indent, depth, text)
    ensures ParseValue(read, text + rest) == Some(Parsed(v, rest, Height(v)))
    decreases v, 0, Size(v) + 1
  {
    hide IsReader, ParseContainer, ParseRest, Blank, Consume, PrintsParts, Tail, WellFormed, Container;
    var s := text + rest;
    var body :| PrintsParts(v, Size(v), indent, depth, body)
                && text == [if v.Object? then '{' else '['] + body + Tail(v, indent, depth);
    var after := Tail(v, indent, depth) + rest;
    assert s[1..] == body + after;
    BlankStops(s);
    ContainerRest(read, v.Object?, s[1..]);
    TailCloses(v, indent, depth, rest);
    if Size(v) == 0 {
      assert body == "" by { NothingBefore(v, indent, depth, body); }
      assert s[1..] == after;
      EmptyContainer(v);
    } else {
      PartsParse(read, v, Size(v), indent, depth, body, after);
      ContainerIsItself(v);
      RestNotClosed(read, v.Object?, s[1..]);
    }
  }

  lemma EmptyContainer(v: Json)
    requires IsContainer(v) && Size(v) == 0
    ensures Container(v.Object?, [], []) == v && Height(v) == 1
  {}

  lemma NamesParse(read: Reader, v: Json, text: string, rest: string)
    requires text
             == match v { case Null => "null" case Bool(b) => if b then "true" else "false" case String(t) =>
                Quote(t, true) case _ => "" }
    requires text != "" && !v.Number? && !IsContainer(v)
    ensures ParseValue(read, text + rest) == Some(Parsed(v, rest, Height(v)))
  {
    hide Escape, StringBody, Blank;
    var s := text + rest;
    BlankStops(s);
    if v.String? {
      assert s[1..] == Escape(v.text, true) + "\"" + rest;
      EscapeRoundTrip(v.text, true, rest);
    } else {
      assert s[|text|..] == rest && text <= s;
    }
  }
}
