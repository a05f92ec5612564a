/** Parsing a document, writing it or one of its members, and reading the result again. */
module JsonRewrite {
  import opened Options
  import opened Text
  import opened DecimalScales
  import opened DecimalCached
  import opened JsonGrammar
  import opened JsonLexical
  import opened JsonTree
  import opened JsonNumber
  import opened JsonPrint
  import opened JsonWrite
  import opened JsonDocument
  import JsonRoundTrip

  predicate Parses(read: Reader, text: string) {
    |text| <= MAXIMUM_BYTES && Fits(ParseText(read, text), 0)
  }

  function ValueIn(read: Reader, text: string): Json
    requires Parses(read, text)
  {
    ParseText(read, text).value.value
  }

  /** Prepare storage and parse in place; the root is node 0. */
  method ParseWhole(text: array<char>, read: Reader) returns (tree: Option<Snapshot>)
    requires IsReader(read)
    modifies text
    ensures tree.Some? <==> Parses(read, old(text[..]))
    ensures tree.Some? ==>
              var v := ValueIn(read, old(text[..]));
              Holds(tree.value, 0, v) && WellFormed(v) && Height(v) <= DEPTH_LIMIT
  {
    hide ParseText, Holds, WellFormed, IsReader, Height;
    ghost var source := text[..];
    var d := PrepareDocument(text[..]);
    if d == null {
      return None;
    }
    var ok, _ := d.Parse(text, read);
    if !ok {
      return None;
    }
    JsonRoundTrip.ParsedIsPrintable(read, source);
    return Some(Snapshot(d.nodes[..d.used], d.edges[..d.edgesUsed], text[..]));
  }

  /** A print at any depth is a text of that very value. */
  lemma PrintIsText(read: Reader, v: Json, indent: nat, depth: nat, text: string)
    requires IsReader(read) && WellFormed(v) && depth > 0 && Prints(v, indent, depth, text)
    ensures ParseText(read, text) == Some(Parsed(v, "", Height(v)))
  {
    hide IsReader, ParseValue, Prints, WellFormed, Height;
    PrintParses(read, v, indent, depth, text, "");
    assert text + "" == text;
  }

  /** Every document that is accepted is written in full exactly when its one text fits, and that text is
    * accepted again and gives the same value. */
  method Rewrite(text: array<char>, read: Reader, indent: nat, sink: Writer, scales: array<Wide>)
    returns (ok: bool, ghost printed: string)
    requires IsReader(read) && IsScaleTable(scales) && sink.Valid() && text != sink.data
    modifies text, sink, sink.data
    ensures sink.Valid() && old(sink.View()) <= sink.View()
    ensures ok ==> Parses(read, old(text[..])) && indent <= 16 && sink.View() == old(sink.View()) + printed
    ensures Parses(read, old(text[..])) && indent <= 16 ==>
              var v := ValueIn(read, old(text[..]));
              && Prints(v, indent, 1, printed) && (ok <==> |printed| <= old(sink.Remaining()))
              && Fits(ParseText(read, printed), 0) && ParseText(read, printed).value.value == v
  {
    hide ParseText, Parses, ValueIn, Holds, WellFormed, IsReader, Height, Prints, IsScaleTable;
    ghost var source := text[..];
    ghost var start := sink.View();
    ok, printed := false, "";
    var tree := ParseWhole(text, read);
    if tree.None? {
      return;
    }
    assert sink.View() == start;
    ghost var v := ValueIn(read, source);
    ok, printed := WriteValue(sink, tree.value, 0, v, indent, 1, scales);
    if indent <= 16 {
      PrintIsText(read, v, indent, 1, printed);
    }
  }

  /** The same for a member of an object, written where members are: at depth 2. */
  method RewriteMember(text: array<char>, key: string, read: Reader, indent: nat, sink: Writer, scales: array<Wide>)
    returns (ok: bool, ghost printed: string)
    requires IsReader(read) && IsScaleTable(scales) && sink.Valid() && text != sink.data
    modifies text, sink, sink.data
    ensures sink.Valid() && old(sink.View()) <= sink.View()
    ensures ok ==> Parses(read, old(text[..])) && ValueIn(read, old(text[..])).Object? && indent <= 16
                   && Lookup(ValueIn(read, old(text[..])).members, key).Some?
                   && sink.View() == old(sink.View()) + printed
    ensures Parses(read, old(text[..])) && indent <= 16 ==>
              var v := ValueIn(read, old(text[..]));
              v.Object? && Lookup(v.members, key).Some? ==>
                var w := Lookup(v.members, key).value;
                && Prints(w, indent, 2, printed) && (ok <==> |printed| <= old(sink.Remaining()))
                && Fits(ParseText(read, printed), 0) && ParseText(read, printed).value.value == w
  {
    hide ParseText, Parses, ValueIn, Holds, WellFormed, IsReader, Height, Prints, IsScaleTable, Lookup;
    ghost var source := text[..];
    ghost var start := sink.View();
    ok, printed := false, "";
    var tree := ParseWhole(text, read);
    if tree.None? {
      return;
    }
    assert sink.View() == start;
    ghost var v := ValueIn(read, source);
    var found := Find(tree.value, 0, v, key);
    if found.None? {
      return;
    }
    ghost var w := Lookup(v.members, key).value;
    MemberIsShallow(v, key);
    ok, printed := WriteValue(sink, tree.value, found.value, w, indent, 2, scales);
    if indent <= 16 {
      PrintIsText(read, w, indent, 2, printed);
    }
  }

  lemma MemberIsShallow(v: Json, key: string)
    requires v.Object? && WellFormed(v) && Lookup(v.members, key).Some? && Height(v) <= DEPTH_LIMIT
    ensures WellFormed(Lookup(v.members, key).value) && Height(Lookup(v.members, key).value) < DEPTH_LIMIT
  {
    hide Lookup, Height, Readable;
    LookedUpIsMember(v.members, key);
    var i :| 0 <= i < |v.members| && v.members[i] == Member(key, Lookup(v.members, key).value);
    assert WellFormed(Element(v, i));
    HighestCovers(v, Size(v), i);
    HeightIs(v);
  }
}
