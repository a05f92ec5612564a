/** The text of the rule table: how it is written, and that reading it gives the table back. */
module SettingsTable {
  import opened Options
  import opened Ordering
  import opened JsonGrammar
  import opened JsonDocument
  import opened JsonNumber
  import opened Escaping
  import JsonPrint
  import JsonRoundTrip
  import opened KasumiRules
  import opened SettingsInput
  import opened SettingsRules

  type Table = seq<Member<seq<Rule>>>

  // ---- the text --------------------------------------------------------------------------

  /** Texts with a separator between them. */
  function Joined(parts: seq<string>, separator: string): string {
    if parts == [] then ""
    else if |parts| == 1 then parts[0]
    else parts[0] + separator + Joined(parts[1..], separator)
  }

  function RuleParts(rule: Rule): seq<string> {
    ["\"path\":" + Quote(rule.path, false), "\"mode\":" + Quote(rule.mode, false),
     "\"bypass\":" + if rule.bypass then "true" else "false"]
  }

  function RuleText(rule: Rule): string { "{" + Joined(RuleParts(rule), ",") + "}" }

  function RuleTexts(rules: seq<Rule>): (r: seq<string>)
    ensures |r| == |rules|
  {
    seq(|rules|, k requires 0 <= k < |rules| => RuleText(rules[k]))
  }

  function EntryText(entry: Member<seq<Rule>>): string {
    "  " + Quote(entry.key, false) + ": [" + Joined(RuleTexts(entry.value), ",") + "]"
  }

  function EntryTexts(table: Table): (r: seq<string>)
    ensures |r| == |table|
  {
    seq(|table|, k requires 0 <= k < |table| => EntryText(table[k]))
  }

  function TableText(table: Table): string {
    "{\n" + Joined(EntryTexts(table), ",\n") + (if table == [] then "" else "\n") + "}\n"
  }

  // ---- what a document says --------------------------------------------------------------

  /** A rule is an object whose path and mode are strings. */
  function RuleOf(v: Json): Option<Rule> {
    if !v.Object? then None
    else
      var path, mode, bypass := Lookup(v.members, "path"), Lookup(v.members, "mode"), Lookup(v.members, "bypass");
      if path.Some? && path.value.String? && mode.Some? && mode.value.String? then
        Some(Rule(path.value.text, mode.value.text, bypass.Some? && bypass.value.Bool? && bypass.value.value))
      else None
  }

  /** A value is a rule with these parts exactly when it is an object that says so; the flag is off unless it
    * is the truth value. */
  lemma RuleExactly(v: Json, rule: Rule)
    ensures RuleOf(v) == Some(rule) <==>
            && v.Object?
            && Lookup(v.members, "path") == Some(String(rule.path))
               && Lookup(v.members, "mode") == Some(String(rule.mode))
            && (rule.bypass <==> Lookup(v.members, "bypass") == Some(Bool(true)))
  {
    hide Lookup;
  }

  /** The rules of a list; anything else in it is skipped. */
  function RulesIn(items: seq<Json>): seq<Rule> {
    if items == [] then []
    else
      var n := |items| - 1;
      RulesIn(items[..n]) + (if RuleOf(items[n]).Some? then [RuleOf(items[n]).value] else [])
  }

  function ListOf(v: Json): seq<Rule> { if v.Array? then RulesIn(v.items) else [] }

  /** The modules that have rules. */
  function EntriesIn(members: seq<Member<Json>>): Table {
    if members == [] then []
    else
      var n := |members| - 1;
      EntriesIn(members[..n]) + Entry(members[n].key, ListOf(members[n].value))
  }

  lemma {:induction false} EntriesAreTable(members: seq<Member<Json>>)
    requires Sorted(members)
    ensures IsTable(EntriesIn(members))
    ensures forall m :: m in EntriesIn(members) ==> exists i :: 0 <= i < |members| && members[i].key == m.key
  {
    hide Less, ListOf;
    if members != [] {
      var n := |members| - 1;
      EntriesAreTable(members[..n]);
      var before, all := EntriesIn(members[..n]), EntriesIn(members);
      forall i, j | 0 <= i < j < |all|
        ensures Less(all[i].key, all[j].key)
      {
        if j == |before| {
          assert before[i] in before;
          var k :| 0 <= k < |members[..n]| && members[..n][k].key == before[i].key;
          assert Less(members[k].key, members[n].key);
        }
      }
      forall m | m in all
        ensures exists i :: 0 <= i < |members| && members[i].key == m.key
      {
        if m in before {
          var k :| 0 <= k < |members[..n]| && members[..n][k].key == m.key;
          assert members[k].key == m.key;
        } else {
          assert members[n].key == m.key;
        }
      }
    }
  }

  // ---- reading a joined list -------------------------------------------------------------

  /** Whatever follows it, the text reads as a key, if there are keys, and a value. */
  ghost predicate IsPart(read: Reader, braces: bool, text: string, key: string, value: Json, height: nat) {
    forall rest :: PartReads(read, braces, text, key, value, height, rest)
  }

  ghost predicate PartReads(read: Reader, braces: bool, text: string, key: string, value: Json, height: nat,
          rest: string)
  {
    var k := KeyPart(braces, text + rest);
    k.Some? && k.value.text == key && ParseValue(read, k.value.rest) == Some(Parsed(value, rest, height))
  }

  ghost predicate ArePart(read: Reader, braces: bool, parts: seq<string>, keys: seq<string>, values: seq<Json>,
          height: nat)
  {
    && |parts| == |keys| == |values|
    && forall k :: 0 <= k < |parts| ==> IsPart(read, braces, parts[k], keys[k], values[k], height)
  }

  /** A separator is a comma and perhaps blanks. */
  ghost predicate Separates(separator: string) {
    separator == "," || separator == ",\n"
  }

  lemma SeparatorReads(read: Reader, braces: bool, separator: string, s: string, keys: seq<string>, values: seq<Json>,
          h: nat)
    requires Separates(separator) && |keys| == |values|
    ensures Consume(separator + s, Closing(braces)).None?
    ensures var comma := Consume(separator + s, ',');
            comma.Some?
                && ParseRest(read, braces, comma.value, keys, values, h) == ParseRest(read, braces, s, keys, values, h)
  {
    hide ParseRest, Blank;
    var after := separator[1..] + s;
    assert separator + s == "," + after;
    JsonPrint.CommaFirst(after, braces);
    if separator == ",\n" {
      BlankGoesOn(after);
      assert after[1..] == s;
      RestBlank(read, braces, after, keys, values, h);
      RestBlank(read, braces, s, keys, values, h);
    } else {
      assert after == s;
    }
  }

  /** Reading the parts one after another. */
  lemma {:induction false} ListReads(read: Reader, braces: bool, parts: seq<string>, keys: seq<string>,
          values: seq<Json>, height: nat, separator: string, tail: string, keys0: seq<string>, values0: seq<Json>,
          height0: nat)
    requires parts != [] && ArePart(read, braces, parts, keys, values, height) && Separates(separator)
    requires |keys0| == |values0| && Consume(tail, Closing(braces)).Some?
    ensures ParseRest(read, braces, Joined(parts, separator) + tail, keys0, values0, height0)
         == Some(Parsed(Container(braces, keys0 + keys, values0 + values), Consume(tail, Closing(braces)).value,
            Max(height0, height) + 1))
    decreases |parts|
  {
    hide ParseRest, ParseValue, Consume, Container, IsPart, Separates, Max;
    var ks, vs, h := keys0 + [keys[0]], values0 + [values[0]], Max(height0, height);
    if |parts| == 1 {
      PartStep(read, braces, parts[0], keys[0], values[0], height, tail, keys0, values0, height0);
      assert keys == [keys[0]] && values == [values[0]];
    } else {
      var more := Joined(parts[1..], separator) + tail;
      assert Joined(parts, separator) + tail == parts[0] + (separator + more);
      PartStep(read, braces, parts[0], keys[0], values[0], height, separator + more, keys0, values0, height0);
      SeparatorReads(read, braces, separator, more, ks, vs, h);
      ListReads(read, braces, parts[1..], keys[1..], values[1..], height, separator, tail, ks, vs, h);
      assert ks + keys[1..] == keys0 + keys && vs + values[1..] == values0 + values;
      assert Max(h, height) == h by { MaxTwice(height0, height); }
    }
  }

  lemma MaxTwice(a: nat, b: nat)
    ensures Max(Max(a, b), b) == Max(a, b)
  {}

  /** Reading one part: the list ends after it or goes on after a comma. */
  lemma PartStep(read: Reader, braces: bool, text: string, key: string, value: Json, height: nat, next: string,
          keys0: seq<string>, values0: seq<Json>, height0: nat)
    requires IsPart(read, braces, text, key, value, height) && |keys0| == |values0|
    ensures var keys, values, h := keys0 + [key], values0 + [value], Max(height0, height);
            var close, comma := Consume(next, Closing(braces)), Consume(next, ',');
            ParseRest(read, braces, text + next, keys0, values0, height0)
            == if close.Some? then Some(Parsed(Container(braces, keys, values), close.value, h + 1))
               else if comma.None? then None
               else ParseRest(read, braces, comma.value, keys, values, h)
  {
    hide ParseRest, ParseValue, KeyPart, Consume, Container;
    assert PartReads(read, braces, text, key, value, height, next);
    RestStep(read, braces, text + next, keys0, values0, height0);
  }

  /** A bracketed list. */
  lemma BracketsRead(read: Reader, braces: bool, parts: seq<string>, keys: seq<string>, values: seq<Json>, height: nat,
          separator: string, start: string, tail: string)
    requires parts != [] && ArePart(read, braces, parts, keys, values, height) && Separates(separator)
    requires (start == "" || start == "\n") && Consume(tail, Closing(braces)).Some?
    ensures ParseValue(read, [if braces then '{' else '['] + start + Joined(parts, separator) + tail)
         == Some(Parsed(Container(braces, keys, values), Consume(tail, Closing(braces)).value, height + 1))
  {
    hide ParseRest, Consume, Container, IsPart, Separates, Blank, ArePart;
    var body := Joined(parts, separator) + tail;
    var s := [if braces then '{' else '['] + start + Joined(parts, separator) + tail;
    assert s[1..] == start + body;
    BlankStops(s);
    ContainerRest(read, braces, start + body);
    ListReads(read, braces, parts, keys, values, height, separator, tail, [], [], 0);
    assert [] + keys == keys && [] + values == values;
    RestBlank(read, braces, body, [], [], 0);
    if start == "\n" {
      BlankGoesOn(start + body);
      assert (start + body)[1..] == body;
      RestBlank(read, braces, start + body, [], [], 0);
    } else {
      assert start + body == body;
    }
    JsonPrint.RestNotClosed(read, braces, start + body);
  }

  // ---- reading the table back ------------------------------------------------------------

  /** A quoted key, a colon and a value. */
  lemma KeyedReads(read: Reader, lead: string, key: string, colon: string, text: string, value: Json, height: nat,
          rest: string)
    requires (lead == "" || lead == "  ") && (colon == ":" || colon == ": ")
    requires ParseValue(read, text + rest) == Some(Parsed(value, rest, height))
    ensures PartReads(read, true, lead + Quote(key, false) + colon + text, key, value, height, rest)
  {
    hide ParseValue, ParseToken, Blank, Quote, StringToken, Consume;
    var after := text + rest;
    assert lead + Quote(key, false) + colon + text + rest == lead + Quote(key, false) + (colon + after);
    KeyTokenReads(lead, key, colon + after);
    JsonPrint.ColonReads(if colon == ":" then 0 else 1, after);
    BlankFirst(read, Consume(colon + after, ':').value);
    BlankFirst(read, after);
  }

  lemma KeyTokenReads(lead: string, key: string, rest: string)
    requires lead == "" || lead == "  "
    ensures StringToken(lead + Quote(key, false) + rest) == Some(Quoted(key, rest))
  {
    hide Escape, StringBody, Blank;
    var body := Escape(key, false) + "\"" + rest;
    assert lead + Quote(key, false) + rest == lead + ("\"" + body);
    LeadingSpaces(lead, "\"" + body);
    BlankStops("\"" + body);
    assert ("\"" + body)[1..] == body;
    EscapeRoundTrip(key, false, rest);
  }

  lemma LeadingSpaces(lead: string, rest: string)
    requires lead == "" || lead == "  "
    ensures Blank(lead + rest) == Blank(rest)
  {
    if lead == "  " {
      assert lead + rest == " " + (" " + rest);
      BlankGoesOn(" " + (" " + rest));
      BlankGoesOn(" " + rest);
      assert (" " + rest)[1..] == rest && (" " + (" " + rest))[1..] == " " + rest;
    } else {
      assert lead + rest == rest;
    }
  }

  lemma TextReads(read: Reader, text: string, rest: string)
    ensures ParseValue(read, Quote(text, false) + rest) == Some(Parsed(String(text), rest, 1))
  {
    hide Escape, StringBody, Blank;
    var s := Quote(text, false) + rest;
    BlankStops(s);
    assert s[1..] == Escape(text, false) + "\"" + rest;
    EscapeRoundTrip(text, false, rest);
  }

  lemma BoolReads(read: Reader, b: bool, rest: string)
    ensures ParseValue(read, (if b then "true" else "false") + rest) == Some(Parsed(Bool(b), rest, 1))
  {
    hide Blank;
    var word := if b then "true" else "false";
    BlankStops(word + rest);
    assert word <= word + rest && (word + rest)[|word|..] == rest;
  }

  const RULE_KEYS: seq<string> := ["path", "mode", "bypass"]

  function RuleValues(rule: Rule): seq<Json> { [String(rule.path), String(rule.mode), Bool(rule.bypass)] }

  function RuleJson(rule: Rule): Json { Container(true, RULE_KEYS, RuleValues(rule)) }

  lemma RulePartsRead(read: Reader, rule: Rule)
    ensures ArePart(read, true, RuleParts(rule), RULE_KEYS, RuleValues(rule), 1)
  {
    hide ParseValue, Escape, PartReads;
    var parts := RuleParts(rule);
    forall k, rest | 0 <= k < 3
      ensures PartReads(read, true, parts[k], RULE_KEYS[k], RuleValues(rule)[k], 1, rest)
    {
      TextReads(read, rule.path, rest);
      TextReads(read, rule.mode, rest);
      BoolReads(read, rule.bypass, rest);
      PlainKey(RULE_KEYS[k]);
      var value := if k == 0 then Quote(rule.path, false) else if k == 1 then Quote(rule.mode, false)
                   else if rule.bypass then "true" else "false";
      assert parts[k] == "" + Quote(RULE_KEYS[k], false) + ":" + value;
      KeyedReads(read, "", RULE_KEYS[k], ":", value, RuleValues(rule)[k], 1, rest);
    }
  }

  lemma PlainKey(key: string)
    requires key in RULE_KEYS
    ensures Quote(key, false) == "\"" + key + "\""
  {
    EscapePlain(key, false);
  }

  lemma RuleReads(read: Reader, rule: Rule)
    ensures IsPart(read, false, RuleText(rule), "", RuleJson(rule), 2)
  {
    hide ParseValue, ArePart, Joined, RuleParts;
    RulePartsRead(read, rule);
    assert RuleParts(rule) != [] by { PartsOfRule(rule); }
    forall rest
      ensures PartReads(read, false, RuleText(rule), "", RuleJson(rule), 2, rest)
    {
      var tail := "}" + rest;
      CloseReads(true, "", rest);
      assert tail == "" + ([Closing(true)] + rest);
      BracketsRead(read, true, RuleParts(rule), RULE_KEYS, RuleValues(rule), 1, ",", "", tail);
      assert RuleText(rule) + rest == ['{'] + "" + Joined(RuleParts(rule), ",") + tail;
    }
  }

  lemma PartsOfRule(rule: Rule)
    ensures |RuleParts(rule)| == 3
  {}

  lemma CloseReads(braces: bool, blank: string, rest: string)
    requires blank == "" || blank == "\n"
    ensures Consume(blank + ([Closing(braces)] + rest), Closing(braces)) == Some(rest)
  {
    hide Blank;
    var close := [Closing(braces)] + rest;
    BlankStops(close);
    assert close[1..] == rest;
    if blank == "\n" {
      BlankGoesOn(blank + close);
      assert (blank + close)[1..] == close;
    } else {
      assert blank + close == close;
    }
  }

  function RuleJsons(rules: seq<Rule>): (r: seq<Json>)
    ensures |r| == |rules|
  {
    seq(|rules|, k requires 0 <= k < |rules| => RuleJson(rules[k]))
  }

  lemma EntryReads(read: Reader, entry: Member<seq<Rule>>)
    requires entry.value != []
    ensures IsPart(read, true, EntryText(entry), entry.key, Array(RuleJsons(entry.value)), 3)
  {
    hide ParseValue, Joined, RuleText, RuleJson, Quote, PartReads, Consume;
    var rules := entry.value;
    var parts, keys, values := RuleTexts(rules), seq(|rules|, _ => ""), RuleJsons(rules);
    forall k | 0 <= k < |parts|
      ensures IsPart(read, false, parts[k], keys[k], values[k], 2)
    {
      RuleReads(read, rules[k]);
    }
    forall rest
      ensures PartReads(read, true, EntryText(entry), entry.key, Array(values), 3, rest)
    {
      var tail, text := "]" + rest, "[" + Joined(parts, ",") + "]";
      CloseReads(false, "", rest);
      assert tail == "" + ([Closing(false)] + rest);
      BracketsRead(read, false, parts, keys, values, 2, ",", "", tail);
      assert text + rest == ['['] + "" + Joined(parts, ",") + tail;
      KeyedReads(read, "  ", entry.key, ": ", text, Array(values), 3, rest);
      assert EntryText(entry) == "  " + Quote(entry.key, false) + ": " + text;
    }
  }

  function TableMembers(table: Table): (r: seq<Member<Json>>)
    ensures |r| == |table|
  {
    seq(|table|, k requires 0 <= k < |table| => Member(table[k].key, Array(RuleJsons(table[k].value))))
  }

  lemma TableReads(read: Reader, table: Table)
    requires IsTable(table)
    ensures ParseText(read, TableText(table))
         == Some(Parsed(Object(TableMembers(table)), "\n", if table == [] then 1 else 4))
  {
    hide ParseValue, Joined, IsPart, Consume, Container, Less, EntryText;
    var v, n := Object(TableMembers(table)), |table|;
    BlankGoesOn("\n");
    if table == [] {
      EmptyTableReads(read);
    } else {
      var parts, keys, values := EntryTexts(table), JsonPrint.Keys(v, n), JsonPrint.Values(v, n);
      forall k | 0 <= k < n
        ensures IsPart(read, true, parts[k], keys[k], values[k], 3)
      {
        EntryReads(read, table[k]);
      }
      var tail := "\n}\n";
      CloseReads(true, "\n", "\n");
      assert tail == "\n" + ([Closing(true)] + "\n");
      BracketsRead(read, true, parts, keys, values, 3, ",\n", "\n", tail);
      assert TableText(table) == ['{'] + "\n" + Joined(parts, ",\n") + tail;
      ContainerOfTable(table);
    }
  }

  lemma ContainerOfTable(table: Table)
    requires IsTable(table)
    ensures var v := Object(TableMembers(table));
            Container(true, JsonPrint.Keys(v, |table|), JsonPrint.Values(v, |table|)) == v
  {
    hide Less;
    var v := Object(TableMembers(table));
    JsonPrint.SortedIsItself(v, |table|);
    assert v.members[..|table|] == v.members;
  }

  lemma EmptyTableReads(read: Reader)
    ensures ParseValue(read, TableText([])) == Some(Parsed(Object([]), "\n", 1))
    ensures TableMembers([]) == []
  {
    hide Blank, ParseRest;
    var s := TableText([]);
    assert s == "{\n}\n" && s[1..] == "\n" + ([Closing(true)] + "\n");
    BlankStops(s);
    CloseReads(true, "\n", "\n");
    ContainerRest(read, true, s[1..]);
  }

  lemma RuleOfJson(rule: Rule)
    ensures RuleOf(RuleJson(rule)) == Some(rule)
  {
    hide Put, Lookup, Less;
    var keys, values := RULE_KEYS, RuleValues(rule);
    var one, two := PutAll<Json>(keys[..1], values[..1]), PutAll<Json>(keys[..2], values[..2]);
    assert keys[..2][..1] == keys[..1] && values[..2][..1] == values[..1];
    assert keys[..1][..0] == [] && values[..1][..0] == [];
    assert keys[..3] == keys && values[..3] == values;
    JsonRoundTrip.PutAllFacts(keys[..1], values[..1]);
    JsonRoundTrip.PutAllFacts(keys[..2], values[..2]);
    forall key | key in RULE_KEYS
      ensures Lookup(PutAll<Json>(keys, values), key)
           == Some(if key == "bypass" then values[2] else if key == "mode" then values[1] else values[0])
    {
      PutLookup<Json>([], keys[0], values[0], key);
      PutLookup(one, keys[1], values[1], key);
      PutLookup(two, keys[2], values[2], key);
    }
    assert RULE_KEYS[0] in RULE_KEYS && RULE_KEYS[1] in RULE_KEYS && RULE_KEYS[2] in RULE_KEYS;
  }

  lemma {:induction false} RulesOfJson(rules: seq<Rule>)
    ensures RulesIn(RuleJsons(rules)) == rules
  {
    hide RuleOf, RuleJson;
    if rules != [] {
      var n := |rules| - 1;
      assert RuleJsons(rules)[..n] == RuleJsons(rules[..n]);
      RulesOfJson(rules[..n]);
      RuleOfJson(rules[n]);
    }
  }

  lemma {:induction false} EntriesOfText(table: Table)
    requires forall k :: 0 <= k < |table| ==> table[k].value != []
    ensures EntriesIn(TableMembers(table)) == table
  {
    hide RuleJsons, RulesIn;
    if table != [] {
      var n := |table| - 1;
      assert TableMembers(table)[..n] == TableMembers(table[..n]);
      EntriesOfText(table[..n]);
      RulesOfJson(table[n].value);
      assert TableMembers(table)[n] == Member(table[n].key, Array(RuleJsons(table[n].value)));
    }
  }

  /** The table a text holds. */
  function TableIn(read: Reader, text: string): Table
    requires Accepts(read, text)
  {
    EntriesIn(MembersIn(read, text))
  }

  /** The text of a table is read back as that table. */
  lemma TableRoundTrip(read: Reader, table: Table)
    requires IsTable(table) && |TableText(table)| <= MAXIMUM_BYTES
    ensures Accepts(read, TableText(table)) && TableIn(read, TableText(table)) == table
  {
    hide ParseText, TableText, TableMembers;
    TableReads(read, table);
    EntriesOfText(table);
  }

  /** Whatever is read is a table. */
  lemma TableInIsTable(read: Reader, text: string)
    requires IsReader(read) && Accepts(read, text)
    ensures IsTable(TableIn(read, text))
  {
    hide ParseText, IsReader, Less, JsonPrint.Height;
    JsonRoundTrip.ParsedIsPrintable(read, text);
    EntriesAreTable(MembersIn(read, text));
  }
}
