/** The rule table as a file: reading it, rewriting it with one update, and many rewrites in a row. */
module SettingsStore {
  import opened Options
  import opened Ordering
  import opened Text
  import opened JsonGrammar
  import opened JsonCursor
  import opened JsonTree
  import opened JsonNumber
  import opened JsonPrint
  import opened JsonWrite
  import opened JsonDocument
  import opened Escaping
  import opened KasumiRules
  import opened SettingsInput
  import opened SettingsRules
  import opened SettingsTable

  // ---- joined texts ----------------------------------------------------------------------

  lemma {:induction false} JoinedMore(parts: seq<string>, part: string, separator: string)
    ensures Joined(parts + [part], separator)
            == Joined(parts, separator) + (if parts == [] then "" else separator) + part
  {
    var all := parts + [part];
    if |parts| == 1 {
      assert all[1..] == [part];
    } else if |parts| > 1 {
      assert all[1..] == parts[1..] + [part];
      JoinedMore(parts[1..], part, separator);
    }
  }

  lemma {:induction false} JoinedPrefix(parts: seq<string>, k: nat, separator: string)
    requires k <= |parts|
    ensures |Joined(parts[..k], separator)| <= |Joined(parts, separator)|
    decreases |parts|
  {
    if k < |parts| {
      var n := |parts| - 1;
      JoinedPrefix(parts[..n], k, separator);
      assert parts[..n][..k] == parts[..k] && parts == parts[..n] + [parts[n]];
      JoinedMore(parts[..n], parts[n], separator);
    } else {
      assert parts[..k] == parts;
    }
  }

  // ---- writing ---------------------------------------------------------------------------

  method WriteRaw(sink: Writer, text: string) returns (ok: bool)
    requires sink.Valid()
    modifies sink, sink.data
    ensures sink.Valid() && old(sink.View()) <= sink.View()
    ensures ok <==> |Quote(text, false)| <= old(sink.Remaining())
    ensures ok ==> sink.View() == old(sink.View()) + Quote(text, false)
  {
    hide Escape;
    ok := sink.AppendChar('"');
    if ok {
      ok := WriteEscaped(sink, text, false);
      if ok {
        ok := sink.AppendChar('"');
      }
    }
  }

  /** A fixed text and a quoted one. */
  method WriteField(sink: Writer, name: string, text: string) returns (ok: bool)
    requires sink.Valid()
    modifies sink, sink.data
    ensures sink.Valid() && old(sink.View()) <= sink.View()
    ensures ok <==> |name| + |Quote(text, false)| <= old(sink.Remaining())
    ensures ok ==> sink.View() == old(sink.View()) + (name + Quote(text, false))
  {
    hide Quote;
    ghost var start := sink.View();
    ok := sink.Append(name);
    if ok {
      ok := WriteRaw(sink, text);
      assert start + name + Quote(text, false) == start + (name + Quote(text, false));
    }
  }

  method WriteRule(sink: Writer, rule: Rule) returns (ok: bool)
    requires sink.Valid()
    modifies sink, sink.data
    ensures sink.Valid() && old(sink.View()) <= sink.View()
    ensures ok <==> |RuleText(rule)| <= old(sink.Remaining())
    ensures ok ==> sink.View() == old(sink.View()) + RuleText(rule)
  {
    hide Quote, RuleText;
    ghost var start := sink.View();
    ghost var a, b := "{\"path\":" + Quote(rule.path, false), ",\"mode\":" + Quote(rule.mode, false);
    var bypass := if rule.bypass then "true}" else "false}";
    ghost var c := ",\"bypass\":" + bypass;
    RuleTextIs(rule, a, b, c);
    ok := WriteField(sink, "{\"path\":", rule.path);
    if ok {
      ok := WriteField(sink, ",\"mode\":", rule.mode);
      if ok {
        ok := sink.Append(",\"bypass\":");
        if ok {
          ok := sink.Append(bypass);
        }
      }
    }
    assert start + a + b + ",\"bypass\":" + bypass == start + RuleText(rule);
  }

  lemma RuleTextIs(rule: Rule, a: string, b: string, c: string)
    requires a == "{\"path\":" + Quote(rule.path, false) && b == ",\"mode\":" + Quote(rule.mode, false)
    requires c == ",\"bypass\":" + if rule.bypass then "true}" else "false}"
    ensures RuleText(rule) == a + b + c
  {
    hide Quote, Joined;
    var p, m := Quote(rule.path, false), Quote(rule.mode, false);
    var w := if rule.bypass then "true" else "false";
    JoinedThree("\"path\":" + p, "\"mode\":" + m, "\"bypass\":" + w);
    assert a == "{" + ("\"path\":" + p);
    assert b == "," + ("\"mode\":" + m);
    assert c == "," + ("\"bypass\":" + w) + "}";
  }

  lemma JoinedThree(p: string, q: string, r: string)
    ensures Joined([p, q, r], ",") == p + "," + q + "," + r
  {
    var parts := [p, q, r];
    assert parts[1..] == [q, r] && parts[1..][1..] == [r];
    assert Joined([r], ",") == r && Joined([q, r], ",") == q + "," + r;
  }

  /** One rule more of a list. */
  method WriteRuleMore(sink: Writer, first: bool, rule: Rule, ghost out: seq<Rule>, ghost start: string)
    returns (ok: bool)
    requires sink.Valid() && (first <==> out == []) && sink.View() == start + Joined(RuleTexts(out), ",")
    modifies sink, sink.data
    ensures sink.Valid() && old(sink.View()) <= sink.View()
    ensures ok <==> |start + Joined(RuleTexts(out + [rule]), ",")| <= sink.data.Length
    ensures ok ==> sink.View() == start + Joined(RuleTexts(out + [rule]), ",")
  {
    hide Joined, RuleText;
    assert RuleTexts(out + [rule]) == RuleTexts(out) + [RuleText(rule)];
    JoinedMore(RuleTexts(out), RuleText(rule), ",");
    ok := true;
    if !first {
      ok := sink.AppendChar(',');
    }
    if ok {
      ok := WriteRule(sink, rule);
    }
  }

  /** The rules of an entry after the pass: updated if it is the module's own, else as they were. */
  function Outcome(values: seq<Rule>, update: bool, rule: Rule, remove: bool): seq<Rule> {
    if update then Updated(values, rule, remove) else values
  }

  /** Write a module's rules, updating on the way: the first of the path replaced, the new one
    * appended, or all of the path left out. */
  method WriteRules(sink: Writer, values: seq<Rule>, update: bool, rule: Rule, remove: bool) returns (ok: bool)
    requires sink.Valid()
    modifies sink, sink.data
    ensures sink.Valid() && old(sink.View()) <= sink.View()
    ensures var text := Joined(RuleTexts(Outcome(values, update, rule, remove)), ",");
            (ok <==> |text| <= old(sink.Remaining())) && (ok ==> sink.View() == old(sink.View()) + text)
  {
    hide Joined, RuleTexts, Coming, Outcome;
    ghost var start, target, out := sink.View(), Outcome(values, update, rule, remove), [];
    NothingJoined();
    var first, replaced, i := true, false, 0;
    AllComing(values, update, rule, remove);
    ok := true;
    while i < |values|
      invariant 0 <= i <= |values| && sink.Valid() && (first <==> out == []) && (replaced ==> update && !remove)
      invariant sink.View() == start + Joined(RuleTexts(out), ",")
                && sink.data.Length == |start| + old(sink.Remaining())
      invariant target == out + Coming(values[i..], replaced, update, rule, remove)
    {
      var value := values[i];
      var matches := update && value.path == rule.path;
      ComingStep(values, i, replaced, update, rule, remove);
      i := i + 1;
      if matches && remove {
        continue;
      }
      var written := Rule(value.path, if matches && !replaced then rule.mode else value.mode,
                          if matches && !replaced then rule.bypass else value.bypass);
      ghost var rest := Coming(values[i..], replaced || matches, update, rule, remove);
      assert target == out + [written] + rest;
      PartIsShorter(target, out + [written], rest);
      ok := WriteRuleMore(sink, first, written, out, start);
      if !ok {
        return;
      }
      out := out + [written];
      first := false;
      replaced := replaced || matches;
    }
    ComingEnd(values, replaced, update, rule, remove);
    if update && !remove && !replaced {
      ok := WriteRuleMore(sink, first, rule, out, start);
    } else {
      assert target == out;
    }
  }

  /** What is still to be written of an entry's rules. */
  function Coming(values: seq<Rule>, replaced: bool, update: bool, rule: Rule, remove: bool): seq<Rule> {
    if replaced then values else Outcome(values, update, rule, remove)
  }

  lemma AllComing(values: seq<Rule>, update: bool, rule: Rule, remove: bool)
    ensures Outcome(values, update, rule, remove) == [] + Coming(values[0..], false, update, rule, remove)
  {
    assert values[0..] == values;
  }

  lemma ComingStep(values: seq<Rule>, i: nat, replaced: bool, update: bool, rule: Rule, remove: bool)
    requires i < |values| && (replaced ==> update && !remove)
    ensures var value, rest := values[i], values[i + 1..];
            var matches := update && value.path == rule.path;
            Coming(values[i..], replaced, update, rule, remove)
            == (if matches && remove then [] else [if matches && !replaced then rule else value])
               + Coming(rest, replaced || (matches && !remove), update, rule, remove)
  {
    hide Updated;
    UpdatedStep(values, i, rule, remove);
  }

  lemma ComingEnd(values: seq<Rule>, replaced: bool, update: bool, rule: Rule, remove: bool)
    ensures Coming(values[|values|..], replaced, update, rule, remove) == if update && !remove && !replaced then [rule]
            else []
  {}

  lemma NothingJoined()
    ensures Joined(RuleTexts([]), ",") == "" && Joined(EntryTexts([]), ",\n") == ""
  {}

  lemma PartIsShorter(rules: seq<Rule>, out: seq<Rule>, rest: seq<Rule>)
    requires rules == out + rest
    ensures |Joined(RuleTexts(out), ",")| <= |Joined(RuleTexts(rules), ",")|
  {
    hide Joined, RuleText;
    assert RuleTexts(rules)[..|out|] == RuleTexts(out);
    JoinedPrefix(RuleTexts(rules), |out|, ",");
  }

  /** One entry of the table, unless it is left without rules. */
  method EmitEntry(sink: Writer, first: bool, key: string, values: seq<Rule>, update: bool, rule: Rule, remove: bool,
          ghost out: Table, ghost start: string)
    returns (ok: bool, next: bool)
    requires sink.Valid() && (first <==> out == []) && sink.View() == start + Joined(EntryTexts(out), ",\n")
    requires !update ==> values != []
    modifies sink, sink.data
    ensures sink.Valid() && old(sink.View()) <= sink.View()
    ensures var all := out + Entry(key, Outcome(values, update, rule, remove));
            && (ok <==> |start + Joined(EntryTexts(all), ",\n")| <= sink.data.Length)
            && (ok ==> sink.View() == start + Joined(EntryTexts(all), ",\n"))
            && (ok ==> (next <==> all == []))
  {
    hide Joined, EntryText, EntryTexts, Updated;
    ok, next := true, first;
    ghost var rules := Outcome(values, update, rule, remove);
    var remaining := !remove || !update;
    if !remaining {
      remaining := AnyOther(values, rule.path);
    }
    SomeRemain(values, rule, remove);
    assert out + [] == out;
    if !remaining {
      return;
    }
    next := false;
    ok := WriteEntry(sink, first, key, values, update, rule, remove, out, start);
  }

  lemma SomeRemain(values: seq<Rule>, rule: Rule, remove: bool)
    ensures Updated(values, rule, remove) != [] <==>
            !remove || exists i :: 0 <= i < |values| && values[i].path != rule.path
  {
    if values != [] {
      SomeRemain(values[1..], rule, remove);
      if i :| 0 <= i < |values| && values[i].path != rule.path {
        assert i > 0 ==> values[1..][i - 1] == values[i];
      }
      if i :| 0 <= i < |values[1..]| && values[1..][i].path != rule.path {
        assert values[i + 1].path != rule.path;
      }
    }
  }

  method AnyOther(values: seq<Rule>, path: string) returns (found: bool)
    ensures found <==> exists i :: 0 <= i < |values| && values[i].path != path
  {
    found := false;
    var i := 0;
    while i < |values|
      invariant 0 <= i <= |values|
      invariant found <==> exists k :: 0 <= k < i && values[k].path != path
    {
      found := found || values[i].path != path;
      i := i + 1;
    }
  }

  method WriteEntry(sink: Writer, first: bool, key: string, values: seq<Rule>, update: bool, rule: Rule, remove: bool,
          ghost out: Table, ghost start: string)
    returns (ok: bool)
    requires sink.Valid() && (first <==> out == []) && sink.View() == start + Joined(EntryTexts(out), ",\n")
    modifies sink, sink.data
    ensures sink.Valid() && old(sink.View()) <= sink.View()
    ensures var all := out + [Member(key, Outcome(values, update, rule, remove))];
            && (ok <==> |start + Joined(EntryTexts(all), ",\n")| <= sink.data.Length)
            && (ok ==> sink.View() == start + Joined(EntryTexts(all), ",\n"))
  {
    hide Joined, RuleTexts, EntryTexts, Quote, Outcome, EntryText;
    ghost var entry := Member(key, Outcome(values, update, rule, remove));
    MoreEntries(out, entry);
    ok := sink.Append(if first then "" else ",\n");
    if ok {
      ok := WriteNamed(sink, key, values, update, rule, remove);
    }
  }

  method WriteNamed(sink: Writer, key: string, values: seq<Rule>, update: bool, rule: Rule, remove: bool)
    returns (ok: bool)
    requires sink.Valid()
    modifies sink, sink.data
    ensures sink.Valid() && old(sink.View()) <= sink.View()
    ensures var text := EntryText(Member(key, Outcome(values, update, rule, remove)));
            (ok <==> |text| <= old(sink.Remaining())) && (ok ==> sink.View() == old(sink.View()) + text)
  {
    hide Joined, RuleTexts, Quote, Outcome;
    ghost var name, before := "  " + Quote(key, false), sink.View();
    ghost var rules := Joined(RuleTexts(Outcome(values, update, rule, remove)), ",");
    ok := WriteField(sink, "  ", key);
    if ok {
      ok := sink.Append(": [");
      if ok {
        ok := WriteRules(sink, values, update, rule, remove);
        if ok {
          ok := sink.AppendChar(']');
        }
      }
    }
    assert before + name + ": [" + rules + "]" == before + (name + ": [" + rules + "]");
  }

  lemma MoreEntries(out: Table, entry: Member<seq<Rule>>)
    ensures Joined(EntryTexts(out + [entry]), ",\n")
         == Joined(EntryTexts(out), ",\n") + (if out == [] then "" else ",\n") + EntryText(entry)
  {
    hide Joined, EntryText;
    assert EntryTexts(out + [entry]) == EntryTexts(out) + [EntryText(entry)];
    JoinedMore(EntryTexts(out), EntryText(entry), ",\n");
  }

  /** The rules of a module, by binary search. */
  method FindRules(table: Table, id: string) returns (rules: seq<Rule>)
    requires IsTable(table)
    ensures rules == RulesOf(table, id)
  {
    hide Less, Lookup;
    var low, high := 0, |table|;
    while low < high
      invariant 0 <= low <= high <= |table|
      invariant forall k :: 0 <= k < low ==> Less(table[k].key, id)
      invariant forall k :: high <= k < |table| ==> !Less(table[k].key, id)
    {
      var middle := low + (high - low) / 2;
      MembersPartition(table, middle, id);
      if Less(table[middle].key, id) {
        low := middle + 1;
      } else {
        high := middle;
      }
    }
    if low < |table| && table[low].key == id {
      LookupAt(table, low);
      return table[low].value;
    }
    BoundIsKey(table, low, id);
    LookupNone(table, id);
    return [];
  }

  /** The table after one update. */
  function NewTable(table: Table, id: string, update: Update): Table {
    PutRules(table, id, Updated(RulesOf(table, id), update.rule, update.remove))
  }

  /** Write the table with one update of one module: all of its text, or nothing that counts. */
  method WriteUpdate(sink: Writer, table: Table, id: string, update: Update) returns (ok: bool)
    requires sink.Valid() && IsTable(table)
    modifies sink, sink.data
    ensures sink.Valid() && old(sink.View()) <= sink.View()
    ensures ok <==> |TableText(NewTable(table, id, update))| <= old(sink.Remaining())
    ensures ok ==> sink.View() == old(sink.View()) + TableText(NewTable(table, id, update))
  {
    hide Joined, EntryTexts, NewTable, TableText;
    TextLength(NewTable(table, id, update));
    var first;
    ok := sink.Append("{\n");
    if ok {
      ok, first := WriteEntries(sink, table, id, update);
      if ok {
        ok := WriteClose(sink, first);
      }
    }
  }

  /** One pass over the table, in key order. */
  method WriteEntries(sink: Writer, table: Table, id: string, update: Update) returns (ok: bool, first: bool)
    requires sink.Valid() && IsTable(table)
    modifies sink, sink.data
    ensures sink.Valid() && old(sink.View()) <= sink.View()
    ensures var target := NewTable(table, id, update);
            && (ok <==> |Joined(EntryTexts(target), ",\n")| <= old(sink.Remaining()))
            && (ok ==> sink.View() == old(sink.View()) + Joined(EntryTexts(target), ",\n") && (first <==> target == []))
  {
    hide Joined, EntryTexts, Less, Updated, PutRules, RulesOf, Emitted, Entry, Outcome, Passed;
    ghost var start, updated := sink.View(), Updated(RulesOf(table, id), update.rule, update.remove);
    ghost var target, out: Table := NewTable(table, id, update), [];
    EmittedIsPut(table, id, updated);
    NothingJoined();
    var inserted, i: nat := false, 0;
    ok, first := true, true;
    assert table[0..] == table && [] + target == target;
    while i < |table|
      invariant i <= |table| && sink.Valid() && (first <==> out == [])
                && sink.data.Length == |start| + old(sink.Remaining())
      invariant start <= sink.View() == start + Joined(EntryTexts(out), ",\n")
      invariant target == out + Emitted(table[i..], inserted, id, updated)
      invariant !inserted ==> forall k :: 0 <= k < i ==> Less(table[k].key, id)
    {
      EmittedStep(table, i, inserted, id, updated);
      ghost var more := Passed(table[i], inserted, id, updated);
      OutGrows(target, out, more, Emitted(table[i + 1..], inserted || !Less(table[i].key, id), id, updated));
      ok, first := PassEntry(sink, first, table, i, inserted, id, update, out, start);
      if !ok {
        return;
      }
      inserted := inserted || !Less(table[i].key, id);
      out := out + more;
      i := i + 1;
    }
    EmittedEnd(table, inserted, id, updated);
    if !inserted {
      NoRules(table, id);
      OutcomeIs([], update);
      ok, first := EmitEntry(sink, first, id, [], true, update.rule, update.remove, out, start);
      out := out + Entry(id, updated);
    }
    assert target == out;
  }

  /** What one entry of the table puts out. */
  function Passed(entry: Member<seq<Rule>>, inserted: bool, id: string, updated: seq<Rule>): Table {
    (if !inserted && !Less(entry.key, id) then Entry(id, updated) else []) + (if entry.key != id then [entry] else [])
  }

  /** The module's entry when its place is reached, then the entry itself unless it is the module's. */
  method PassEntry(sink: Writer, first: bool, table: Table, i: nat, inserted: bool, id: string, update: Update,
          ghost out: Table, ghost start: string)
    returns (ok: bool, next: bool)
    requires sink.Valid() && (first <==> out == []) && sink.View() == start + Joined(EntryTexts(out), ",\n")
    requires IsTable(table) && i < |table|
    modifies sink, sink.data
    ensures sink.Valid() && old(sink.View()) <= sink.View()
    ensures var all := out + Passed(table[i], inserted, id, Updated(RulesOf(table, id), update.rule, update.remove));
            && (ok <==> |start + Joined(EntryTexts(all), ",\n")| <= sink.data.Length)
            && (ok ==> sink.View() == start + Joined(EntryTexts(all), ",\n"))
            && (ok ==> (next <==> all == []))
  {
    hide Joined, EntryTexts, Less, Updated, RulesOf, Entry, Outcome;
    ghost var updated := Updated(RulesOf(table, id), update.rule, update.remove);
    ghost var all := out + Passed(table[i], inserted, id, updated);
    ghost var now := if !inserted && !Less(table[i].key, id) then Entry(id, updated) else [];
    ok, next := true, first;
    assert out + [] == out;
    if !inserted && !Less(table[i].key, id) {
      var values := FindRules(table, id);
      OutcomeIs(values, update);
      ok, next := EmitEntry(sink, first, id, values, true, update.rule, update.remove, out, start);
    }
    assert all == (out + now) + (if table[i].key != id then [table[i]] else []);
    OutGrows(all, out, now, if table[i].key != id then [table[i]] else []);
    if ok && table[i].key != id {
      OutcomeIs(table[i].value, update);
      ok, next :=
          EmitEntry(sink, next, table[i].key, table[i].value, false, update.rule, update.remove, out + now, start);
    } else {
      assert table[i].key == id ==> all == out + now;
    }
  }

  lemma OutGrows(target: Table, out: Table, more: Table, rest: Table)
    requires target == out + (more + rest)
    ensures target == (out + more) + rest
            && |Joined(EntryTexts(out + more), ",\n")| <= |Joined(EntryTexts(target), ",\n")|
  {
    hide Joined, EntryTexts;
    EntriesShorter(target, out + more);
  }

  lemma EmittedEnd(table: Table, inserted: bool, id: string, updated: seq<Rule>)
    ensures Emitted(table[|table|..], inserted, id, updated) == if inserted then [] else Entry(id, updated)
  {}

  method WriteClose(sink: Writer, first: bool) returns (ok: bool)
    requires sink.Valid()
    modifies sink, sink.data
    ensures sink.Valid() && old(sink.View()) <= sink.View()
    ensures var text := (if first then "" else "\n") + "}\n";
            (ok <==> |text| <= old(sink.Remaining())) && (ok ==> sink.View() == old(sink.View()) + text)
  {
    ok := true;
    if !first {
      ok := sink.AppendChar('\n');
    }
    if ok {
      ok := sink.Append("}\n");
    }
  }

  lemma TextLength(table: Table)
    ensures TableText(table) == "{\n" + Joined(EntryTexts(table), ",\n") + ((if table == [] then "" else "\n") + "}\n")
  {
    hide Joined, EntryTexts;
  }

  lemma EmittedStep(table: Table, i: nat, inserted: bool, id: string, updated: seq<Rule>)
    requires i < |table|
    ensures var now := !inserted && !Less(table[i].key, id);
            Emitted(table[i..], inserted, id, updated)
            == Passed(table[i], inserted, id, updated) + Emitted(table[i + 1..], inserted || now, id, updated)
  {
    assert table[i..][1..] == table[i + 1..];
  }

  lemma OutcomeIs(values: seq<Rule>, update: Update)
    ensures Outcome(values, true, update.rule, update.remove) == Updated(values, update.rule, update.remove)
    ensures Outcome(values, false, update.rule, update.remove) == values
    ensures forall key :: values != [] ==> Entry(key, values) == [Member(key, values)]
  {}

  lemma EntriesShorter(table: Table, out: Table)
    ensures out <= table ==> |Joined(EntryTexts(out), ",\n")| <= |Joined(EntryTexts(table), ",\n")|
  {
    hide Joined, EntryText;
    if out <= table {
      assert EntryTexts(table)[..|out|] == EntryTexts(out);
      JoinedPrefix(EntryTexts(table), |out|, ",\n");
    }
  }

  lemma NoRules(table: Table, id: string)
    requires forall k :: 0 <= k < |table| ==> Less(table[k].key, id)
    ensures RulesOf(table, id) == []
  {
    hide Less;
    LessIrreflexive(id);
    LookupNone(table, id);
  }

  // ---- reading ---------------------------------------------------------------------------

  method ReadRule(r: Ref, ghost v: Json) returns (rule: Option<Rule>)
    requires Denotes(r, v)
    ensures rule == RuleOf(v)
  {
    hide Holds, WellFormed, Lookup;
    ObjectKind(r, v);
    if !IsObject(r) {
      return None;
    }
    var found := FindMember(r, v, "path");
    var path := TextValue(found, Lookup(v.members, "path"));
    found := FindMember(r, v, "mode");
    var mode := TextValue(found, Lookup(v.members, "mode"));
    found := FindMember(r, v, "bypass");
    var bypass := BoolValue(found, Lookup(v.members, "bypass"), false);
    return if path.Some? && mode.Some? then Some(Rule(path.value, mode.value, bypass)) else None;
  }

  /** The rules of one module's list; a value that is no list has none. */
  method ReadRules(r: Ref, ghost v: Json) returns (rules: seq<Rule>)
    requires Denotes(r, v)
    ensures rules == ListOf(v)
  {
    hide Holds, WellFormed, RuleOf;
    ArrayKind(r, v);
    rules := [];
    if r.tree.nodes[r.node].kind != ArrayType {
      return;
    }
    var k := 0;
    while k < ChildCount(r)
      invariant 0 <= k <= |v.items| && rules == RulesIn(v.items[..k])
    {
      ChildHolds(r.tree, r.node, v, k);
      var rule := ReadRule(Ref(r.tree, Child(r.tree, r.node, k)), v.items[k]);
      assert v.items[..k + 1][..k] == v.items[..k];
      rules := rules + if rule.Some? then [rule.value] else [];
      k := k + 1;
    }
    assert v.items[..k] == v.items;
  }

  lemma ArrayKind(r: Ref, v: Json)
    requires Denotes(r, v)
    ensures r.node < |r.tree.nodes| && (r.tree.nodes[r.node].kind == ArrayType <==> v.Array?)
    ensures IsContainer(v) ==> ChildCount(r) == Size(v)
  {
    hide WellFormed;
  }

  /** The modules with rules, in key order. */
  method PrepareRules(root: Ref, ghost members: seq<Member<Json>>) returns (table: Table)
    requires Denotes(root, Object(members))
    ensures table == EntriesIn(members)
  {
    hide Holds, WellFormed, ListOf;
    ghost var v := Object(members);
    ArrayKind(root, v);
    table := [];
    var k := 0;
    while k < ChildCount(root)
      invariant 0 <= k <= |members| && table == EntriesIn(members[..k])
    {
      ChildHolds(root.tree, root.node, v, k);
      var key := ReadKeyOf(root.tree, root.node, k, v);
      var rules := ReadRules(Ref(root.tree, Child(root.tree, root.node, k)), members[k].value);
      assert members[..k + 1][..k] == members[..k];
      table := table + if rules != [] then [Member(key, rules)] else [];
      k := k + 1;
    }
    assert members[..k] == members;
  }

  // ---- the file --------------------------------------------------------------------------

  /** The table of a file; a missing file holds none, and a text that is not accepted is an error. */
  function StoredTable(read: Reader, file: Option<string>): Option<Table> {
    match file
    case None => Some([])
    case Some(text) => if Accepts(read, text) then Some(TableIn(read, text)) else None
  }

  /** Removing from a module without rules changes nothing. */
  predicate NothingToRemove(table: Table, id: string, update: Update) {
    update.remove && RulesOf(table, id) == []
  }

  /** Does an update rewrite the file? Not when the file is unreadable, there is nothing to remove, or
    * the new text would be too long. */
  predicate Rewrites(read: Reader, file: Option<string>, id: string, update: Update) {
    var table := StoredTable(read, file);
    && table.Some? && !NothingToRemove(table.value, id, update)
    && |TableText(NewTable(table.value, id, update))| <= MAXIMUM_BYTES
  }

  /** A file that can be read and from which there is nothing to remove. */
  predicate Keeps(read: Reader, file: Option<string>, id: string, update: Update) {
    StoredTable(read, file).Some? && NothingToRemove(StoredTable(read, file).value, id, update)
  }

  /** The file after an update. */
  function Stored(read: Reader, file: Option<string>, id: string, update: Update): Option<string> {
    if Rewrites(read, file, id, update) then Some(TableText(NewTable(StoredTable(read, file).value, id, update)))
        else file
  }

  /** Update a module's rules in the file. What is written, if anything, replaces it. */
  method UpdateModuleRule(file: array?<char>, id: string, update: Update, output: array<char>, read: Reader)
    returns (ok: bool, size: Option<nat>)
    requires IsReader(read) && output.Length == MAXIMUM_BYTES && file != output
    modifies output
    modifies if file == null then {} else {file}
    ensures var before := if file == null then None else Some(old(file[..]));
            && (size.Some? <==> Rewrites(read, before, id, update))
            && (size.Some? ==>
               size.value <= MAXIMUM_BYTES && Stored(read, before, id, update) == Some(output[..size.value]))
            && (ok <==> size.Some? || Keeps(read, before, id, update))
  {
    hide IsReader, Accepts, TableIn, TableText, NewTable, RulesOf, IsTable, Denotes;
    var table: Table := [];
    EmptyIsTable();
    if file != null {
      ghost var text := file[..];
      var root := LoadObject(file, read);
      if root.None? {
        return false, None;
      }
      table := PrepareRules(root.value, MembersIn(read, text));
      TableInIsTable(read, text);
      assert table == TableIn(read, text) by { TableInIs(read, text); }
    }
    if update.remove {
      var rules := FindRules(table, id);
      if rules == [] {
        return true, None;
      }
    }
    var sink := new Writer(output);
    ok := WriteUpdate(sink, table, id, update);
    assert ok ==> output[..sink.size] == TableText(NewTable(table, id, update));
    size := if ok then Some(sink.size) else None;
  }

  lemma EmptyIsTable()
    ensures IsTable([])
  {}

  lemma TableInIs(read: Reader, text: string)
    requires Accepts(read, text)
    ensures TableIn(read, text) == EntriesIn(MembersIn(read, text))
  {
    hide Accepts, EntriesIn;
  }

  // ---- many updates ----------------------------------------------------------------------

  datatype Step = Step(id: string, update: Update)

  /** The file after a sequence of updates of any modules, each reading back what is there. */
  function AllStored(read: Reader, file: Option<string>, steps: seq<Step>): Option<string> {
    if steps == [] then file
    else
      var last := steps[|steps| - 1];
      Stored(read, AllStored(read, file, steps[..|steps| - 1]), last.id, last.update)
  }

  /** The updates of one module that rewrote the file. */
  function Taken(read: Reader, file: Option<string>, steps: seq<Step>, id: string): seq<Update> {
    if steps == [] then []
    else
      var before, last := steps[..|steps| - 1], steps[|steps| - 1];
      Taken(read, file, before, id)
      + if last.id == id && Rewrites(read, AllStored(read, file, before), id, last.update) then [last.update] else []
  }

  /** A rewritten file holds the new table. */
  lemma StoredHolds(read: Reader, file: Option<string>, id: string, update: Update)
    requires IsReader(read) && StoredTable(read, file).Some?
    ensures IsTable(StoredTable(read, file).value)
    ensures StoredTable(read, Stored(read, file, id, update))
         == if Rewrites(read, file, id, update) then Some(NewTable(StoredTable(read, file).value, id, update))
            else StoredTable(read, file)
  {
    hide IsReader, Accepts, TableIn, TableText, RulesOf, IsTable, PutRules, Updated;
    var table := StoredTable(read, file).value;
    if file.Some? {
      TableInIsTable(read, file.value);
    } else {
      EmptyIsTable();
    }
    if Rewrites(read, file, id, update) {
      RewrittenTable(table, id, Updated(RulesOf(table, id), update.rule, update.remove), id);
      TableRoundTrip(read, NewTable(table, id, update));
    }
  }

  /** After any sequence of updates the file is readable, and each module's rules are what its own
    * updates make of those it had. */
  lemma {:induction false} StoredRules(read: Reader, file: Option<string>, steps: seq<Step>, id: string)
    requires IsReader(read) && StoredTable(read, file).Some?
    ensures var after := StoredTable(read, AllStored(read, file, steps));
            && after.Some? && IsTable(after.value)
            && RulesOf(after.value, id)
               == AllUpdates(RulesOf(StoredTable(read, file).value, id), Taken(read, file, steps, id))
    decreases |steps|
  {
    hide IsReader, StoredTable, RulesOf, IsTable, PutRules, Updated, Rewrites, Stored;
    if steps == [] {
      StoredHolds(read, file, id, Update(Rule("", "", false), true));
    } else {
      var front, last := steps[..|steps| - 1], steps[|steps| - 1];
      var before := AllStored(read, file, front);
      StoredRules(read, file, front, id);
      StoredHolds(read, before, last.id, last.update);
      var table, taken := StoredTable(read, before).value, Taken(read, file, front, id);
      RewrittenTable(table, last.id, Updated(RulesOf(table, last.id), last.update.rule, last.update.remove), id);
      assert (taken + [last.update])[..|taken|] == taken && taken + [] == taken;
    }
  }

  /** In the file: after any sequence of updates of any accepted file, a rule that is added and written
    * is in force at its path if and only if the path was there at most once, or ended in that rule. */
  lemma StoredRuleInForce(read: Reader, file: Option<string>, steps: seq<Step>, id: string, rule: Rule)
    requires IsReader(read) && StoredTable(read, file).Some? && Absolute(rule.path)
    requires Rewrites(read, AllStored(read, file, steps), id, Update(rule, false))
    ensures var last := Step(id, Update(rule, false));
            var before, after :=
                StoredTable(read, AllStored(read, file, steps)),
                    StoredTable(read, AllStored(read, file, steps + [last]));
            && before.Some? && after.Some?
            && var rules := RulesOf(before.value, id);
            var f, l := FirstOf(rules, rule.path), LastOf(rules, rule.path);
            && (InForce(RulesOf(after.value, id), rule) <==> l.None? || f == l || rules[l.value] == rule)
            && (UniquePaths(RulesOf(StoredTable(read, file).value, id)) ==> InForce(RulesOf(after.value, id), rule))
  {
    hide IsReader, StoredTable, RulesOf, Rewrites, Stored, InForce, FirstOf, LastOf, UniquePaths, IsTable, AllUpdates;
    var last := Step(id, Update(rule, false));
    var all := steps + [last];
    assert all[..|all| - 1] == steps;
    StoredRules(read, file, steps, id);
    StoredRules(read, file, all, id);
    LastAddedInForce(RulesOf(StoredTable(read, file).value, id), Taken(read, file, steps, id), rule);
  }
}
