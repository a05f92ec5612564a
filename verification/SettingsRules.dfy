/** Updating a module's path rules in the table of all modules, and what an update puts in force. */
module SettingsRules {
  import opened Options
  import opened Ordering
  import opened JsonGrammar
  import opened KasumiRules
  import opened KasumiPlan

  /** Each path at most once. */
  ghost predicate UniquePaths(rules: seq<Rule>) {
    forall i, j :: 0 <= i < j < |rules| ==> rules[i].path != rules[j].path
  }

  predicate HasPath(rules: seq<Rule>, path: string) { exists i :: 0 <= i < |rules| && rules[i].path == path }

  /** The rules with the first of a path replaced, or the new one appended. */
  function Replaced(rules: seq<Rule>, rule: Rule): (r: seq<Rule>)
  {
    if rules == [] then [rule]
    else if rules[0].path == rule.path then [rule] + rules[1..]
    else [rules[0]] + Replaced(rules[1..], rule)
  }

  /** The rules without those of a path. */
  function Without(rules: seq<Rule>, path: string): seq<Rule> {
    if rules == [] then []
    else if rules[0].path == path then Without(rules[1..], path)
    else [rules[0]] + Without(rules[1..], path)
  }

  function Updated(rules: seq<Rule>, rule: Rule, remove: bool): seq<Rule> {
    if remove then Without(rules, rule.path) else Replaced(rules, rule)
  }

  lemma UpdatedStep(values: seq<Rule>, i: nat, rule: Rule, remove: bool)
    requires i < |values|
    ensures values[i..] == [values[i]] + values[i + 1..]
    ensures Updated(values[i..], rule, remove)
         == if values[i].path != rule.path then [values[i]] + Updated(values[i + 1..], rule, remove)
            else if remove then Updated(values[i + 1..], rule, remove)
            else [rule] + values[i + 1..]
  {
    assert values[i..][1..] == values[i + 1..];
  }

  // ---- the table -------------------------------------------------------------------------

  /** The stored settings: modules in key order, each with at least one rule. */
  ghost predicate IsTable(table: seq<Member<seq<Rule>>>) {
    Sorted(table) && forall i :: 0 <= i < |table| ==> table[i].value != []
  }

  function RulesOf(table: seq<Member<seq<Rule>>>, id: string): seq<Rule> {
    match Lookup<seq<Rule>>(table, id)
    case Some(rules) => rules
    case None => []
  }

  /** Put, or leave out when nothing remains. */
  function PutRules(table: seq<Member<seq<Rule>>>, id: string, rules: seq<Rule>): seq<Member<seq<Rule>>> {
    if rules != [] then Put(table, id, rules) else Drop(table, id)
  }

  function Drop<V>(table: seq<Member<V>>, id: string): seq<Member<V>> {
    if table == [] then []
    else if table[0].key == id then table[1..]
    else [table[0]] + Drop(table[1..], id)
  }

  function Entry(id: string, updated: seq<Rule>): seq<Member<seq<Rule>>> {
    if updated != [] then [Member(id, updated)] else []
  }

  /** What one pass over the table puts out: the module before the first key that is not smaller, or
    * at the end, and every other module's entry. */
  function Emitted(table: seq<Member<seq<Rule>>>, inserted: bool, id: string,
          updated: seq<Rule>): seq<Member<seq<Rule>>>
  {
    if table == [] then (if inserted then [] else Entry(id, updated))
    else
      var now := !inserted && !Less(table[0].key, id);
      (if now then Entry(id, updated) else []) + (if table[0].key != id then [table[0]] else [])
      + Emitted(table[1..], inserted || now, id, updated)
  }

  lemma {:induction false} EmittedAfter(table: seq<Member<seq<Rule>>>, id: string, updated: seq<Rule>)
    requires forall i :: 0 <= i < |table| ==> table[i].key != id
    ensures Emitted(table, true, id, updated) == table
  {
    if table != [] {
      EmittedAfter(table[1..], id, updated);
    }
  }

  /** The pass replaces the module's entry. */
  lemma {:induction false} EmittedIsPut(table: seq<Member<seq<Rule>>>, id: string, updated: seq<Rule>)
    requires Sorted(table)
    ensures Emitted(table, false, id, updated) == PutRules(table, id, updated)
  {
    hide Less;
    if table != [] {
      var key := table[0].key;
      LessIrreflexive(id);
      LessTotal(id, key);
      if Less(key, id) {
        LessAsymmetric(key, id);
        EmittedIsPut(table[1..], id, updated);
      } else {
        KeysBeyond(table, id);
        EmittedAfter(table[1..], id, updated);
        if key != id {
          DropNothing(table, id);
        }
      }
    }
  }

  lemma KeysBeyond(table: seq<Member<seq<Rule>>>, id: string)
    requires Sorted(table) && table != [] && (table[0].key == id || Less(id, table[0].key))
    ensures forall i :: 0 <= i < |table[1..]| ==> table[1..][i].key != id
  {
    hide Less;
    LessIrreflexive(id);
    forall i | 0 <= i < |table[1..]|
      ensures table[1..][i].key != id
    {
      assert Less(table[0].key, table[i + 1].key);
      if table[0].key != id {
        LessTransitive(id, table[0].key, table[i + 1].key);
      }
    }
  }

  lemma {:induction false} DropNothing(table: seq<Member<seq<Rule>>>, id: string)
    requires Sorted(table) && table != [] && Less(id, table[0].key)
    ensures Drop(table, id) == table
  {
    hide Less;
    LessIrreflexive(id);
    if |table| > 1 {
      LessTransitive(id, table[0].key, table[1].key);
      DropNothing(table[1..], id);
    }
  }

  lemma {:induction false} DropFacts(table: seq<Member<seq<Rule>>>, id: string, k: string)
    requires IsTable(table)
    ensures IsTable(Drop(table, id)) && Lookup(Drop(table, id), k) == if k == id then None else Lookup(table, k)
    ensures forall m :: m in Drop(table, id) ==> m in table
  {
    hide Less;
    if table != [] {
      if table[0].key == id {
        TailLacks(table);
      } else {
        DropFacts(table[1..], id, k);
        var r := Drop(table[1..], id);
        forall j | 0 <= j < |r|
          ensures Less(table[0].key, r[j].key)
        {
          assert r[j] in r;
          var i :| 0 <= i < |table[1..]| && table[1..][i] == r[j];
          assert table[i + 1] == r[j];
        }
      }
    }
  }

  /** The rewritten table holds the module's new rules and every other module's as before. */
  lemma RewrittenTable(table: seq<Member<seq<Rule>>>, id: string, rules: seq<Rule>, k: string)
    requires IsTable(table)
    ensures IsTable(PutRules(table, id, rules))
    ensures RulesOf(PutRules(table, id, rules), k) == if k == id then rules else RulesOf(table, k)
  {
    hide Less, Put, Drop, Lookup;
    if rules != [] {
      PutLookup(table, id, rules, k);
      PutSorted(table, id, rules);
      var r := Put(table, id, rules);
      forall i | 0 <= i < |r|
        ensures r[i].value != []
      {
        PutValue(table, id, rules, r[i]);
      }
    } else {
      DropFacts(table, id, k);
    }
  }

  lemma {:induction false} PutValue(table: seq<Member<seq<Rule>>>, id: string, rules: seq<Rule>, m: Member<seq<Rule>>)
    requires m in Put(table, id, rules)
    ensures m.value == rules || m in table
  {
    hide Less;
    if table != [] && !Less(id, table[0].key) && id != table[0].key && m != table[0] {
      PutValue(table[1..], id, rules, m);
    }
  }

  // ---- one module's rules over updates ---------------------------------------------------

  lemma {:induction false} ReplacedPaths(rules: seq<Rule>, rule: Rule)
    ensures forall p :: HasPath(Replaced(rules, rule), p) <==> HasPath(rules, p) || p == rule.path
  {
    var r := Replaced(rules, rule);
    if rules != [] && rules[0].path != rule.path {
      ReplacedPaths(rules[1..], rule);
      forall p
        ensures HasPath(r, p) <==> HasPath(rules, p) || p == rule.path
      {
        PathSplit(r, p);
        PathSplit(rules, p);
      }
    } else {
      forall p
        ensures HasPath(r, p) <==> HasPath(rules, p) || p == rule.path
      {
        PathSplit(r, p);
        if rules != [] {
          PathSplit(rules, p);
        }
      }
    }
  }

  lemma PathSplit(rules: seq<Rule>, p: string)
    requires rules != []
    ensures HasPath(rules, p) <==> rules[0].path == p || HasPath(rules[1..], p)
  {
    if HasPath(rules[1..], p) {
      var i :| 0 <= i < |rules[1..]| && rules[1..][i].path == p;
      assert rules[i + 1].path == p;
    }
    if HasPath(rules, p) && rules[0].path != p {
      var i :| 0 <= i < |rules| && rules[i].path == p;
      assert rules[1..][i - 1].path == p;
    }
  }

  lemma {:induction false} WithoutPaths(rules: seq<Rule>, path: string)
    ensures forall p :: HasPath(Without(rules, path), p) <==> HasPath(rules, p) && p != path
  {
    if rules != [] {
      WithoutPaths(rules[1..], path);
      forall p
        ensures HasPath(Without(rules, path), p) <==> HasPath(rules, p) && p != path
      {
        PathSplit(rules, p);
        if rules[0].path != path {
          PathSplit(Without(rules, path), p);
        }
      }
    }
  }

  lemma UniqueSplit(rules: seq<Rule>)
    requires rules != []
    ensures UniquePaths(rules) <==> UniquePaths(rules[1..]) && !HasPath(rules[1..], rules[0].path)
  {
    if UniquePaths(rules[1..]) && !HasPath(rules[1..], rules[0].path) {
      forall i, j | 0 <= i < j < |rules|
        ensures rules[i].path != rules[j].path
      {
        assert rules[j] == rules[1..][j - 1];
        assert i > 0 ==> rules[i] == rules[1..][i - 1];
      }
    }
    if UniquePaths(rules) {
      forall k | 0 <= k < |rules[1..]|
        ensures rules[1..][k].path != rules[0].path
      {
        assert rules[1..][k] == rules[k + 1];
      }
    }
  }

  /** An update keeps every path unique. */
  lemma {:induction false} UpdatedUnique(rules: seq<Rule>, rule: Rule, remove: bool)
    requires UniquePaths(rules)
    ensures UniquePaths(Updated(rules, rule, remove))
  {
    if rules != [] {
      UniqueSplit(rules);
      UpdatedUnique(rules[1..], rule, remove);
      if remove {
        WithoutPaths(rules[1..], rule.path);
      } else {
        ReplacedPaths(rules[1..], rule);
      }
      if rules[0].path != rule.path || !remove {
        UniqueSplit(Updated(rules, rule, remove));
      }
    }
  }

  datatype Update = Update(rule: Rule, remove: bool)

  /** A sequence of updates, each reading back what the last one wrote. */
  function AllUpdates(rules: seq<Rule>, updates: seq<Update>): seq<Rule> {
    if updates == [] then rules
    else
      var last := updates[|updates| - 1];
      Updated(AllUpdates(rules, updates[..|updates| - 1]), last.rule, last.remove)
  }

  lemma {:induction false} AllUnique(rules: seq<Rule>, updates: seq<Update>)
    requires UniquePaths(rules)
    ensures UniquePaths(AllUpdates(rules, updates))
  {
    if updates != [] {
      AllUnique(rules, updates[..|updates| - 1]);
      var last := updates[|updates| - 1];
      UpdatedUnique(AllUpdates(rules, updates[..|updates| - 1]), last.rule, last.remove);
    }
  }

  // ---- what an update puts in force ------------------------------------------------------

  /** The first rule of a path: the one an update replaces. */
  function FirstOf(rules: seq<Rule>, path: string): (r: Option<nat>)
    ensures r.None? <==> !HasPath(rules, path)
    ensures r.Some? ==> r.value < |rules| && rules[r.value].path == path
    ensures r.Some? ==> forall i :: 0 <= i < r.value ==> rules[i].path != path
  {
    if rules == [] then None
    else if rules[0].path == path then Some(0)
    else
      PathSplit(rules, path);
      var r := FirstOf(rules[1..], path);
      if r.None? then None else Some(r.value + 1)
  }

  /** The last rule of a path: the one in force there. */
  function LastOf(rules: seq<Rule>, path: string): (r: Option<nat>)
    ensures r.None? <==> !HasPath(rules, path)
    ensures r.Some? ==> r.value < |rules| && rules[r.value].path == path
    ensures r.Some? ==> forall i :: r.value < i < |rules| ==> rules[i].path != path
  {
    if rules == [] then None
    else if rules[|rules| - 1].path == path then Some(|rules| - 1)
    else LastOf(rules[..|rules| - 1], path)
  }

  lemma {:induction false} ReplacedShape(rules: seq<Rule>, rule: Rule)
    ensures var f := FirstOf(rules, rule.path);
            Replaced(rules, rule) == if f.Some? then rules[f.value := rule] else rules + [rule]
  {
    hide HasPath, FirstOf, Replaced;
    ReplacedFront(rules, rule);
    if rules != [] && rules[0].path != rule.path {
      ReplacedShape(rules[1..], rule);
      UpdateBehind(rules, FirstOf(rules[1..], rule.path), rule);
    }
  }

  lemma ReplacedFront(rules: seq<Rule>, rule: Rule)
    ensures rules == [] ==> Replaced(rules, rule) == [rule] && FirstOf(rules, rule.path).None?
    ensures rules != [] && rules[0].path == rule.path ==>
              Replaced(rules, rule) == rules[0 := rule] && FirstOf(rules, rule.path) == Some(0)
    ensures rules != [] && rules[0].path != rule.path ==>
              var f := FirstOf(rules[1..], rule.path);
              Replaced(rules, rule) == [rules[0]] + Replaced(rules[1..], rule)
              && FirstOf(rules, rule.path) == if f.None? then None else Some(f.value + 1)
  {
    hide HasPath;
  }

  lemma UpdateBehind(rules: seq<Rule>, f: Option<nat>, rule: Rule)
    requires rules != [] && (f.Some? ==> f.value < |rules| - 1)
    ensures f.Some? ==> rules[f.value + 1 := rule] == [rules[0]] + rules[1..][f.value := rule]
    ensures rules + [rule] == [rules[0]] + (rules[1..] + [rule])
  {}

  /** The last rule of a path is in force at that path. */
  lemma LastRuleInForce(rules: seq<Rule>, path: string)
    requires Absolute(path) && HasPath(rules, path)
    ensures EffectiveOf(rules, path) == LastOf(rules, path)
  {
    hide EffectiveOf, LastOf;
    var k := LastOf(rules, path).value;
    forall i | 0 <= i < |rules| && Applies(rules[i], path)
      ensures |rules[i].path| < |path| || (|rules[i].path| == |path| && i <= k)
    {
      if |rules[i].path| == |path| {
        assert rules[i].path == path;
      }
    }
    assert IsEffective(rules, path, Some(k));
    EffectiveUnique(rules, path, EffectiveOf(rules, path), Some(k));
  }

  /** Is the rule the one in force at its own path? */
  predicate InForce(rules: seq<Rule>, rule: Rule) {
    var r := EffectiveOf(rules, rule.path);
    r.Some? && rules[r.value] == rule
  }

  /** Added to any list of rules, a rule comes into force if and only if its path was not there, or
    * the rule replaced was the only one of its path, or the last one of its path already was the same. */
  lemma AddedInForce(rules: seq<Rule>, rule: Rule)
    requires Absolute(rule.path)
    ensures var r, f, l := Updated(rules, rule, false), FirstOf(rules, rule.path), LastOf(rules, rule.path);
            && EffectiveOf(r, rule.path) == Some(if l.Some? then l.value else |rules|)
            && (InForce(r, rule) <==> l.None? || f == l || rules[l.value] == rule)
  {
    hide EffectiveOf, FirstOf, LastOf, Replaced;
    var r, path := Updated(rules, rule, false), rule.path;
    var f, l := FirstOf(rules, path), LastOf(rules, path);
    ReplacedShape(rules, rule);
    assert r[if f.Some? then f.value else |rules|].path == path;
    LastRuleInForce(r, path);
    var m := LastOf(r, path).value;
    if l.Some? {
      assert r[l.value].path == path;
      assert m == l.value;
    } else {
      assert forall i :: 0 <= i < |rules| ==> rules[i].path != path;
      assert m == |rules|;
    }
  }

  /** A path that is there twice, with another rule last: what is added does not come into force. */
  lemma RepeatedPathFails(a: Rule, b: Rule, rule: Rule)
    requires Absolute(rule.path) && a.path == b.path == rule.path && b != rule
    ensures !InForce(Updated([a, b], rule, false), rule)
  {
    hide EffectiveOf, InForce;
    AddedInForce([a, b], rule);
  }

  /** After any sequence of updates of any list of rules, a rule added last is in force at its path
    * if and only if that path was there at most once, or ended in the same rule. */
  lemma LastAddedInForce(rules: seq<Rule>, updates: seq<Update>, rule: Rule)
    requires Absolute(rule.path)
    ensures var before := AllUpdates(rules, updates);
            var f, l := FirstOf(before, rule.path), LastOf(before, rule.path);
            InForce(AllUpdates(rules, updates + [Update(rule, false)]), rule) <==>
                l.None? || f == l || before[l.value] == rule
    ensures UniquePaths(rules) ==> InForce(AllUpdates(rules, updates + [Update(rule, false)]), rule)
  {
    hide EffectiveOf, FirstOf, LastOf, Updated, InForce;
    var all := updates + [Update(rule, false)];
    assert all[..|all| - 1] == updates;
    AddedInForce(AllUpdates(rules, updates), rule);
    if UniquePaths(rules) {
      AllUnique(rules, updates);
    }
  }

  /** The rule in force, found from the front. */
  function Best(rules: seq<Rule>, path: string): Option<Rule> {
    if rules == [] then None
    else
      var later := Best(rules[1..], path);
      if Applies(rules[0], path) && (later.None? || |later.value.path| < |rules[0].path|) then Some(rules[0]) else later
  }

  lemma {:induction false} BestIsEffective(rules: seq<Rule>, path: string, r: Option<nat>)
    requires IsEffective(rules, path, r)
    ensures Best(rules, path) == if r.Some? then Some(rules[r.value]) else None
    decreases |rules|
  {
    if rules != [] {
      var tail := EffectiveOf(rules[1..], path);
      BestIsEffective(rules[1..], path, tail);
      hide EffectiveOf, Best, Applies;
      if tail.Some? {
        assert rules[tail.value + 1] == rules[1..][tail.value];
      }
      if r.Some? && r.value > 0 {
        assert rules[r.value] == rules[1..][r.value - 1];
      }
      TailEffective(rules, path, r, tail);
    }
  }

  lemma TailEffective(rules: seq<Rule>, path: string, r: Option<nat>, tail: Option<nat>)
    requires rules != [] && IsEffective(rules, path, r) && IsEffective(rules[1..], path, tail)
    ensures var first := Applies(rules[0], path) && (tail.None? || |rules[1..][tail.value].path| < |rules[0].path|);
            r == if first then Some(0) else if tail.Some? then Some(tail.value + 1) else None
  {
    hide Applies;
    assert forall i :: 0 <= i < |rules| - 1 ==> rules[1..][i] == rules[i + 1];
    var s := if Applies(rules[0], path) && (tail.None? || |rules[1..][tail.value].path| < |rules[0].path|) then Some(0)
             else if tail.Some? then Some(tail.value + 1) else None;
    forall i | 0 <= i < |rules| && Applies(rules[i], path)
      ensures s.Some?
              && (|rules[i].path| < |rules[s.value].path| || (|rules[i].path| == |rules[s.value].path| && i <= s.value))
    {
      if i > 0 {
        assert rules[1..][i - 1] == rules[i];
      }
    }
    EffectiveUnique(rules, path, r, s);
  }

  lemma {:induction false} BestElsewhere(rules: seq<Rule>, rule: Rule, remove: bool, path: string)
    requires !Applies(rule, path)
    ensures Best(Updated(rules, rule, remove), path) == Best(rules, path)
  {
    if rules != [] {
      BestElsewhere(rules[1..], rule, remove, path);
    }
  }

  /** An update of any list of rules leaves the rule in force at every path it does not match. */
  lemma InForceElsewhere(rules: seq<Rule>, rule: Rule, remove: bool, path: string)
    requires !Applies(rule, path)
    ensures var r := Updated(rules, rule, remove);
            var a, b := EffectiveOf(rules, path), EffectiveOf(r, path);
            (a.Some? <==> b.Some?) && (a.Some? ==> rules[a.value] == r[b.value])
  {
    hide EffectiveOf, Updated, Best;
    var r := Updated(rules, rule, remove);
    BestElsewhere(rules, rule, remove, path);
    BestIsEffective(rules, path, EffectiveOf(rules, path));
    BestIsEffective(r, path, EffectiveOf(r, path));
  }
}
