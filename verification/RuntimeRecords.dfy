/** The table of live rules, and distributing observations over module records. */
module RuntimeRecords {
  import opened Ordering

  // ---- live rules ------------------------------------------------------------------------

  datatype Rule = Rule(kind: string, path: string, source: string, flags: nat)

  predicate SameKey(a: Rule, b: Rule) { a.kind == b.kind && a.path == b.path && a.source == b.source }

  /** Order of the table: kind, path, source, flags. */
  predicate RuleLess(a: Rule, b: Rule) {
    Less(a.kind, b.kind)
    || (a.kind == b.kind && (Less(a.path, b.path)
                             || (a.path == b.path && (Less(a.source, b.source)
                                                      || (a.source == b.source && a.flags < b.flags)))))
  }

  /** A live rule that shows the recorded one is in force; hiding may carry more flags. */
  predicate Shows(live: Rule, rule: Rule) {
    SameKey(live, rule) && (live.flags == rule.flags || (rule.kind == "HIDE" && rule.flags == 0))
  }

  /** The flags a recorded or live rule may have. */
  predicate ValidRule(r: Rule) { r.flags <= 1 }

  ghost predicate RuleTable(s: seq<Rule>) {
    forall i, j :: 0 <= i < j < |s| ==> !RuleLess(s[j], s[i])
  }

  lemma RuleLessTransitive(a: Rule, b: Rule, c: Rule)
    requires RuleLess(a, b) && RuleLess(b, c)
    ensures RuleLess(a, c)
  {
    hide Less;
    LessIrreflexive(a.kind);
    if Less(a.kind, b.kind) && Less(b.kind, c.kind) {
      LessTransitive(a.kind, b.kind, c.kind);
    } else if a.kind == b.kind == c.kind {
      if Less(a.path, b.path) && Less(b.path, c.path) {
        LessTransitive(a.path, b.path, c.path);
      } else if a.path == b.path == c.path && Less(a.source, b.source) && Less(b.source, c.source) {
        LessTransitive(a.source, b.source, c.source);
      }
    }
  }

  lemma RuleLessTotal(a: Rule, b: Rule)
    ensures RuleLess(a, b) || a == b || RuleLess(b, a)
  {
    hide Less;
    LessTotal(a.kind, b.kind);
    LessTotal(a.path, b.path);
    LessTotal(a.source, b.source);
  }

  lemma RuleLessIrreflexive(a: Rule)
    ensures !RuleLess(a, a)
  {
    hide Less;
    LessIrreflexive(a.kind);
    LessIrreflexive(a.path);
    LessIrreflexive(a.source);
  }

  /** Not above and below. */
  lemma NotAboveBelow(a: Rule, b: Rule, c: Rule)
    requires !RuleLess(b, a) && RuleLess(b, c)
    ensures RuleLess(a, c)
  {
    hide RuleLess;
    RuleLessTotal(a, b);
    if RuleLess(a, b) {
      RuleLessTransitive(a, b, c);
    }
  }

  /** Flags 0 and 1 only: the first live rule not before the recorded one decides. */
  lemma FirstDecides(s: seq<Rule>, rule: Rule, low: nat)
    requires RuleTable(s) && ValidRule(rule) && (forall i :: 0 <= i < |s| ==> ValidRule(s[i])) && low <= |s|
    requires forall i :: 0 <= i < low ==> RuleLess(s[i], rule)
    requires forall i :: low <= i < |s| ==> !RuleLess(s[i], rule)
    ensures (low < |s| && Shows(s[low], rule)) <==> exists i :: 0 <= i < |s| && Shows(s[i], rule)
  {
    hide RuleLess;
    if i :| 0 <= i < |s| && Shows(s[i], rule) {
      SmallerFlagsLess(s[i], rule);
      assert low <= i;
      if low < i {
        assert !RuleLess(s[i], s[low]);
        Between(rule, s[low], s[i]);
      }
    }
  }

  lemma SmallerFlagsLess(live: Rule, rule: Rule)
    requires Shows(live, rule) && ValidRule(live) && ValidRule(rule)
    ensures !RuleLess(live, rule)
  {
    RuleLessIrreflexive(live);
    hide Less;
    LessIrreflexive(live.kind);
    LessIrreflexive(live.path);
    LessIrreflexive(live.source);
  }

  /** Between a recorded rule and one that shows it, everything shows it. */
  lemma Between(rule: Rule, middle: Rule, live: Rule)
    requires !RuleLess(middle, rule) && !RuleLess(live, middle) && Shows(live, rule) && ValidRule(rule)
             && ValidRule(live) && ValidRule(middle)
    ensures Shows(middle, rule)
  {
    hide Less;
    LessTotal(rule.kind, middle.kind);
    LessTotal(rule.path, middle.path);
    LessTotal(rule.source, middle.source);
  }

  function InsertRule(x: Rule, s: seq<Rule>): (r: seq<Rule>)
    ensures forall y :: y in r <==> y == x || y in s
  {
    if s == [] || RuleLess(x, s[0]) then [x] + s else [s[0]] + InsertRule(x, s[1..])
  }

  lemma {:induction false} InsertRuleSorted(x: Rule, s: seq<Rule>)
    requires RuleTable(s)
    ensures RuleTable(InsertRule(x, s))
  {
    hide RuleLess;
    if s != [] {
      if RuleLess(x, s[0]) {
        forall j | 0 <= j < |s|
          ensures !RuleLess(s[j], x)
        {
          if RuleLess(s[j], x) {
            RuleLessTransitive(s[j], x, s[0]);
            RuleLessIrreflexive(s[0]);
          }
        }
      } else {
        InsertRuleSorted(x, s[1..]);
        var r := InsertRule(x, s[1..]);
        forall j | 0 <= j < |r|
          ensures !RuleLess(r[j], s[0])
        {
          assert r[j] in r;
          if r[j] != x {
            var k :| 0 <= k < |s[1..]| && s[1..][k] == r[j];
            assert s[k + 1] == r[j];
          }
        }
      }
    }
  }

  class RuleIndex {
    const rules: seq<Rule>
    var entries: seq<Rule>

    ghost predicate Valid()
      reads this
    {
      RuleTable(entries) && forall r :: r in entries <==> r in rules
    }

    constructor (source: seq<Rule>)
      ensures Valid() && rules == source
    {
      rules := source;
      entries := [];
      new;
      var i := 0;
      while i < |source|
        invariant 0 <= i <= |source| && RuleTable(entries)
        invariant forall r :: r in entries <==> r in source[..i]
      {
        InsertRuleSorted(source[i], entries);
        entries := InsertRule(source[i], entries);
        i := i + 1;
      }
      assert source[..i] == source;
    }

    /** Is a live rule there that shows the recorded one? */
    method Contains(rule: Rule) returns (found: bool)
      requires Valid() && ValidRule(rule) && forall i :: 0 <= i < |rules| ==> ValidRule(rules[i])
      ensures found <==> exists live :: live in rules && Shows(live, rule)
      ensures found <==> exists live :: live in rules && ShowsFlags(live, rule)
    {
      hide RuleLess, Shows;
      var low, high := 0, |entries|;
      while low < high
        invariant 0 <= low <= high <= |entries|
        invariant forall k :: 0 <= k < low ==> RuleLess(entries[k], rule)
        invariant forall k :: high <= k < |entries| ==> !RuleLess(entries[k], rule)
      {
        var middle := low + (high - low) / 2;
        RulePartition(entries, middle, rule);
        if RuleLess(entries[middle], rule) {
          low := middle + 1;
        } else {
          high := middle;
        }
      }
      forall i | 0 <= i < |entries|
        ensures ValidRule(entries[i])
      {
        assert entries[i] in rules;
      }
      FirstDecides(entries, rule, low);
      found := low < |entries| && Shows(entries[low], rule);
      if live :| live in rules && Shows(live, rule) {
        assert live in entries;
      }
      ShowsExactly(rules, rule);
    }
  }

  /** The live rule has the recorded kind, path and source, and its flags; hiding may carry more. */
  predicate ShowsFlags(live: Rule, rule: Rule) {
    && live.kind == rule.kind && live.path == rule.path && live.source == rule.source
    && (live.flags == rule.flags || (rule.kind == "HIDE" && rule.flags <= live.flags))
  }

  /** For flags 0 and 1 carrying all flags asked for is having no fewer. */
  lemma ShowsExactly(rules: seq<Rule>, rule: Rule)
    requires ValidRule(rule) && forall i :: 0 <= i < |rules| ==> ValidRule(rules[i])
    ensures forall live :: live in rules ==> (Shows(live, rule) <==> ShowsFlags(live, rule))
  {}

  lemma RulePartition(s: seq<Rule>, middle: nat, rule: Rule)
    requires RuleTable(s) && middle < |s|
    ensures RuleLess(s[middle], rule) ==> forall k :: 0 <= k <= middle ==> RuleLess(s[k], rule)
    ensures !RuleLess(s[middle], rule) ==> forall k :: middle <= k < |s| ==> !RuleLess(s[k], rule)
  {
    hide RuleLess;
    forall j, k | 0 <= j < k < |s| && RuleLess(s[k], rule)
      ensures RuleLess(s[j], rule)
    {
      assert !RuleLess(s[k], s[j]);
      NotAboveBelow(s[j], s[k], rule);
    }
  }

  // ---- distributing ----------------------------------------------------------------------

  /** An observation and the modules it names; its number tells equal observations apart. */
  datatype Contribution = Contribution(number: nat, owners: seq<string>)

  datatype Record = Record(backend: string, complete: bool, contributions: seq<Contribution>)

  datatype Module = Module(id: string, record: Record)

  /** A database: modules in key order. */
  ghost predicate Keyed(modules: seq<Module>) {
    forall i, j :: 0 <= i < j < |modules| ==> Less(modules[i].id, modules[j].id)
  }

  /** The observations that name a module, in order, once each. */
  function Naming(contributions: seq<Contribution>, id: string): seq<Contribution> {
    if contributions == [] then []
    else
      var last := contributions[|contributions| - 1];
      Naming(contributions[..|contributions| - 1], id) + (if id in last.owners then [last] else [])
  }

  /** What names a module, and nothing else, once for each time it was observed and in the order of
    * observation. */
  lemma {:induction false} NamingExactly(a: seq<Contribution>, b: seq<Contribution>, id: string, c: Contribution)
    ensures Naming(a + b, id) == Naming(a, id) + Naming(b, id)
    ensures Naming([c], id) == if id in c.owners then [c] else []
    ensures c in Naming(a, id) <==> c in a && id in c.owners
    decreases |a| + |b|
  {
    assert [c][..0] == [];
    if b != [] {
      var n := |b| - 1;
      assert (a + b)[..|a + b| - 1] == a + b[..n];
      NamingExactly(a, b[..n], id, c);
    } else {
      assert a + b == a;
      if a != [] {
        var n := |a| - 1;
        NamingExactly(a[..n], [], id, c);
        assert a == a[..n] + [a[n]];
      }
    }
  }

  /** A record after distribution. */
  function Distributed(m: Module, backend: string, contributions: seq<Contribution>, complete: bool): Module {
    if m.record.backend != backend then m
    else m.(record := m.record.(complete := complete, contributions := Naming(contributions, m.id)))
  }

  class Database {
    var modules: seq<Module>

    constructor (initial: seq<Module>)
      ensures modules == initial
    {
      modules := initial;
    }

    /** Every record of the backend gets exactly the observations naming it; the others stay. */
    method Distribute(backend: string, contributions: seq<Contribution>, complete: bool)
      requires Keyed(modules)
      modifies this
      ensures |modules| == |old(modules)|
      ensures forall k :: 0 <= k < |modules| ==>
              modules[k] == Distributed(old(modules)[k], backend, contributions, complete)
    {
      hide Less;
      ghost var start := modules;
      var targets := Clear(backend, complete);
      var i := 0;
      while i < |contributions|
        invariant 0 <= i <= |contributions| && |modules| == |start|
        invariant forall k :: 0 <= k < |modules| ==>
                  modules[k] == Distributed(start[k], backend, contributions[..i], complete)
      {
        Give(targets, backend, contributions[i], complete, start, contributions[..i]);
        assert contributions[..i + 1][..i] == contributions[..i];
        i := i + 1;
      }
      assert contributions[..i] == contributions;
    }

    /** Empty the records of the backend and list them. */
    method Clear(backend: string, complete: bool) returns (targets: seq<nat>)
      modifies this
      ensures |modules| == |old(modules)|
      ensures forall k :: 0 <= k < |modules| ==> modules[k] == Distributed(old(modules)[k], backend, [], complete)
      ensures Targets(targets, old(modules), backend)
    {
      ghost var start := modules;
      targets := [];
      var i: nat := 0;
      while i < |modules|
        invariant i <= |modules| == |start|
        invariant forall k :: i <= k < |modules| ==> modules[k] == start[k]
        invariant forall k :: 0 <= k < i ==> modules[k] == Distributed(start[k], backend, [], complete)
        invariant Targets(targets, start[..i], backend)
      {
        var m := modules[i];
        if m.record.backend == backend {
          modules := modules[i := m.(record := m.record.(complete := complete, contributions := []))];
          targets := targets + [i];
        }
        i := i + 1;
      }
      assert start[..i] == start;
    }

    /** One observation to each module it names, however often it names it. */
    method Give(targets: seq<nat>, backend: string, c: Contribution, complete: bool, ghost start: seq<Module>,
            ghost before: seq<Contribution>)
      requires |modules| == |start| && Keyed(start) && Targets(targets, start, backend)
      requires forall k :: 0 <= k < |modules| ==> modules[k] == Distributed(start[k], backend, before, complete)
      modifies this
      ensures |modules| == |start|
      ensures forall k :: 0 <= k < |modules| ==> modules[k] == Distributed(start[k], backend, before + [c], complete)
    {
      hide Less;
      var served: set<nat> := {};
      var j := 0;
      while j < |c.owners|
        invariant 0 <= j <= |c.owners| && |modules| == |start|
        invariant forall k :: k in served <==>
                  0 <= k < |start| && start[k].record.backend == backend && start[k].id in c.owners[..j]
        invariant forall k :: 0 <= k < |modules| ==>
                  modules[k] == Partly(start[k], backend, before, complete, c, k in served)
      {
        assert c.owners[..j + 1] == c.owners[..j] + [c.owners[j]];
        var found, at := Lookup(targets, c.owners[j], start, backend);
        if found && targets[at] !in served {
          var k := targets[at];
          var m := modules[k];
          modules := modules[k := m.(record := m.record.(contributions := m.record.contributions + [c]))];
          served := served + {k};
        }
        j := j + 1;
      }
      assert c.owners[..j] == c.owners && (before + [c])[..|before|] == before;
    }

    /** Binary search of the targets by module id. */
    method Lookup(targets: seq<nat>, id: string, ghost start: seq<Module>, ghost backend: string)
      returns (found: bool, at: nat)
      requires |modules| == |start| && Keyed(start) && Targets(targets, start, backend)
      requires forall k :: 0 <= k < |modules| ==> modules[k].id == start[k].id
      ensures found ==> at < |targets| && start[targets[at]].id == id
      ensures !found ==> forall k :: 0 <= k < |start| && start[k].record.backend == backend ==> start[k].id != id
      ensures forall k :: 0 <= k < |start| && start[k].id == id && found ==> k == targets[at]
    {
      hide Less;
      var low, high := 0, |targets|;
      while low < high
        invariant 0 <= low <= high <= |targets|
        invariant forall k :: 0 <= k < low ==> Less(start[targets[k]].id, id)
        invariant forall k :: high <= k < |targets| ==> !Less(start[targets[k]].id, id)
      {
        var middle := low + (high - low) / 2;
        TargetPartition(targets, start, backend, middle, id);
        if Less(modules[targets[middle]].id, id) {
          low := middle + 1;
        } else {
          high := middle;
        }
      }
      at := low;
      found := low < |targets| && modules[targets[low]].id == id;
      TargetBound(targets, start, backend, low, id);
    }
  }

  /** The modules of a backend, by position, ascending. */
  ghost predicate Targets(targets: seq<nat>, modules: seq<Module>, backend: string) {
    && (forall i :: 0 <= i < |targets| ==> targets[i] < |modules| && modules[targets[i]].record.backend == backend)
    && (forall i, j :: 0 <= i < j < |targets| ==> targets[i] < targets[j])
    && (forall k :: 0 <= k < |modules| && modules[k].record.backend == backend ==> k in targets)
  }

  /** A record that may already have the current observation. */
  function Partly(m: Module, backend: string, before: seq<Contribution>, complete: bool, c: Contribution,
          served: bool): Module
  {
    var d := Distributed(m, backend, before, complete);
    if served then d.(record := d.record.(contributions := d.record.contributions + [c])) else d
  }

  lemma TargetPartition(targets: seq<nat>, modules: seq<Module>, backend: string, middle: nat, id: string)
    requires Keyed(modules) && Targets(targets, modules, backend) && middle < |targets|
    ensures Less(modules[targets[middle]].id, id) ==> forall k :: 0 <= k <= middle ==> Less(modules[targets[k]].id, id)
    ensures !Less(modules[targets[middle]].id, id) ==> forall k :: middle <= k < |targets| ==>
            !Less(modules[targets[k]].id, id)
  {
    hide Less;
    forall j, k | 0 <= j < k < |targets| && Less(modules[targets[k]].id, id)
      ensures Less(modules[targets[j]].id, id)
    {
      LessTransitive(modules[targets[j]].id, modules[targets[k]].id, id);
    }
  }

  lemma TargetBound(targets: seq<nat>, modules: seq<Module>, backend: string, low: nat, id: string)
    requires Keyed(modules) && Targets(targets, modules, backend) && low <= |targets|
    requires forall k :: 0 <= k < low ==> Less(modules[targets[k]].id, id)
    requires forall k :: low <= k < |targets| ==> !Less(modules[targets[k]].id, id)
    ensures forall k :: 0 <= k < |modules| && modules[k].record.backend == backend && modules[k].id == id ==>
              low < |targets| && modules[targets[low]].id == id
    ensures forall j, k :: 0 <= j < k < |modules| ==> modules[j].id != modules[k].id
  {
    hide Less;
    LessIrreflexive(id);
    forall i | low < i < |targets|
      ensures modules[targets[i]].id != id
    {
      assert Less(modules[targets[low]].id, modules[targets[i]].id);
    }
    forall k | 0 <= k < |modules| && modules[k].record.backend == backend && modules[k].id == id
      ensures low < |targets| && modules[targets[low]].id == id
    {
      assert k in targets;
      var i :| 0 <= i < |targets| && targets[i] == k;
    }
    forall j, k | 0 <= j < k < |modules|
      ensures modules[j].id != modules[k].id
    {
      LessIrreflexive(modules[j].id);
    }
  }
}
