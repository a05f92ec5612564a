/** From modules to live kernel rules, and the evidence kept of them. */
module KasumiInstall {
  import opened Options
  import opened Ordering
  import opened KasumiRules
  import opened KasumiPlan

  datatype Module = Module(id: string, rules: seq<Rule>, bypass: bool, path: string, trees: map<string, Node>)

  /** The enumeration's order. */
  ghost predicate SortedById(modules: seq<Module>) {
    forall i, j :: 0 <= i < j < |modules| ==> Less(modules[i].id, modules[j].id)
  }

  /** Later mappings never belong to a later module. */
  ghost predicate OwnersDescend(mappings: seq<Mapping>) {
    forall i, j :: 0 <= i < j < |mappings| ==> AtMost(mappings[j].owner, mappings[i].owner)
  }

  /** What a batch holds. */
  datatype Totals = Totals(mappings: seq<Mapping>, hidden: map<string, bool>, owners: map<string, set<string>>)

  ghost function TotalsOf(b: Batch): Totals
    reads b
  {
    Totals(b.mappings, b.hidden, b.owners)
  }

  /** A plan of one module added. */
  function After(t: Totals, p: Plan, owner: string): Totals {
    Totals(t.mappings + p.mappings, HideAll(t.hidden, p.hides), OwnAll(t.owners, p.hides, owner))
  }

  /** The hide rules of a module itself, whether or not its tree has the path. */
  function RulesHidden(t: Totals, m: Module, n: nat): Totals
    requires n <= |m.rules|
  {
    if n == 0 then t
    else
      var rule, before := m.rules[n - 1], RulesHidden(t, m, n - 1);
      if rule.mode == "hide" && Absolute(rule.path) then
        After(before, Plan([], [Hide(rule.path, m.bypass || rule.bypass)]), m.id)
      else before
  }

  function AllRulesHidden(t: Totals, modules: seq<Module>, n: nat): Totals
    requires n <= |modules|
  {
    if n == 0 then t else RulesHidden(AllRulesHidden(t, modules, n - 1), modules[n - 1], |modules[n - 1].rules|)
  }

  method AddRuleHides(modules: seq<Module>, batch: Batch)
    modifies batch
    ensures TotalsOf(batch) == AllRulesHidden(old(TotalsOf(batch)), modules, |modules|)
  {
    var i: nat := 0;
    while i < |modules|
      invariant i <= |modules| && TotalsOf(batch) == AllRulesHidden(old(TotalsOf(batch)), modules, i)
    {
      var m := modules[i];
      ghost var start := TotalsOf(batch);
      var k: nat := 0;
      while k < |m.rules|
        invariant k <= |m.rules| && TotalsOf(batch) == RulesHidden(start, m, k)
      {
        var rule := m.rules[k];
        if rule.mode == "hide" && Absolute(rule.path) {
          OneHide(batch.hidden, batch.owners, rule.path, m.bypass || rule.bypass, m.id);
          batch.AddHide(rule.path, m.id, m.bypass || rule.bypass);
        }
        k := k + 1;
      }
      i := i + 1;
    }
  }

  function JobOf(m: Module, stock: Stock): Job { Job(m.rules, stock, m.id, m.bypass) }

  function RootOf(m: Module, partition: string): Option<Node> {
    if partition in m.trees then Some(m.trees[partition]) else None
  }

  /** The plan of one partition of a module. */
  ghost function PlanPart(m: Module, partition: string, stock: Stock): Option<Plan> {
    PlanTree(JobOf(m, stock), RootOf(m, partition), "/" + partition, Child(m.path, partition))
  }

  /** The first n partitions of a module compiled; None where one is refused. */
  ghost function PartsCompiled(t: Totals, m: Module, partitions: seq<string>, n: nat, stock: Stock): Option<Totals>
    requires n <= |partitions|
  {
    if n == 0 then Some(t)
    else
      var before, plan := PartsCompiled(t, m, partitions, n - 1, stock), PlanPart(m, partitions[n - 1], stock);
      if before.None? || plan.None? then None else Some(After(before.value, plan.value, m.id))
  }

  /** The modules from i on compiled, the last one first. */
  ghost function Compiled(t: Totals, modules: seq<Module>, partitions: seq<string>, i: nat,
          stock: Stock): Option<Totals>
    requires i <= |modules|
    decreases |modules| - i
  {
    if i == |modules| then Some(t)
    else
      var before := Compiled(t, modules, partitions, i + 1, stock);
      if before.None? then None else PartsCompiled(before.value, modules[i], partitions, |partitions|, stock)
  }

  lemma {:induction false} PartsRefused(t: Totals, m: Module, partitions: seq<string>, n: nat, stock: Stock)
    requires n <= |partitions| && PartsCompiled(t, m, partitions, n, stock).None?
    ensures PartsCompiled(t, m, partitions, |partitions|, stock).None?
    decreases |partitions| - n
  {
    hide PlanPart;
    if n < |partitions| {
      PartsRefused(t, m, partitions, n + 1, stock);
    }
  }

  lemma {:induction false} ModulesRefused(t: Totals, modules: seq<Module>, partitions: seq<string>, i: nat,
          stock: Stock)
    requires i <= |modules| && Compiled(t, modules, partitions, i, stock).None?
    ensures Compiled(t, modules, partitions, 0, stock).None?
    decreases i
  {
    if i > 0 {
      ModulesRefused(t, modules, partitions, i - 1, stock);
    }
  }

  /** Compile every module, the last one first; everything collected is described, and later mappings
    * never belong to a later module. */
  method CompileModules(modules: seq<Module>, partitions: seq<string>, stock: Stock, batch: Batch) returns (ok: bool)
    requires SortedById(modules) && batch.mappings == []
    modifies batch
    ensures ok <==> Compiled(old(TotalsOf(batch)), modules, partitions, 0, stock).Some?
    ensures ok ==> TotalsOf(batch) == Compiled(old(TotalsOf(batch)), modules, partitions, 0, stock).value
    ensures ok ==> OwnersDescend(batch.mappings)
  {
    hide Less, PlanTree, PartsCompiled, After, HideAll, OwnAll;
    ghost var start := TotalsOf(batch);
    var i: nat := |modules|;
    while i > 0
      invariant i <= |modules| && OwnersDescend(batch.mappings)
                && Compiled(start, modules, partitions, i, stock) == Some(TotalsOf(batch))
      invariant forall k :: 0 <= k < |batch.mappings| ==> OwnerFrom(modules, i, batch.mappings[k].owner)
    {
      i := i - 1;
      ghost var before := TotalsOf(batch);
      OwnersAbove(modules, i, batch.mappings);
      ok := CompileModule(modules, i, partitions, stock, batch);
      if !ok {
        ModulesRefused(start, modules, partitions, i, stock);
        return;
      }
    }
    ok := true;
  }

  /** One module over all partitions. */
  method CompileModule(modules: seq<Module>, i: nat, partitions: seq<string>, stock: Stock, batch: Batch)
    returns (ok: bool)
    requires i < |modules| && OwnersDescend(batch.mappings) && OwnersAtLeast(modules, i, batch.mappings)
    modifies batch
    ensures ok <==> PartsCompiled(old(TotalsOf(batch)), modules[i], partitions, |partitions|, stock).Some?
    ensures ok ==>
            TotalsOf(batch) == PartsCompiled(old(TotalsOf(batch)), modules[i], partitions, |partitions|, stock).value
    ensures ok ==> OwnersDescend(batch.mappings) && OwnersAtLeast(modules, i, batch.mappings)
  {
    hide Less, PlanTree, HideAll, OwnAll, OwnersDescend, OwnersAtLeast;
    ghost var start := TotalsOf(batch);
    var m := modules[i];
    var index := new RuleIndex(m.rules);
    var job := JobOf(m, stock);
    var p: nat := 0;
    while p < |partitions|
      invariant p <= |partitions| && index.Valid() && index.rules == m.rules
      invariant PartsCompiled(start, m, partitions, p, stock) == Some(TotalsOf(batch))
      invariant OwnersDescend(batch.mappings) && OwnersAtLeast(modules, i, batch.mappings)
    {
      var root := RootOf(m, partitions[p]);
      var target, source := "/" + partitions[p], Child(m.path, partitions[p]);
      ghost var mappings := batch.mappings;
      ok := batch.CompileTree(job, index, root, target, source);
      p := p + 1;
      if !ok {
        PartsRefused(start, m, partitions, p, stock);
        return;
      }
      TreeOwner(job, root, target, source);
      OwnersAppend(modules, i, mappings, PlanTree(job, root, target, source).value.mappings);
    }
    ok := true;
  }

  /** Every mapping belongs to the module or a later one, none before it in the order. */
  ghost predicate OwnersAtLeast(modules: seq<Module>, i: nat, mappings: seq<Mapping>)
    requires i < |modules|
  {
    forall k :: 0 <= k < |mappings| ==>
        OwnerFrom(modules, i, mappings[k].owner) && AtMost(modules[i].id, mappings[k].owner)
  }

  lemma OwnersAbove(modules: seq<Module>, i: nat, mappings: seq<Mapping>)
    requires i < |modules| && SortedById(modules)
    requires forall k :: 0 <= k < |mappings| ==> OwnerFrom(modules, i + 1, mappings[k].owner)
    ensures OwnersAtLeast(modules, i, mappings)
  {
    hide Less;
    forall k | 0 <= k < |mappings|
      ensures OwnerFrom(modules, i, mappings[k].owner) && AtMost(modules[i].id, mappings[k].owner)
    {
      EarlierOwner(modules, i, mappings[k].owner);
    }
  }

  lemma OwnersAppend(modules: seq<Module>, i: nat, mappings: seq<Mapping>, more: seq<Mapping>)
    requires i < |modules| && OwnersDescend(mappings) && OwnersAtLeast(modules, i, mappings)
             && OwnedBy(more, modules[i].id)
    ensures OwnersDescend(mappings + more) && OwnersAtLeast(modules, i, mappings + more)
  {
    hide Less;
    assert OwnerFrom(modules, i, modules[i].id);
  }

  ghost predicate OwnerFrom(modules: seq<Module>, i: nat, owner: string) {
    exists j :: i <= j < |modules| && modules[j].id == owner
  }

  lemma EarlierOwner(modules: seq<Module>, i: nat, owner: string)
    requires i < |modules| && SortedById(modules) && OwnerFrom(modules, i + 1, owner)
    ensures OwnerFrom(modules, i, owner) && AtMost(modules[i].id, owner)
  {
    var j :| i + 1 <= j < |modules| && modules[j].id == owner;
    assert Less(modules[i].id, modules[j].id);
  }

  lemma TreeOwner(job: Job, root: Option<Node>, target: string, source: string)
    requires PlanTree(job, root, target, source).Some?
    ensures OwnedBy(PlanTree(job, root, target, source).value.mappings, job.owner)
  {
    if root.Some? && root.value.Dir? {
      ItemsOwner(job, root.value.items, target, source);
    }
  }

  /** Some of a module's first n rules hides this very path. */
  ghost predicate HidesPath(m: Module, n: nat, path: string) {
    exists k :: 0 <= k < n <= |m.rules| && m.rules[k].mode == "hide" && Absolute(path) && m.rules[k].path == path
  }

  /** And it, or the module, carries the flag. */
  ghost predicate HidesFlagged(m: Module, n: nat, path: string) {
    exists k :: 0 <= k < n <= |m.rules| && m.rules[k].mode == "hide" && Absolute(path) && m.rules[k].path == path
                && (m.bypass || m.rules[k].bypass)
  }

  ghost predicate AnyHides(modules: seq<Module>, n: nat, path: string) {
    exists i :: 0 <= i < n <= |modules| && HidesPath(modules[i], |modules[i].rules|, path)
  }

  ghost predicate AnyFlagged(modules: seq<Module>, n: nat, path: string) {
    exists i :: 0 <= i < n <= |modules| && HidesFlagged(modules[i], |modules[i].rules|, path)
  }

  /** A path is hidden by a rule of its own exactly when some module has an absolute hide rule for it, and
    * with the flag when such a rule or its module carries it. */
  lemma {:induction false} RuleHidesExactly(modules: seq<Module>, n: nat, path: string)
    requires n <= |modules|
    ensures var t := AllRulesHidden(Totals([], map[], map[]), modules, n);
            && (path in t.hidden <==> AnyHides(modules, n, path))
            && (path in t.hidden ==> (t.hidden[path] <==> AnyFlagged(modules, n, path)))
  {
    if n > 0 {
      hide HidesPath, HidesFlagged, RulesHidden;
      var before, m := AllRulesHidden(Totals([], map[], map[]), modules, n - 1), modules[n - 1];
      RuleHidesExactly(modules, n - 1, path);
      ModuleHidesExactly(before, m, |m.rules|, path);
      assert AnyHides(modules, n, path) <==> AnyHides(modules, n - 1, path) || HidesPath(m, |m.rules|, path);
      assert AnyFlagged(modules, n, path) <==> AnyFlagged(modules, n - 1, path) || HidesFlagged(m, |m.rules|, path);
      FlaggedHide(modules, n - 1, path);
    }
  }

  lemma FlaggedHide(modules: seq<Module>, n: nat, path: string)
    ensures AnyFlagged(modules, n, path) ==> AnyHides(modules, n, path)
    ensures forall m: Module, k: nat :: HidesFlagged(m, k, path) ==> HidesPath(m, k, path)
  {
    forall m: Module, k: nat | HidesFlagged(m, k, path)
      ensures HidesPath(m, k, path)
    {}
  }

  lemma {:induction false} ModuleHidesExactly(t: Totals, m: Module, n: nat, path: string)
    requires n <= |m.rules|
    ensures var after := RulesHidden(t, m, n);
            && (path in after.hidden <==> path in t.hidden || HidesPath(m, n, path))
            && (path in after.hidden ==>
                  (after.hidden[path] <==> (path in t.hidden && t.hidden[path]) || HidesFlagged(m, n, path)))
  {
    if n > 0 {
      ModuleHidesExactly(t, m, n - 1, path);
      var rule, before := m.rules[n - 1], RulesHidden(t, m, n - 1);
      OneHide(before.hidden, before.owners, rule.path, m.bypass || rule.bypass, m.id);
      var here := rule.mode == "hide" && Absolute(path) && rule.path == path;
      assert HidesPath(m, n, path) <==> HidesPath(m, n - 1, path) || here;
      assert HidesFlagged(m, n, path) <==> HidesFlagged(m, n - 1, path) || (here && (m.bypass || rule.bypass));
      assert HidesFlagged(m, n - 1, path) ==> HidesPath(m, n - 1, path);
    }
  }

  // ---- installing ------------------------------------------------------------------------

  datatype Evidence = Evidence(operation: string, target: string, source: string, owner: string, bypass: bool)

  function MergeEvidence(m: Mapping): Evidence { Evidence("MERGE", m.path, m.source, m.owner, m.bypass) }
  function AddEvidence(target: string, m: Mapping): Evidence { Evidence("ADD", target, m.source, m.owner, m.bypass) }

  /** The ADD table after trying the mappings in order: a later success replaces by resolved target. */
  function Table(mappings: seq<Mapping>, resolved: seq<string>, installed: seq<bool>): (r: map<string, Mapping>)
    requires |resolved| == |mappings| == |installed|
  {
    if mappings == [] then map[]
    else
      var n := |mappings| - 1;
      var before := Table(mappings[..n], resolved[..n], installed[..n]);
      if mappings[n].merge || !installed[n] then before else before[resolved[n] := mappings[n]]
  }

  function All(n: nat): seq<bool> { seq(n, _ => true) }

  /** Tries every mapping; `outcome` says which the kernel accepts, `resolved` its canonical target. */
  method Install(mappings: seq<Mapping>, resolved: seq<string>, outcome: seq<bool>)
    returns (ok: bool, live: map<string, Mapping>, evidence: set<Evidence>)
    requires |resolved| == |mappings| == |outcome|
    ensures ok <==> forall i :: 0 <= i < |outcome| ==> outcome[i]
    ensures live == Table(mappings, resolved, outcome)
    ensures forall p :: p in live ==>
              exists e :: e in evidence && e.operation == "ADD" && e.target == p && e.source == live[p].source
                  && e.bypass == live[p].bypass
    ensures forall i :: 0 <= i < |mappings| && mappings[i].merge ==>
              var m := mappings[i]; Evidence("MERGE", m.path, m.source, m.owner, m.bypass) in evidence
    ensures forall e :: e in evidence ==>
              || (e.operation == "MERGE"
                  && exists i :: 0 <= i < |mappings| && mappings[i].merge && e == MergeEvidence(mappings[i]))
              || (e.operation == "ADD" && e.target in Table(mappings, resolved, All(|mappings|))
                  && e == AddEvidence(e.target, Table(mappings, resolved, All(|mappings|))[e.target]))
              || (e.target in live && e.operation == "ADD" && e == AddEvidence(e.target, live[e.target]))
    ensures forall e :: e in evidence && e.operation == "ADD" ==> AddedBy(mappings, resolved, e)
  {
    var expected: map<string, Mapping> := map[];
    live, evidence, ok := map[], {}, true;
    var i := 0;
    while i < |mappings|
      invariant 0 <= i <= |mappings| && (ok <==> forall k :: 0 <= k < i ==> outcome[k])
      invariant live == Table(mappings[..i], resolved[..i], outcome[..i])
      invariant expected == Table(mappings[..i], resolved[..i], All(i))
      invariant forall p :: p in live ==> p in expected
      invariant evidence == set k | 0 <= k < i && mappings[k].merge :: MergeEvidence(mappings[k])
    {
      var rule := mappings[i];
      TableStep(mappings, resolved, outcome, i);
      if rule.merge {
        evidence := evidence + {MergeEvidence(rule)};
      } else {
        expected := expected[resolved[i] := rule];
        if outcome[i] {
          live := live[resolved[i] := rule];
        }
      }
      ok := outcome[i] && ok;
      i := i + 1;
    }
    assert mappings[..i] == mappings && resolved[..i] == resolved && outcome[..i] == outcome;
    ghost var merges := evidence;
    var rest := expected.Keys;
    while rest != {}
      invariant rest <= expected.Keys
      invariant merges <= evidence
      invariant forall p :: p in live && p !in rest ==>
          exists e :: e in evidence && e.operation == "ADD" && e.target == p && e.source == live[p].source
              && e.bypass == live[p].bypass
      invariant forall e :: e in evidence ==>
          || e in merges
          || (e.target in expected && e == AddEvidence(e.target, expected[e.target]))
          || (e.target in live && e == AddEvidence(e.target, live[e.target]))
    {
      var p :| p in rest;
      var e := AddEvidence(p, expected[p]);
      evidence := evidence + {e};
      if p in live && (live[p].source != expected[p].source || live[p].bypass != expected[p].bypass) {
        e := AddEvidence(p, live[p]);
        evidence := evidence + {e};
      }
      assert e in evidence;
      rest := rest - {p};
    }
    forall e | e in evidence && e.operation == "ADD"
      ensures AddedBy(mappings, resolved, e)
    {
      AddHasMapping(mappings, resolved, All(|mappings|), e);
      AddHasMapping(mappings, resolved, outcome, e);
    }
  }

  /** Some mapping of the batch is behind an ADD in the evidence. */
  ghost predicate AddedBy(mappings: seq<Mapping>, resolved: seq<string>, e: Evidence)
    requires |resolved| == |mappings|
  {
    exists i :: 0 <= i < |mappings| && !mappings[i].merge && resolved[i] == e.target
      && mappings[i].source == e.source && mappings[i].owner == e.owner && mappings[i].bypass == e.bypass
  }

  lemma AddHasMapping(mappings: seq<Mapping>, resolved: seq<string>, installed: seq<bool>, e: Evidence)
    requires |resolved| == |mappings| == |installed|
    ensures var t := Table(mappings, resolved, installed);
            e.target in t && e == AddEvidence(e.target, t[e.target]) ==> AddedBy(mappings, resolved, e)
  {
    hide Table;
    LastAcceptedWins(mappings, resolved, installed, e.target);
  }

  lemma {:induction false} TableStep(mappings: seq<Mapping>, resolved: seq<string>, outcome: seq<bool>, i: nat)
    requires |resolved| == |mappings| == |outcome| && i < |mappings|
    ensures Table(mappings[..i + 1], resolved[..i + 1], outcome[..i + 1])
         == var before := Table(mappings[..i], resolved[..i], outcome[..i]);
            if mappings[i].merge || !outcome[i] then before else before[resolved[i] := mappings[i]]
    ensures Table(mappings[..i + 1], resolved[..i + 1], All(i + 1))
         == var before := Table(mappings[..i], resolved[..i], All(i));
            if mappings[i].merge then before else before[resolved[i] := mappings[i]]
  {
    assert mappings[..i + 1][..i] == mappings[..i] && resolved[..i + 1][..i] == resolved[..i];
    assert outcome[..i + 1][..i] == outcome[..i] && All(i + 1)[..i] == All(i);
  }

  ghost predicate IsAdd(mappings: seq<Mapping>, resolved: seq<string>, installed: seq<bool>, i: int, p: string)
    requires |resolved| == |mappings| == |installed|
  {
    0 <= i < |mappings| && !mappings[i].merge && installed[i] && resolved[i] == p
  }

  /** What is live at a target is the last mapping accepted for it. */
  lemma {:induction false} LastAcceptedWins(mappings: seq<Mapping>, resolved: seq<string>, installed: seq<bool>,
          p: string)
    requires |resolved| == |mappings| == |installed|
    ensures p in Table(mappings, resolved, installed) <==> exists i :: IsAdd(mappings, resolved, installed, i, p)
    ensures p in Table(mappings, resolved, installed) ==>
              exists i :: IsAdd(mappings, resolved, installed, i, p)
                  && Table(mappings, resolved, installed)[p] == mappings[i]
                  && forall k :: IsAdd(mappings, resolved, installed, k, p) ==> k <= i
  {
    if mappings != [] {
      var n := |mappings| - 1;
      var ms, rs, os := mappings[..n], resolved[..n], installed[..n];
      LastAcceptedWins(ms, rs, os, p);
      assert forall i :: i < n ==> (IsAdd(ms, rs, os, i, p) <==> IsAdd(mappings, resolved, installed, i, p));
      assert forall i :: IsAdd(mappings, resolved, installed, i, p) ==> i < n || i == n;
      if IsAdd(mappings, resolved, installed, n, p) {
      } else if p in Table(ms, rs, os) {
        var i :| IsAdd(ms, rs, os, i, p) && Table(ms, rs, os)[p] == ms[i]
                 && forall k :: IsAdd(ms, rs, os, k, p) ==> k <= i;
        assert IsAdd(mappings, resolved, installed, i, p);
      }
    }
  }

  /** Of the modules whose mapping for a target was accepted, the one with the smallest id holds it. */
  lemma {:induction false} SmallestIdWins(mappings: seq<Mapping>, resolved: seq<string>, installed: seq<bool>, i: nat)
    requires |resolved| == |mappings| == |installed| && OwnersDescend(mappings)
    requires i < |mappings| && !mappings[i].merge && installed[i]
    ensures var live := Table(mappings, resolved, installed);
            resolved[i] in live && AtMost(live[resolved[i]].owner, mappings[i].owner)
  {
    var p := resolved[i];
    assert IsAdd(mappings, resolved, installed, i, p);
    LastAcceptedWins(mappings, resolved, installed, p);
  }

  // ---- from the modules to the table -----------------------------------------------------

  /** The mappings of the first n partitions of a module. */
  ghost function MappingsOf(m: Module, partitions: seq<string>, n: nat, stock: Stock): seq<Mapping>
    requires n <= |partitions|
  {
    if n == 0 then []
    else
      var plan := PlanPart(m, partitions[n - 1], stock);
      MappingsOf(m, partitions, n - 1, stock) + if plan.Some? then plan.value.mappings else []
  }

  /** Those of the modules from i on, the last module first. */
  ghost function MappingsFrom(modules: seq<Module>, partitions: seq<string>, i: nat, stock: Stock): seq<Mapping>
    requires i <= |modules|
    decreases |modules| - i
  {
    if i == |modules| then []
    else MappingsFrom(modules, partitions, i + 1, stock) + MappingsOf(modules[i], partitions, |partitions|, stock)
  }

  lemma {:induction false} PartsMappings(t: Totals, m: Module, partitions: seq<string>, n: nat, stock: Stock)
    requires n <= |partitions| && PartsCompiled(t, m, partitions, n, stock).Some?
    ensures PartsCompiled(t, m, partitions, n, stock).value.mappings == t.mappings + MappingsOf(m, partitions, n, stock)
    ensures OwnedBy(MappingsOf(m, partitions, n, stock), m.id)
  {
    hide PlanTree, HideAll, OwnAll;
    if n > 0 {
      PartsMappings(t, m, partitions, n - 1, stock);
      var part := partitions[n - 1];
      TreeOwner(JobOf(m, stock), RootOf(m, part), "/" + part, Child(m.path, part));
    }
  }

  lemma {:induction false} CompiledMappings(t: Totals, modules: seq<Module>, partitions: seq<string>, i: nat,
          stock: Stock)
    requires i <= |modules| && Compiled(t, modules, partitions, i, stock).Some?
    ensures Compiled(t, modules, partitions, i, stock).value.mappings
         == t.mappings + MappingsFrom(modules, partitions, i, stock)
    ensures forall j :: i <= j < |modules| ==>
              OwnedBy(MappingsOf(modules[j], partitions, |partitions|, stock), modules[j].id)
    decreases |modules| - i
  {
    hide PartsCompiled, MappingsOf;
    if i < |modules| {
      CompiledMappings(t, modules, partitions, i + 1, stock);
      var before := Compiled(t, modules, partitions, i + 1, stock).value;
      PartsMappings(before, modules[i], partitions, |partitions|, stock);
    }
  }

  lemma {:induction false} MappingSource(modules: seq<Module>, partitions: seq<string>, i: nat, stock: Stock,
          x: Mapping)
    requires i <= |modules|
    ensures x in MappingsFrom(modules, partitions, i, stock) <==>
              exists j :: i <= j < |modules| && x in MappingsOf(modules[j], partitions, |partitions|, stock)
    decreases |modules| - i
  {
    hide MappingsOf;
    if i < |modules| {
      MappingSource(modules, partitions, i + 1, stock, x);
    }
  }

  /** The mapping is a rule of the module for a target. */
  ghost predicate ClaimsWith(m: Module, partitions: seq<string>, stock: Stock, canonical: string -> string, p: string,
          x: Mapping)
  {
    x in MappingsOf(m, partitions, |partitions|, stock) && !x.merge && canonical(x.path) == p
  }

  ghost predicate Claims(m: Module, partitions: seq<string>, stock: Stock, canonical: string -> string, p: string) {
    exists x :: ClaimsWith(m, partitions, stock, canonical, p, x)
  }

  /** A rule in force belongs to the first module that claims its target. */
  ghost predicate FirstClaim(modules: seq<Module>, partitions: seq<string>, stock: Stock, canonical: string -> string,
          p: string, x: Mapping, j: nat)
  {
    && j < |modules| && ClaimsWith(modules[j], partitions, stock, canonical, p, x)
    && forall k :: 0 <= k < j ==> !Claims(modules[k], partitions, stock, canonical, p)
  }

  lemma RuleHidesOnly(t: Totals, modules: seq<Module>, n: nat)
    requires n <= |modules|
    ensures AllRulesHidden(t, modules, n).mappings == t.mappings
  {
    if n > 0 {
      RuleHidesOnly(t, modules, n - 1);
      ModuleHidesOnly(AllRulesHidden(t, modules, n - 1), modules[n - 1], |modules[n - 1].rules|);
    }
  }

  lemma ModuleHidesOnly(t: Totals, m: Module, n: nat)
    requires n <= |m.rules|
    ensures RulesHidden(t, m, n).mappings == t.mappings
  {
    if n > 0 {
      ModuleHidesOnly(t, m, n - 1);
    }
  }

  /** Compile and install everything. `accepts` says which of the installs succeed, `canonical` where a
    * path leads. A target is held by the smallest id among the accepted mappings for it; when all are
    * accepted, the targets in force are those some module claims, each with the first such module's rule. */
  method Apply(modules: seq<Module>, partitions: seq<string>, stock: Stock, canonical: string -> string,
          accepts: nat -> bool)
    returns (ok: bool, live: map<string, Mapping>, ghost mappings: seq<Mapping>)
    requires SortedById(modules)
    ensures var start := AllRulesHidden(Totals([], map[], map[]), modules, |modules|);
            ok <==> Compiled(start, modules, partitions, 0, stock).Some?
    ensures ok ==> mappings == MappingsFrom(modules, partitions, 0, stock)
    ensures ok ==> forall i :: 0 <= i < |mappings| && !mappings[i].merge && accepts(i) ==>
              canonical(mappings[i].path) in live && AtMost(live[canonical(mappings[i].path)].owner, mappings[i].owner)
    ensures ok && (forall i :: 0 <= i < |mappings| ==> accepts(i)) ==>
              && (forall p :: p in live <==>
                    exists j :: 0 <= j < |modules| && Claims(modules[j], partitions, stock, canonical, p))
              && (forall p :: p in live ==>
                    exists j :: FirstClaim(modules, partitions, stock, canonical, p, live[p], j))
  {
    hide Less, Compiled, MappingsFrom, MappingsOf, OwnersDescend, Table, Claims, FirstClaim;
    live := map[];
    var all;
    ok, all := CompileAll(modules, partitions, stock);
    mappings := all;
    if !ok {
      return;
    }
    var resolved := seq(|all|, i requires 0 <= i < |all| => canonical(all[i].path));
    var outcome := seq(|all|, i requires 0 <= i < |all| => accepts(i));
    var installed, evidence;
    installed, live, evidence := Install(all, resolved, outcome);
    forall i | 0 <= i < |all| && !all[i].merge && accepts(i)
      ensures resolved[i] in live && AtMost(live[resolved[i]].owner, all[i].owner)
    {
      SmallestIdWins(all, resolved, outcome, i);
    }
    if forall i :: 0 <= i < |all| ==> accepts(i) {
      forall p
        ensures p in live <==> exists j :: 0 <= j < |modules| && Claims(modules[j], partitions, stock, canonical, p)
        ensures p in live ==> exists j :: FirstClaim(modules, partitions, stock, canonical, p, live[p], j)
      {
        FirstClaimHolds(modules, partitions, stock, canonical, all, resolved, outcome, p);
      }
    }
  }

  /** The hide rules and every module's trees, into one list of mappings. */
  method CompileAll(modules: seq<Module>, partitions: seq<string>, stock: Stock)
    returns (ok: bool, mappings: seq<Mapping>)
    requires SortedById(modules)
    ensures var start := AllRulesHidden(Totals([], map[], map[]), modules, |modules|);
            ok <==> Compiled(start, modules, partitions, 0, stock).Some?
    ensures ok ==> mappings == MappingsFrom(modules, partitions, 0, stock) && OwnersDescend(mappings)
    ensures ok ==> forall j :: 0 <= j < |modules| ==>
              OwnedBy(MappingsOf(modules[j], partitions, |partitions|, stock), modules[j].id)
  {
    hide Less, Compiled, MappingsFrom, MappingsOf, OwnersDescend;
    var batch := new Batch();
    AddRuleHides(modules, batch);
    ghost var start := TotalsOf(batch);
    RuleHidesOnly(Totals([], map[], map[]), modules, |modules|);
    ok := CompileModules(modules, partitions, stock, batch);
    mappings := batch.mappings;
    if ok {
      CompiledMappings(start, modules, partitions, 0, stock);
      assert mappings == MappingsFrom(modules, partitions, 0, stock);
    }
  }

  lemma FirstClaimHolds(modules: seq<Module>, partitions: seq<string>, stock: Stock, canonical: string -> string,
          all: seq<Mapping>, resolved: seq<string>, outcome: seq<bool>, p: string)
    requires SortedById(modules) && all == MappingsFrom(modules, partitions, 0, stock) && OwnersDescend(all)
    requires forall j :: 0 <= j < |modules| ==>
               OwnedBy(MappingsOf(modules[j], partitions, |partitions|, stock), modules[j].id)
    requires |resolved| == |all| == |outcome|
    requires forall i :: 0 <= i < |all| ==> outcome[i] && resolved[i] == canonical(all[i].path)
    ensures var live := Table(all, resolved, outcome);
            && (p in live <==> exists j :: 0 <= j < |modules| && Claims(modules[j], partitions, stock, canonical, p))
            && (p in live ==> exists j :: FirstClaim(modules, partitions, stock, canonical, p, live[p], j))
  {
    hide Less, MappingsFrom, MappingsOf;
    var live := Table(all, resolved, outcome);
    forall j | 0 <= j < |modules| && Claims(modules[j], partitions, stock, canonical, p)
      ensures p in live && AtMost(live[p].owner, modules[j].id)
    {
      var x :| ClaimsWith(modules[j], partitions, stock, canonical, p, x);
      MappingSource(modules, partitions, 0, stock, x);
      var i :| 0 <= i < |all| && all[i] == x;
      SmallestIdWins(all, resolved, outcome, i);
    }
    if p in live {
      LastAcceptedWins(all, resolved, outcome, p);
      MappingSource(modules, partitions, 0, stock, live[p]);
      var j :| 0 <= j < |modules| && live[p] in MappingsOf(modules[j], partitions, |partitions|, stock);
      forall k | 0 <= k < j
        ensures !Claims(modules[k], partitions, stock, canonical, p)
      {
        LessAsymmetric(modules[k].id, modules[j].id);
        LessIrreflexive(modules[j].id);
      }
      assert FirstClaim(modules, partitions, stock, canonical, p, live[p], j);
    }
  }
}
