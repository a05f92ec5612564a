/** Compiling one module tree into kernel rules: pruning whole directories loses no entry. */
module KasumiPlan {
  import opened Options
  import opened KasumiRules

  datatype Kind = Regular | Link(destination: string) | Whiteout | Special
  datatype Node = Leaf(kind: Kind) | Dir(marked: bool, items: seq<Item>)
  datatype Item = Item(name: string, node: Node)

  /** What the compiler observes of the visible file system: directories, and where links lead. */
  datatype Stock = Stock(directories: set<string>, links: map<string, string>)

  datatype Mapping = Mapping(path: string, source: string, merge: bool, owner: string, bypass: bool)
  datatype Hide = Hide(path: string, bypass: bool)
  datatype Plan = Plan(mappings: seq<Mapping>, hides: seq<Hide>) {
    function Then(next: Plan): Plan { Plan(mappings + next.mappings, hides + next.hides) }
  }
  const NOTHING: Plan := Plan([], [])

  /** One tree being compiled: its rules, the module and what is visible. */
  datatype Job = Job(rules: seq<Rule>, stock: Stock, owner: string, bypass: bool)

  function Child(dir: string, name: string): string { dir + "/" + name }

  predicate ProperName(s: string) { s != "" && forall i :: 0 <= i < |s| ==> s[i] != '/' }

  /** A tree as a file system holds it: proper names, no two alike in a directory. */
  predicate WellFormed(node: Node) {
    node.Dir? ==> WellFormedItems(node.items)
  }

  predicate WellFormedItems(items: seq<Item>) {
    items == []
    || (var last := items[|items| - 1];
        && ProperName(last.name) && WellFormed(last.node) && WellFormedItems(items[..|items| - 1])
        && forall i :: 0 <= i < |items| - 1 ==> items[i].name != last.name)
  }

  // ---- the rule in force -----------------------------------------------------------------

  /** The longest matching rule, computed from the front. */
  function EffectiveOf(rules: seq<Rule>, path: string): (r: Option<nat>)
    ensures IsEffective(rules, path, r)
  {
    if rules == [] then None
    else
      var k := |rules| - 1;
      assert rules == rules[..k] + [rules[k]];
      var before := EffectiveOf(rules[..k], path);
      if Applies(rules[k], path) && (before.None? || |rules[before.value].path| <= |rules[k].path|) then Some(k)
          else before
  }

  /** With no rule below a directory, everything below it has the directory's rule. */
  lemma {:induction false} PrunedSubtree(rules: seq<Rule>, dir: string, path: string)
    requires !HasNested(rules, dir) && dir != "" && !EndsWithSlash(dir) && MatchesPath(path, dir)
    ensures EffectiveOf(rules, path) == EffectiveOf(rules, dir)
  {
    hide EffectiveOf;
    forall i | 0 <= i < |rules|
      ensures Applies(rules[i], path) <==> Applies(rules[i], dir)
    {
      assert !Nested(rules[i], dir);
      SameMatch(rules[i].path, dir, path);
    }
    var r := EffectiveOf(rules, dir);
    assert IsEffective(rules, path, r);
    EffectiveUnique(rules, path, EffectiveOf(rules, path), r);
  }

  lemma {:induction false} SameMatch(prefix: string, dir: string, path: string)
    requires dir != "" && !EndsWithSlash(dir) && MatchesPath(path, dir)
    requires !(|prefix| > |dir| && MatchesPath(prefix, dir))
    ensures MatchesPath(path, prefix) <==> MatchesPath(dir, prefix)
  {
    if |prefix| <= |path| && prefix <= path {
      assert forall i :: 0 <= i < |prefix| ==> prefix[i] == path[i];
      assert forall i :: 0 <= i < |dir| ==> dir[i] == path[i];
    }
    if MatchesPath(dir, prefix) {
      assert forall i :: 0 <= i < |prefix| ==> prefix[i] == dir[i] == path[i];
    }
  }

  function ModeAt(job: Job, path: string): string {
    match EffectiveOf(job.rules, path)
    case Some(k) => job.rules[k].mode
    case None => "kasumi"
  }

  function BypassAt(job: Job, path: string): bool {
    job.bypass || match EffectiveOf(job.rules, path)
                  case Some(k) => job.rules[k].bypass
                  case None => false
  }

  predicate SameLink(stock: Stock, path: string, kind: Kind) {
    kind.Link? && path in stock.links && stock.links[path] == kind.destination
  }

  // ---- the compiler ----------------------------------------------------------------------

  /** No replacement mark anywhere in a tree that is to be merged as a whole. */
  predicate MergeSupported(node: Node) {
    node.Leaf? || (!node.marked && MergeSupportedItems(node.items))
  }

  predicate MergeSupportedItems(items: seq<Item>) {
    items == []
    || (var last := items[|items| - 1];
        last.name != ".replace" && MergeSupported(last.node) && MergeSupportedItems(items[..|items| - 1]))
  }

  ghost predicate MayPrune(job: Job, path: string) { !HasNested(job.rules, path) }

  /** The plan for one entry; None where the compiler refuses the tree. */
  ghost function PlanEntry(job: Job, name: string, node: Node, path: string, source: string): Option<Plan>
    decreases node
  {
    var mode, bypass := ModeAt(job, path), BypassAt(job, path);
    if mode == "hide" then Some(Plan([], [Hide(path, bypass)]))
    else if mode == "none" then
      if node.Leaf? || MayPrune(job, path) then Some(NOTHING) else PlanItems(job, node.items, path, source)
    else if name == ".replace" then None
    else if node.Dir? then
      if path in job.stock.directories && MayPrune(job, path) then
        if MergeSupported(node) then Some(Plan([Mapping(path, source, true, job.owner, bypass)], [])) else None
      else PlanItems(job, node.items, path, source)
    else if node.kind.Whiteout? then Some(Plan([], [Hide(path, bypass)]))
    else if node.kind.Special? || SameLink(job.stock, path, node.kind) then Some(NOTHING)
    else if node.kind.Link? && path in job.stock.directories then None
    else Some(Plan([Mapping(path, source, false, job.owner, bypass)], []))
  }

  ghost function PlanItems(job: Job, items: seq<Item>, dir: string, source: string): Option<Plan>
    decreases items
  {
    if items == [] then Some(NOTHING)
    else
      var last := items[|items| - 1];
      var before := PlanItems(job, items[..|items| - 1], dir, source);
      var here := PlanEntry(job, last.name, last.node, Child(dir, last.name), Child(source, last.name));
      if before.None? || here.None? then None else Some(before.value.Then(here.value))
  }

  /** One partition of a module; a module without it, or with a plain file there, adds nothing. */
  ghost function PlanTree(job: Job, root: Option<Node>, virtualRoot: string, sourceRoot: string): Option<Plan> {
    match root
    case Some(Dir(marked, items)) => if marked then None else PlanItems(job, items, virtualRoot, sourceRoot)
    case _ => Some(NOTHING)
  }

  /** What the compiler has collected over all modules. */
  class Batch {
    var mappings: seq<Mapping>
    var hidden: map<string, bool>
    var owners: map<string, set<string>>

    constructor ()
      ensures mappings == [] && hidden == map[] && owners == map[]
    {
      mappings, hidden, owners := [], map[], map[];
    }

    method AddHide(path: string, owner: string, bypass: bool)
      modifies this
      ensures mappings == old(mappings)
      ensures hidden == old(hidden)[path := (path in old(hidden) && old(hidden)[path]) || bypass]
      ensures owners == old(owners)[path := (if path in old(owners) then old(owners)[path] else {}) + {owner}]
    {
      hidden := hidden[path := (path in hidden && hidden[path]) || bypass];
      owners := owners[path := (if path in owners then owners[path] else {}) + {owner}];
    }

    method CompileTree(job: Job, index: RuleIndex, root: Option<Node>, virtualRoot: string, sourceRoot: string)
      returns (ok: bool)
      requires index.Valid() && index.rules == job.rules && Absolute(virtualRoot)
      modifies this
      ensures ok <==> PlanTree(job, root, virtualRoot, sourceRoot).Some?
      ensures ok ==> var p := PlanTree(job, root, virtualRoot, sourceRoot).value;
                mappings == old(mappings) + p.mappings
                && hidden == HideAll(old(hidden), p.hides) && owners == OwnAll(old(owners), p.hides, job.owner)
    {
      if root.None? || root.value.Leaf? {
        return true;
      }
      if root.value.marked {
        return false;
      }
      ok := CompileItems(job, index, root.value.items, virtualRoot, sourceRoot);
    }

    /** Everything below one directory. What is in the batch after a refusal is not used. */
    method CompileItems(job: Job, index: RuleIndex, items: seq<Item>, dir: string, source: string) returns (ok: bool)
      requires index.Valid() && index.rules == job.rules && Absolute(dir)
      modifies this
      ensures ok <==> PlanItems(job, items, dir, source).Some?
      ensures ok ==> var p := PlanItems(job, items, dir, source).value;
                mappings == old(mappings) + p.mappings
                && hidden == HideAll(old(hidden), p.hides) && owners == OwnAll(old(owners), p.hides, job.owner)
      decreases items, 0
    {
      hide PlanEntry, HideAll, OwnAll;
      var i := 0;
      NothingYet(job, items, dir, source, hidden, owners);
      hide PlanItems;
      while i < |items|
        invariant 0 <= i <= |items| && index.Valid() && index.rules == job.rules
        invariant PlanItems(job, items[..i], dir, source).Some?
        invariant var p := PlanItems(job, items[..i], dir, source).value;
            mappings == old(mappings) + p.mappings
            && hidden == HideAll(old(hidden), p.hides) && owners == OwnAll(old(owners), p.hides, job.owner)
      {
        ghost var soFar := PlanItems(job, items[..i], dir, source).value;
        var path, from := Child(dir, items[i].name), Child(source, items[i].name);
        ghost var here := PlanEntry(job, items[i].name, items[i].node, path, from);
        PlanStep(job, items, i, dir, source);
        ok := CompileEntry(job, index, items[i].name, items[i].node, path, from);
        if !ok {
          RefusalStays(job, items, i + 1, dir, source);
          return;
        }
        HideAllThen(old(hidden), old(owners), soFar.hides, here.value.hides, job.owner);
        i := i + 1;
      }
      assert items[..i] == items;
      ok := true;
    }

    /** Mode and bypass flag of the rule in force. */
    method RuleAt(job: Job, index: RuleIndex, path: string) returns (mode: string, bypass: bool)
      requires index.Valid() && index.rules == job.rules
      ensures mode == ModeAt(job, path) && bypass == BypassAt(job, path)
    {
      hide IsIndex, EffectiveOf;
      var selected := index.EffectiveRule(path);
      EffectiveUnique(job.rules, path, selected, EffectiveOf(job.rules, path));
      bypass := job.bypass || (selected.Some? && index.rules[selected.value].bypass);
      mode := if selected.Some? then index.rules[selected.value].mode else "kasumi";
    }

    method CompileEntry(job: Job, index: RuleIndex, name: string, node: Node, path: string, source: string)
      returns (ok: bool)
      requires index.Valid() && index.rules == job.rules && Absolute(path)
      modifies this
      ensures ok <==> PlanEntry(job, name, node, path, source).Some?
      ensures ok ==> var p := PlanEntry(job, name, node, path, source).value;
                mappings == old(mappings) + p.mappings
                && hidden == HideAll(old(hidden), p.hides) && owners == OwnAll(old(owners), p.hides, job.owner)
      decreases node, 1
    {
      hide HideAll, OwnAll, PlanItems, HasNested, ModeAt, BypassAt, IsIndex;
      NothingHidden(hidden, owners, job.owner);
      var mode, bypass := RuleAt(job, index, path);
      OneHide(hidden, owners, path, bypass, job.owner);
      if mode == "hide" {
        AddHide(path, job.owner, bypass);
        return true;
      }
      if mode == "none" {
        if node.Dir? {
          var nested := index.HasNestedRule(path);
          if nested {
            ok := CompileItems(job, index, node.items, path, source);
            return;
          }
        }
        return true;
      }
      if name == ".replace" {
        return false;
      }
      match node
      case Dir(_, items) =>
        if path in job.stock.directories {
          var nested := index.HasNestedRule(path);
          if !nested {
            if !MergeSupported(node) {
              return false;
            }
            mappings := mappings + [Mapping(path, source, true, job.owner, bypass)];
            return true;
          }
        }
        ok := CompileItems(job, index, items, path, source);
      case Leaf(kind) =>
        if kind.Whiteout? {
          AddHide(path, job.owner, bypass);
          return true;
        }
        if kind.Special? || SameLink(job.stock, path, kind) {
          return true;
        }
        if kind.Link? && path in job.stock.directories {
          return false;
        }
        mappings := mappings + [Mapping(path, source, false, job.owner, bypass)];
        return true;
    }
  }

  lemma NothingYet(job: Job, items: seq<Item>, dir: string, source: string, h: map<string, bool>,
          o: map<string, set<string>>)
    ensures PlanItems(job, items[..0], dir, source) == Some(NOTHING)
    ensures HideAll(h, NOTHING.hides) == h && OwnAll(o, NOTHING.hides, job.owner) == o
  {}

  lemma {:induction false} PlanStep(job: Job, items: seq<Item>, i: nat, dir: string, source: string)
    requires i < |items|
    ensures var before := PlanItems(job, items[..i], dir, source);
            var here :=
                PlanEntry(job, items[i].name, items[i].node, Child(dir, items[i].name), Child(source, items[i].name));
            PlanItems(job, items[..i + 1], dir, source)
            == if before.None? || here.None? then None else Some(before.value.Then(here.value))
  {
    hide PlanEntry;
    assert items[..i + 1][..i] == items[..i];
  }

  /** A path hidden twice keeps every bypass flag it was given. */
  function HideAll(h: map<string, bool>, hides: seq<Hide>): map<string, bool> {
    if hides == [] then h
    else
      var before, x := HideAll(h, hides[..|hides| - 1]), hides[|hides| - 1];
      before[x.path := (x.path in before && before[x.path]) || x.bypass]
  }

  function OwnAll(o: map<string, set<string>>, hides: seq<Hide>, owner: string): map<string, set<string>> {
    if hides == [] then o
    else
      var before, x := OwnAll(o, hides[..|hides| - 1], owner), hides[|hides| - 1];
      before[x.path := (if x.path in before then before[x.path] else {}) + {owner}]
  }

  lemma NothingHidden(h: map<string, bool>, o: map<string, set<string>>, owner: string)
    ensures HideAll(h, []) == h && OwnAll(o, [], owner) == o
  {}

  lemma OneHide(h: map<string, bool>, o: map<string, set<string>>, path: string, bypass: bool, owner: string)
    ensures HideAll(h, [Hide(path, bypass)]) == h[path := (path in h && h[path]) || bypass]
    ensures OwnAll(o, [Hide(path, bypass)], owner) == o[path := (if path in o then o[path] else {}) + {owner}]
  {
    assert [Hide(path, bypass)][..0] == [];
  }

  /** What is hidden is what some rule hides, with the bypass flag if any of them carries it. */
  lemma {:induction false} HideAllMeans(h: map<string, bool>, hides: seq<Hide>, path: string)
    ensures path in HideAll(h, hides) <==> path in h || exists i :: 0 <= i < |hides| && hides[i].path == path
    ensures path in HideAll(h, hides) ==>
              (HideAll(h, hides)[path] <==>
                  (path in h && h[path]) || exists i :: 0 <= i < |hides| && hides[i].path == path && hides[i].bypass)
  {
    if hides != [] {
      var n := |hides| - 1;
      HideAllMeans(h, hides[..n], path);
      assert forall i :: 0 <= i < n ==> hides[..n][i] == hides[i];
    }
  }

  lemma {:induction false} HideAllThen(h: map<string, bool>, o: map<string, set<string>>, a: seq<Hide>, b: seq<Hide>,
          owner: string)
    ensures HideAll(h, a + b) == HideAll(HideAll(h, a), b)
    ensures OwnAll(o, a + b, owner) == OwnAll(OwnAll(o, a, owner), b, owner)
  {
    if b == [] {
      assert a + b == a;
    } else {
      assert (a + b)[..|a + b| - 1] == a + b[..|b| - 1];
      HideAllThen(h, o, a, b[..|b| - 1], owner);
    }
  }

  lemma {:induction false} RefusalStays(job: Job, items: seq<Item>, n: nat, dir: string, source: string)
    requires n <= |items| && PlanItems(job, items[..n], dir, source).None?
    ensures PlanItems(job, items, dir, source).None?
    decreases |items|
  {
    if n == |items| {
      assert items[..n] == items;
    } else {
      assert items[..|items| - 1][..n] == items[..n];
      RefusalStays(job, items[..|items| - 1], n, dir, source);
    }
  }

  // ---- the meaning of a plan -------------------------------------------------------------

  datatype Treatment = Untouched | Hidden(bypass: bool) | Placed(source: string, bypass: bool)

  datatype Entry = Entry(path: string, kind: Kind, treatment: Treatment)

  /** What the rules ask for every entry that is no directory, looking at each one alone. A hidden
    * directory hides all below it. */
  function Wanted(job: Job, node: Node, path: string, source: string): seq<Entry>
    decreases node
  {
    match node
    case Dir(_, items) => WantedItems(job, items, path, source)
    case Leaf(kind) => [Entry(path, kind, OwnTreatment(job, kind, path, source))]
  }

  function OwnTreatment(job: Job, kind: Kind, path: string, source: string): Treatment {
    if ModeAt(job, path) == "hide" then Hidden(BypassAt(job, path))
    else if ModeAt(job, path) == "none" then Untouched
    else if kind.Whiteout? then Hidden(BypassAt(job, path))
    else Placed(source, BypassAt(job, path))
  }

  function WantedItems(job: Job, items: seq<Item>, dir: string, source: string): seq<Entry>
    decreases items
  {
    if items == [] then []
    else
      var last := items[|items| - 1];
      var path := Child(dir, last.name);
      var here := Wanted(job, last.node, path, Child(source, last.name));
      WantedItems(job, items[..|items| - 1], dir, source) + HiddenIf(job, path, here)
  }

  function HiddenIf(job: Job, path: string, entries: seq<Entry>): seq<Entry> {
    if ModeAt(job, path) == "hide" then AllHidden(entries, BypassAt(job, path)) else entries
  }

  function AllHidden(entries: seq<Entry>, bypass: bool): (r: seq<Entry>)
  {
    seq(|entries|, i requires 0 <= i < |entries| => entries[i].(treatment := Hidden(bypass)))
  }

  predicate MapCovers(m: Mapping, path: string) {
    if m.merge then MatchesPath(path, m.path) && path != m.path else path == m.path
  }

  /** What a mapping does to an entry it covers: a merged directory hides where it holds a whiteout. */
  function Effect(m: Mapping, e: Entry): Treatment
    requires MapCovers(m, e.path)
  {
    if m.merge && e.kind.Whiteout? then Hidden(m.bypass)
    else Placed(if m.merge then m.source + e.path[|m.path|..] else m.source, m.bypass)
  }

  /** The plan gives the entry this treatment and no rule of it says otherwise. */
  ghost predicate Gives(plan: Plan, e: Entry) {
    && (forall i :: 0 <= i < |plan.mappings| && MapCovers(plan.mappings[i], e.path) ==>
       Effect(plan.mappings[i], e) == e.treatment)
    && (forall i :: 0 <= i < |plan.hides| && MatchesPath(e.path, plan.hides[i].path) ==>
       Hidden(plan.hides[i].bypass) == e.treatment)
    && (e.treatment != Untouched ==> Reached(plan, e.path))
  }

  ghost predicate Reached(plan: Plan, path: string) {
    || (exists i :: 0 <= i < |plan.mappings| && MapCovers(plan.mappings[i], path))
    || (exists i :: 0 <= i < |plan.hides| && MatchesPath(path, plan.hides[i].path))
  }

  /** Entries the compiler itself treats apart: special nodes, and links that stock already has. */
  predicate Ordinary(job: Job, e: Entry) {
    !e.kind.Special? && !SameLink(job.stock, e.path, e.kind)
  }

  ghost predicate GivesAll(job: Job, plan: Plan, entries: seq<Entry>) {
    forall i :: 0 <= i < |entries| && Ordinary(job, entries[i]) ==> Gives(plan, entries[i])
  }

  // ---- nothing strays --------------------------------------------------------------------

  /** A path no tree entry shares with a sibling: absolute enough to extend by a component. */
  predicate Extends(path: string) { path != "" && !EndsWithSlash(path) }

  lemma {:induction false} ChildExtends(dir: string, name: string)
    requires Extends(dir) && ProperName(name)
    ensures Extends(Child(dir, name)) && MatchesPath(Child(dir, name), dir)
  {
    var c := Child(dir, name);
    assert c[|c| - 1] == name[|name| - 1];
    assert c[|dir|] == '/' && dir <= c;
  }

  /** The first component of a relative path. */
  function Component(s: string): string {
    if s == "" || s[0] == '/' then "" else [s[0]] + Component(s[1..])
  }

  lemma {:induction false} ComponentIs(name: string, s: string)
    requires name <= s && (forall i :: 0 <= i < |name| ==> name[i] != '/') && (|s| > |name| ==> s[|name|] == '/')
    ensures Component(s) == name
  {
    if name != "" {
      assert name[0] == s[0] && name == [name[0]] + name[1..];
      ComponentIs(name[1..], s[1..]);
    }
  }

  lemma {:induction false} ChildComponent(dir: string, name: string, x: string)
    requires ProperName(name) && MatchesPath(x, Child(dir, name))
    ensures |x| > |dir| && Component(x[|dir| + 1..]) == name
  {
    var c := Child(dir, name);
    assert c[|c| - 1] == name[|name| - 1];
    assert forall i :: 0 <= i < |c| ==> x[i] == c[i];
    assert forall i :: 0 <= i < |name| ==> name[i] == c[|dir| + 1 + i];
    ComponentIs(name, x[|dir| + 1..]);
  }

  /** Nothing below one name is on the path of anything below another. */
  lemma {:induction false} SiblingsApart(dir: string, a: string, b: string, x: string, y: string)
    requires Extends(dir) && ProperName(a) && ProperName(b) && a != b
    requires MatchesPath(x, Child(dir, a)) && MatchesPath(y, Child(dir, b))
    ensures !MatchesPath(x, y)
  {
    ChildComponent(dir, a, x);
    ChildExtends(dir, b);
    if MatchesPath(x, y) {
      MatchTransitive(x, y, Child(dir, b));
      ChildComponent(dir, b, x);
    }
  }

  lemma {:induction false} MatchTransitive(a: string, b: string, c: string)
    requires Extends(c) && MatchesPath(a, b) && MatchesPath(b, c)
    ensures MatchesPath(a, c)
  {
    assert forall i :: 0 <= i < |c| ==> c[i] == b[i] == a[i];
    if |b| > |c| {
      assert a[|c|] == b[|c|];
    }
  }

  ghost predicate PlanWithin(plan: Plan, path: string) {
    && (forall i :: 0 <= i < |plan.mappings| ==> MatchesPath(plan.mappings[i].path, path))
    && (forall i :: 0 <= i < |plan.hides| ==> MatchesPath(plan.hides[i].path, path))
  }

  ghost predicate EntriesWithin(entries: seq<Entry>, path: string) {
    forall i :: 0 <= i < |entries| ==> MatchesPath(entries[i].path, path)
  }

  /** On or below one of the listed names. */
  ghost predicate UnderSome(items: seq<Item>, dir: string, path: string) {
    exists j :: 0 <= j < |items| && MatchesPath(path, Child(dir, items[j].name))
  }

  ghost predicate PlanUnder(plan: Plan, items: seq<Item>, dir: string) {
    && (forall i :: 0 <= i < |plan.mappings| ==> UnderSome(items, dir, plan.mappings[i].path))
    && (forall i :: 0 <= i < |plan.hides| ==> UnderSome(items, dir, plan.hides[i].path))
  }

  ghost predicate EntriesUnder(entries: seq<Entry>, items: seq<Item>, dir: string) {
    forall i :: 0 <= i < |entries| ==> UnderSome(items, dir, entries[i].path)
  }

  lemma {:induction false} UnderIsWithin(items: seq<Item>, dir: string, path: string)
    requires Extends(dir) && WellFormedItems(items) && UnderSome(items, dir, path)
    ensures MatchesPath(path, dir)
  {
    hide MatchesPath, WellFormedItems;
    var j :| 0 <= j < |items| && MatchesPath(path, Child(dir, items[j].name));
    NamesProper(items, j);
    ChildExtends(dir, items[j].name);
    MatchTransitive(path, Child(dir, items[j].name), dir);
  }

  lemma {:induction false} NamesProper(items: seq<Item>, j: nat)
    requires WellFormedItems(items) && j < |items|
    ensures ProperName(items[j].name)
  {
    if j < |items| - 1 {
      NamesProper(items[..|items| - 1], j);
    }
  }

  lemma {:induction false} UnderMore(items: seq<Item>, dir: string, path: string)
    requires items != []
    requires UnderSome(items[..|items| - 1], dir, path) || MatchesPath(path, Child(dir, items[|items| - 1].name))
    ensures UnderSome(items, dir, path)
  {
    hide MatchesPath;
    if UnderSome(items[..|items| - 1], dir, path) {
      var j :| 0 <= j < |items| - 1 && MatchesPath(path, Child(dir, items[..|items| - 1][j].name));
      assert items[j] == items[..|items| - 1][j];
    }
  }

  lemma {:induction false} PlanEntryWithin(job: Job, name: string, node: Node, path: string, source: string)
    requires Extends(path) && WellFormed(node) && PlanEntry(job, name, node, path, source).Some?
    ensures PlanWithin(PlanEntry(job, name, node, path, source).value, path)
    decreases node
  {
    hide PlanItems, ModeAt, BypassAt, UnderSome, HasNested;
    var r := PlanEntry(job, name, node, path, source);
    if node.Dir? && r == PlanItems(job, node.items, path, source) {
      PlanItemsUnder(job, node.items, path, source);
      forall x | UnderSome(node.items, path, x)
        ensures MatchesPath(x, path)
      {
        UnderIsWithin(node.items, path, x);
      }
    }
  }

  lemma {:induction false} PlanItemsUnder(job: Job, items: seq<Item>, dir: string, source: string)
    requires Extends(dir) && WellFormedItems(items) && PlanItems(job, items, dir, source).Some?
    ensures PlanUnder(PlanItems(job, items, dir, source).value, items, dir)
    decreases items
  {
    hide PlanEntry, ModeAt, BypassAt, MatchesPath, UnderSome;
    if items != [] {
      var last := items[|items| - 1];
      var path, from := Child(dir, last.name), Child(source, last.name);
      ChildExtends(dir, last.name);
      PlanItemsUnder(job, items[..|items| - 1], dir, source);
      PlanEntryWithin(job, last.name, last.node, path, from);
      forall x | UnderSome(items[..|items| - 1], dir, x) || MatchesPath(x, path)
        ensures UnderSome(items, dir, x)
      {
        UnderMore(items, dir, x);
      }
    }
  }

  lemma {:induction false} WantedWithin(job: Job, node: Node, path: string, source: string)
    requires Extends(path) && WellFormed(node)
    ensures EntriesWithin(Wanted(job, node, path, source), path)
    decreases node
  {
    hide UnderSome, ModeAt, BypassAt;
    if node.Dir? {
      WantedItemsUnder(job, node.items, path, source);
      forall x | UnderSome(node.items, path, x)
        ensures MatchesPath(x, path)
      {
        UnderIsWithin(node.items, path, x);
      }
    }
  }

  lemma {:induction false} WantedItemsUnder(job: Job, items: seq<Item>, dir: string, source: string)
    requires Extends(dir) && WellFormedItems(items)
    ensures EntriesUnder(WantedItems(job, items, dir, source), items, dir)
    decreases items
  {
    hide Wanted, ModeAt, BypassAt, MatchesPath, UnderSome;
    if items != [] {
      var last := items[|items| - 1];
      var path, from := Child(dir, last.name), Child(source, last.name);
      ChildExtends(dir, last.name);
      WantedItemsUnder(job, items[..|items| - 1], dir, source);
      WantedWithin(job, last.node, path, from);
      forall x | UnderSome(items[..|items| - 1], dir, x) || MatchesPath(x, path)
        ensures UnderSome(items, dir, x)
      {
        UnderMore(items, dir, x);
      }
    }
  }

  // ---- below a directory without nested rules --------------------------------------------

  /** Every entry strictly below top, with the treatment its own rule asks for. */
  ghost predicate Plain(job: Job, e: Entry, top: string, topSource: string) {
    && MatchesPath(e.path, top) && e.path != top
    && e.treatment == OwnTreatment(job, e.kind, e.path, topSource + e.path[|top|..])
  }

  ghost predicate AllPlain(job: Job, entries: seq<Entry>, top: string, topSource: string) {
    forall i :: 0 <= i < |entries| ==> Plain(job, entries[i], top, topSource)
  }

  lemma {:induction false} NodeIsPlain(job: Job, node: Node, path: string, source: string, top: string,
          topSource: string)
    requires Extends(top) && Extends(path) && WellFormed(node) && MatchesPath(path, top)
             && source == topSource + path[|top|..]
    requires !HasNested(job.rules, top) && ModeAt(job, top) != "hide" && (node.Leaf? ==> path != top)
    ensures AllPlain(job, Wanted(job, node, path, source), top, topSource)
    decreases node
  {
    hide ModeAt, BypassAt, HasNested;
    if node.Dir? {
      ItemsArePlain(job, node.items, path, source, top, topSource);
    }
  }

  lemma {:induction false} ItemsArePlain(job: Job, items: seq<Item>, dir: string, source: string, top: string,
          topSource: string)
    requires Extends(top) && Extends(dir) && WellFormedItems(items) && MatchesPath(dir, top)
             && source == topSource + dir[|top|..]
    requires !HasNested(job.rules, top) && ModeAt(job, top) != "hide"
    ensures AllPlain(job, WantedItems(job, items, dir, source), top, topSource)
    decreases items
  {
    hide Wanted, HasNested, EffectiveOf, Plain;
    if items != [] {
      var last := items[|items| - 1];
      var path, from := Child(dir, last.name), Child(source, last.name);
      ChildExtends(dir, last.name);
      MatchTransitive(path, dir, top);
      assert path[|top|..] == dir[|top|..] + "/" + last.name;
      ItemsArePlain(job, items[..|items| - 1], dir, source, top, topSource);
      NodeIsPlain(job, last.node, path, from, top, topSource);
      PrunedSubtree(job.rules, top, path);
    }
  }

  /** One MERGE gives each entry below it what the entry's own rule asks for. */
  lemma {:induction false} MergeCarries(job: Job, entries: seq<Entry>, top: string, topSource: string)
    requires Extends(top) && !HasNested(job.rules, top) && AllPlain(job, entries, top, topSource)
    requires ModeAt(job, top) != "hide" && ModeAt(job, top) != "none"
    ensures GivesAll(job, Plan([Mapping(top, topSource, true, job.owner, BypassAt(job, top))], []), entries)
  {
    hide HasNested, EffectiveOf;
    var m := Mapping(top, topSource, true, job.owner, BypassAt(job, top));
    forall i | 0 <= i < |entries| && Ordinary(job, entries[i])
      ensures Gives(Plan([m], []), entries[i])
    {
      assert Plain(job, entries[i], top, topSource);
      PrunedSubtree(job.rules, top, entries[i].path);
      assert MapCovers([m][0], entries[i].path);
    }
  }

  lemma {:induction false} SkippedIsUntouched(job: Job, entries: seq<Entry>, top: string, topSource: string)
    requires Extends(top) && !HasNested(job.rules, top) && AllPlain(job, entries, top, topSource)
    requires ModeAt(job, top) == "none"
    ensures GivesAll(job, NOTHING, entries)
  {
    hide HasNested, EffectiveOf;
    forall i | 0 <= i < |entries|
      ensures Gives(NOTHING, entries[i])
    {
      assert Plain(job, entries[i], top, topSource);
      PrunedSubtree(job.rules, top, entries[i].path);
    }
  }

  lemma {:induction false} HiddenTree(job: Job, entries: seq<Entry>, path: string, bypass: bool)
    requires EntriesWithin(entries, path)
    ensures GivesAll(job, Plan([], [Hide(path, bypass)]), AllHidden(entries, bypass))
  {
    var plan := Plan([], [Hide(path, bypass)]);
    forall i | 0 <= i < |entries|
      ensures Gives(plan, AllHidden(entries, bypass)[i])
    {
      assert MatchesPath(entries[i].path, plan.hides[0].path);
    }
  }

  // ---- the theorem -----------------------------------------------------------------------

  /** The compiler's plan gives every entry what the rules ask for it alone. */
  lemma {:induction false} EntryPlanGives(job: Job, name: string, node: Node, path: string, source: string)
    requires Extends(path) && WellFormed(node) && PlanEntry(job, name, node, path, source).Some?
    ensures GivesAll(job, PlanEntry(job, name, node, path, source).value,
            HiddenIf(job, path, Wanted(job, node, path, source)))
    decreases node
  {
    hide PlanItems, ModeAt, BypassAt, MatchesPath, HasNested, AllHidden, GivesAll, EffectiveOf, Wanted, WantedItems,
        AllPlain;
    var mode := ModeAt(job, path);
    if mode == "hide" {
      WantedWithin(job, node, path, source);
      HiddenTree(job, Wanted(job, node, path, source), path, BypassAt(job, path));
    } else if node.Leaf? {
      LeafPlanGives(job, name, node, path, source);
    } else if MayPrune(job, path) && (mode == "none" || path in job.stock.directories) {
      assert path[|path|..] == "" && source + "" == source;
      assert MatchesPath(path, path) by { SelfMatch(path); }
      NodeIsPlain(job, node, path, source, path, source);
      if mode == "none" {
        SkippedIsUntouched(job, Wanted(job, node, path, source), path, source);
      } else {
        MergeCarries(job, Wanted(job, node, path, source), path, source);
      }
    } else {
      ItemsPlanGives(job, node.items, path, source);
      WantedOfDir(job, node, path, source);
    }
  }

  lemma SelfMatch(path: string)
    ensures MatchesPath(path, path)
  {}

  lemma WantedOfDir(job: Job, node: Node, path: string, source: string)
    requires node.Dir?
    ensures Wanted(job, node, path, source) == WantedItems(job, node.items, path, source)
  {}

  lemma {:induction false} LeafPlanGives(job: Job, name: string, node: Node, path: string, source: string)
    requires node.Leaf? && PlanEntry(job, name, node, path, source).Some? && ModeAt(job, path) != "hide"
    ensures GivesAll(job, PlanEntry(job, name, node, path, source).value, Wanted(job, node, path, source))
  {
    hide ModeAt, BypassAt, HasNested, PlanItems;
    var plan := PlanEntry(job, name, node, path, source).value;
    assert plan.mappings != [] ==> MapCovers(plan.mappings[0], path);
    assert plan.hides != [] ==> MatchesPath(path, plan.hides[0].path);
  }

  lemma {:induction false} ItemsPlanGives(job: Job, items: seq<Item>, dir: string, source: string)
    requires Extends(dir) && WellFormedItems(items) && PlanItems(job, items, dir, source).Some?
    ensures GivesAll(job, PlanItems(job, items, dir, source).value, WantedItems(job, items, dir, source))
    decreases items
  {
    hide PlanEntry, ModeAt, BypassAt, MatchesPath, Wanted, HiddenIf, Gives, Reached;
    if items != [] {
      var front, last := items[..|items| - 1], items[|items| - 1];
      var path, from := Child(dir, last.name), Child(source, last.name);
      var before, here :=
          PlanItems(job, front, dir, source).value, PlanEntry(job, last.name, last.node, path, from).value;
      var wantedBefore, wantedHere :=
          WantedItems(job, front, dir, source), HiddenIf(job, path, Wanted(job, last.node, path, from));
      ChildExtends(dir, last.name);
      ItemsPlanGives(job, front, dir, source);
      EntryPlanGives(job, last.name, last.node, path, from);
      PlanItemsUnder(job, front, dir, source);
      PlanEntryWithin(job, last.name, last.node, path, from);
      WantedItemsUnder(job, front, dir, source);
      EntryWithin(job, last.node, path, from);
      SiblingPlansApart(front, dir, last.name, before, here, wantedBefore, wantedHere);
      GivesThen(job, before, here, wantedBefore, wantedHere);
    }
  }

  lemma {:induction false} EntryWithin(job: Job, node: Node, path: string, source: string)
    requires Extends(path) && WellFormed(node)
    ensures EntriesWithin(HiddenIf(job, path, Wanted(job, node, path, source)), path)
  {
    WantedWithin(job, node, path, source);
  }

  ghost predicate Apart(plan: Plan, entries: seq<Entry>) {
    forall i :: 0 <= i < |entries| ==> !Reached(plan, entries[i].path)
  }

  /** The rules of the other items do not reach one item's entries, nor the other way round. */
  lemma {:induction false} SiblingPlansApart(items: seq<Item>, dir: string, name: string, others: Plan, own: Plan,
          theirs: seq<Entry>, mine: seq<Entry>)
    requires Extends(dir) && WellFormedItems(items) && ProperName(name)
    requires forall i :: 0 <= i < |items| ==> items[i].name != name
    requires PlanUnder(others, items, dir) && EntriesUnder(theirs, items, dir)
    requires PlanWithin(own, Child(dir, name)) && EntriesWithin(mine, Child(dir, name))
    ensures Apart(others, mine) && Apart(own, theirs)
  {
    hide MatchesPath, WellFormedItems, ProperName, Extends;
    forall x, y | UnderSome(items, dir, x) && MatchesPath(y, Child(dir, name))
      ensures !MatchesPath(x, y) && !MatchesPath(y, x)
    {
      var j :| 0 <= j < |items| && MatchesPath(x, Child(dir, items[j].name));
      NamesProper(items, j);
      SiblingsApart(dir, items[j].name, name, x, y);
      SiblingsApart(dir, name, items[j].name, y, x);
    }
    hide UnderSome;
    forall m, path | MapCovers(m, path)
      ensures MatchesPath(path, m.path)
    {
      if !m.merge { SelfMatch(path); }
    }
    hide MapCovers;
  }

  lemma {:induction false} GivesThen(job: Job, a: Plan, b: Plan, ea: seq<Entry>, eb: seq<Entry>)
    requires GivesAll(job, a, ea) && GivesAll(job, b, eb) && Apart(b, ea) && Apart(a, eb)
    ensures GivesAll(job, a.Then(b), ea + eb)
  {
    hide MatchesPath, MapCovers, Effect, Gives, Reached;
    forall i | 0 <= i < |ea + eb| && Ordinary(job, (ea + eb)[i])
      ensures Gives(a.Then(b), (ea + eb)[i])
    {
      if i < |ea| {
        GivesMore(a, b, ea[i]);
      } else {
        GivesMore(a, b, eb[i - |ea|]);
      }
    }
  }

  lemma {:induction false} GivesMore(a: Plan, b: Plan, e: Entry)
    requires (Gives(a, e) && !Reached(b, e.path)) || (Gives(b, e) && !Reached(a, e.path))
    ensures Gives(a.Then(b), e)
  {
    hide MatchesPath, MapCovers, Effect;
    var p := a.Then(b);
    if Reached(a, e.path) {
      assert (exists i :: 0 <= i < |a.mappings| && MapCovers(a.mappings[i], e.path)) ==>
          exists i :: 0 <= i < |p.mappings| && MapCovers(p.mappings[i], e.path) by {
        if i :| 0 <= i < |a.mappings| && MapCovers(a.mappings[i], e.path) { assert p.mappings[i] == a.mappings[i]; }
      }
      if i :| 0 <= i < |a.hides| && MatchesPath(e.path, a.hides[i].path) { assert p.hides[i] == a.hides[i]; }
    }
    if Reached(b, e.path) {
      if i :| 0 <= i < |b.mappings| && MapCovers(b.mappings[i], e.path) {
        assert p.mappings[|a.mappings| + i] == b.mappings[i];
      }
      if i :| 0 <= i < |b.hides| && MatchesPath(e.path, b.hides[i].path) {
        assert p.hides[|a.hides| + i] == b.hides[i];
      }
    }
  }

  /** A whole partition: each ordinary entry gets what the rules ask for it alone. */
  lemma {:induction false} TreePlanGives(job: Job, root: Node, virtualRoot: string, sourceRoot: string)
    requires Extends(virtualRoot) && root.Dir? && WellFormed(root)
             && PlanTree(job, Some(root), virtualRoot, sourceRoot).Some?
    ensures GivesAll(job, PlanTree(job, Some(root), virtualRoot, sourceRoot).value,
            Wanted(job, root, virtualRoot, sourceRoot))
  {
    hide PlanItems, WantedItems;
    ItemsPlanGives(job, root.items, virtualRoot, sourceRoot);
  }

  // ---- an entry's own rule against the directories above it ------------------------------

  /** The first hidden directory above a path, among its prefixes of at least k characters. */
  function FirstHidden(job: Job, path: string, k: nat): Option<string>
    decreases |path| - k
  {
    if k >= |path| then None
    else if path[k] == '/' && !EndsWithSlash(path[..k]) && ModeAt(job, path[..k]) == "hide" then Some(path[..k])
    else FirstHidden(job, path, k + 1)
  }

  lemma {:induction false} FirstSkips(job: Job, path: string, k: nat, m: nat)
    requires k <= m <= |path| && forall i :: k <= i < m ==> path[i] != '/'
    ensures FirstHidden(job, path, k) == FirstHidden(job, path, m)
    decreases m - k
  {
    hide ModeAt;
    if k < m {
      FirstSkips(job, path, k + 1, m);
    }
  }

  /** The treatment an entry below top asks for by its own rule. */
  function OwnBelow(job: Job, e: Entry, top: string, topSource: string): Treatment
    requires |top| <= |e.path|
  {
    OwnTreatment(job, e.kind, e.path, topSource + e.path[|top|..])
  }

  /** The first hidden directory above decides, with its bypass flag; without one the entry's own rule. */
  ghost predicate Decided(job: Job, e: Entry, top: string, topSource: string) {
    && MatchesPath(e.path, top) && e.path != top
    && match FirstHidden(job, e.path, |top| + 1)
       case Some(dir) => e.treatment == Hidden(BypassAt(job, dir))
       case None => e.treatment == OwnBelow(job, e, top, topSource)
  }

  ghost predicate AllDecided(job: Job, entries: seq<Entry>, top: string, topSource: string) {
    forall i :: 0 <= i < |entries| ==> Decided(job, entries[i], top, topSource)
  }

  lemma {:induction false} ItemsDecided(job: Job, items: seq<Item>, dir: string, source: string)
    requires Extends(dir) && WellFormedItems(items)
    ensures AllDecided(job, WantedItems(job, items, dir, source), dir, source)
    decreases items
  {
    hide Wanted, ModeAt, BypassAt, Decided, HiddenIf;
    if items != [] {
      var last := items[|items| - 1];
      ItemsDecided(job, items[..|items| - 1], dir, source);
      ItemDecided(job, last, dir, source);
    }
  }

  lemma {:induction false} ItemDecided(job: Job, item: Item, dir: string, source: string)
    requires Extends(dir) && ProperName(item.name) && WellFormed(item.node)
    ensures var path, from := Child(dir, item.name), Child(source, item.name);
            AllDecided(job, HiddenIf(job, path, Wanted(job, item.node, path, from)), dir, source)
    decreases item
  {
    hide ModeAt, BypassAt, WantedItems, OwnTreatment, FirstHidden;
    var path, from := Child(dir, item.name), Child(source, item.name);
    ChildExtends(dir, item.name);
    assert path[|dir|..] == "/" + item.name;
    if item.node.Leaf? {
      LeafDecided(job, item, dir, source);
    } else {
      ItemsDecided(job, item.node.items, path, from);
      var below := WantedItems(job, item.node.items, path, from);
      var entries := HiddenIf(job, path, Wanted(job, item.node, path, from));
      forall i | 0 <= i < |entries|
        ensures Decided(job, entries[i], dir, source)
      {
        assert Decided(job, below[i], path, from);
        BelowItem(job, below[i], item.name, dir, source);
      }
    }
  }

  lemma LeafDecided(job: Job, item: Item, dir: string, source: string)
    requires Extends(dir) && ProperName(item.name) && item.node.Leaf?
    ensures var path, from := Child(dir, item.name), Child(source, item.name);
            AllDecided(job, HiddenIf(job, path, Wanted(job, item.node, path, from)), dir, source)
  {
    hide ModeAt, BypassAt, FirstHidden;
    var path, from := Child(dir, item.name), Child(source, item.name);
    FirstSkips(job, path, |dir| + 1, |path|);
    NoneBeyond(job, path);
    assert path[|dir|..] == "/" + item.name && source + path[|dir|..] == from;
    var e := Entry(path, item.node.kind, OwnTreatment(job, item.node.kind, path, from));
    assert Wanted(job, item.node, path, from) == [e];
    assert HiddenIf(job, path, [e]) == [e];
  }

  lemma NoneBeyond(job: Job, path: string)
    ensures FirstHidden(job, path, |path|).None?
  {}

  /** From a directory's point of view: an item of it is the first that can be hidden. */
  lemma BelowItem(job: Job, e: Entry, name: string, dir: string, source: string)
    requires Extends(dir) && ProperName(name) && Extends(Child(dir, name))
    requires Decided(job, e, Child(dir, name), Child(source, name))
    ensures var path := Child(dir, name);
            var seen := if ModeAt(job, path) == "hide" then e.(treatment := Hidden(BypassAt(job, path))) else e;
            Decided(job, seen, dir, source)
  {
    hide ModeAt, BypassAt, OwnTreatment, FirstHidden;
    var path := Child(dir, name);
    assert forall i :: 0 <= i < |path| ==> path[i] == e.path[i];
    FirstSkips(job, e.path, |dir| + 1, |path|);
    assert e.path[..|path|] == path && e.path[|path|] == '/';
    FirstStep(job, e.path, |path|);
    assert e.path[|dir|..] == "/" + name + e.path[|path|..];
    assert source + e.path[|dir|..] == Child(source, name) + e.path[|path|..];
  }

  lemma FirstStep(job: Job, path: string, k: nat)
    requires k < |path|
    ensures FirstHidden(job, path, k)
         == if path[k] == '/' && !EndsWithSlash(path[..k]) && ModeAt(job, path[..k]) == "hide" then Some(path[..k])
            else FirstHidden(job, path, k + 1)
  {}

  /** A plan gives an entry one treatment. */
  lemma GivesOne(plan: Plan, a: Entry, b: Entry)
    requires Gives(plan, a) && Gives(plan, b) && a.path == b.path && a.kind == b.kind
    ensures a == b
  {
    hide MatchesPath, MapCovers;
  }

  /** An ordinary entry gets the treatment its own rule asks for if and only if no directory above it is
    * hidden, or its own rule asks for what the first hidden one gives. */
  lemma OwnRuleExactly(job: Job, root: Node, virtualRoot: string, sourceRoot: string, i: nat)
    requires Extends(virtualRoot) && root.Dir? && WellFormed(root)
             && PlanTree(job, Some(root), virtualRoot, sourceRoot).Some?
    requires i < |Wanted(job, root, virtualRoot, sourceRoot)|
             && Ordinary(job, Wanted(job, root, virtualRoot, sourceRoot)[i])
    ensures var plan, e := PlanTree(job, Some(root), virtualRoot, sourceRoot).value,
                           Wanted(job, root, virtualRoot, sourceRoot)[i];
            var above := FirstHidden(job, e.path, |virtualRoot| + 1);
            && |virtualRoot| <= |e.path|
            && var own := OwnBelow(job, e, virtualRoot, sourceRoot);
            Gives(plan, e.(treatment := own)) <==> above.None? || own == Hidden(BypassAt(job, above.value))
  {
    hide PlanItems, ModeAt, BypassAt, Gives, FirstHidden, OwnTreatment;
    TreePlanGives(job, root, virtualRoot, sourceRoot);
    ItemsDecided(job, root.items, virtualRoot, sourceRoot);
    WantedOfDir(job, root, virtualRoot, sourceRoot);
    hide Wanted, WantedItems;
    var plan := PlanTree(job, Some(root), virtualRoot, sourceRoot).value;
    var e := Wanted(job, root, virtualRoot, sourceRoot)[i];
    assert Decided(job, e, virtualRoot, sourceRoot) && Gives(plan, e);
    var own := e.(treatment := OwnBelow(job, e, virtualRoot, sourceRoot));
    if Gives(plan, own) {
      GivesOne(plan, e, own);
    }
  }

  // ---- whose rule it is ------------------------------------------------------------------

  ghost predicate OwnedBy(mappings: seq<Mapping>, owner: string) {
    forall i :: 0 <= i < |mappings| ==> mappings[i].owner == owner
  }

  lemma {:induction false} EntryOwner(job: Job, name: string, node: Node, path: string, source: string)
    requires PlanEntry(job, name, node, path, source).Some?
    ensures OwnedBy(PlanEntry(job, name, node, path, source).value.mappings, job.owner)
    decreases node
  {
    hide PlanItems, ModeAt, BypassAt, HasNested;
    var r := PlanEntry(job, name, node, path, source);
    if node.Dir? && r == PlanItems(job, node.items, path, source) {
      ItemsOwner(job, node.items, path, source);
    }
  }

  lemma {:induction false} ItemsOwner(job: Job, items: seq<Item>, dir: string, source: string)
    requires PlanItems(job, items, dir, source).Some?
    ensures OwnedBy(PlanItems(job, items, dir, source).value.mappings, job.owner)
    decreases items
  {
    hide PlanEntry;
    if items != [] {
      var last := items[|items| - 1];
      ItemsOwner(job, items[..|items| - 1], dir, source);
      EntryOwner(job, last.name, last.node, Child(dir, last.name), Child(source, last.name));
    }
  }
}
