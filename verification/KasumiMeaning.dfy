/** What a module's rules do to a file of its tree, told from the rules and the tree alone. */
module KasumiMeaning {
  import opened Options
  import opened KasumiRules
  import opened KasumiPlan
  import opened KasumiInstall

  // ---- files of a tree -------------------------------------------------------------------

  /** A list of names leads to this file, link or other leaf. */
  ghost predicate LeafAt(node: Node, names: seq<string>, kind: Kind)
    decreases |names|, 1
  {
    if names == [] then node == Leaf(kind)
    else node.Dir? && exists i :: 0 <= i < |node.items| && LeafUnder(node.items[i], names, kind)
  }

  ghost predicate LeafUnder(item: Item, names: seq<string>, kind: Kind)
    requires names != []
    decreases |names|, 0
  {
    item.name == names[0] && LeafAt(item.node, names[1..], kind)
  }

  /** A directory extended by names. */
  function Extended(dir: string, names: seq<string>): string
    decreases |names|
  {
    if names == [] then dir else Extended(dir + "/" + names[0], names[1..])
  }

  lemma {:induction false} ExtendedStarts(dir: string, names: seq<string>)
    ensures dir <= Extended(dir, names) && (names != [] ==> |Extended(dir, names)| > |dir|)
    decreases |names|
  {
    if names != [] {
      ExtendedStarts(dir + "/" + names[0], names[1..]);
    }
  }

  /** The same names extend any other directory by the same text. */
  lemma {:induction false} ExtendedAlike(dir: string, other: string, names: seq<string>)
    ensures dir <= Extended(dir, names)
    ensures Extended(other, names) == other + Extended(dir, names)[|dir|..]
    decreases |names|
  {
    ExtendedStarts(dir, names);
    if names == [] {
      assert other + "" == other;
    } else {
      var a, b := dir + "/" + names[0], other + "/" + names[0];
      ExtendedStarts(a, names[1..]);
      ExtendedAlike(a, b, names[1..]);
      var text := Extended(a, names[1..]);
      assert text[|dir|..] == "/" + names[0] + text[|a|..];
    }
  }

  // ---- every file is looked at -----------------------------------------------------------

  ghost predicate Lists(entries: seq<Entry>, path: string, kind: Kind) {
    exists k :: 0 <= k < |entries| && entries[k].path == path && entries[k].kind == kind
  }

  lemma {:induction false} NodeListed(job: Job, node: Node, names: seq<string>, kind: Kind, path: string,
          source: string)
    requires LeafAt(node, names, kind)
    ensures Lists(Wanted(job, node, path, source), Extended(path, names), kind)
    decreases |names|, 1
  {
    hide OwnTreatment;
    if names == [] {
      assert Wanted(job, node, path, source)[0].path == path;
    } else {
      var i :| 0 <= i < |node.items| && LeafUnder(node.items[i], names, kind);
      NodeListed(job, node.items[i].node, names[1..], kind, Child(path, names[0]), Child(source, names[0]));
      ItemListed(job, node.items, i, path, source, Extended(path, names), kind);
    }
  }

  lemma {:induction false} ItemListed(job: Job, items: seq<Item>, i: nat, dir: string, source: string, path: string,
          kind: Kind)
    requires i < |items|
    requires Lists(Wanted(job, items[i].node, Child(dir, items[i].name), Child(source, items[i].name)), path, kind)
    ensures Lists(WantedItems(job, items, dir, source), path, kind)
    decreases |items|
  {
    hide Wanted, ModeAt, BypassAt;
    var n := |items| - 1;
    var last := items[n];
    var here := Wanted(job, last.node, Child(dir, last.name), Child(source, last.name));
    var shown := HiddenIf(job, Child(dir, last.name), here);
    var before := WantedItems(job, items[..n], dir, source);
    if i < n {
      ItemListed(job, items[..n], i, dir, source, path, kind);
      var k :| 0 <= k < |before| && before[k].path == path && before[k].kind == kind;
      assert (before + shown)[k] == before[k];
    } else {
      var k :| 0 <= k < |here| && here[k].path == path && here[k].kind == kind;
      assert (before + shown)[|before| + k] == shown[k];
    }
  }

  // ---- what the rules ask ----------------------------------------------------------------

  /** The rule in force at a path hides it. */
  ghost predicate RuledHidden(rules: seq<Rule>, path: string) {
    exists j: nat :: IsEffective(rules, path, Some(j)) && rules[j].mode == "hide"
  }

  /** No directory between the top and the path is hidden. */
  ghost predicate OpenAbove(rules: seq<Rule>, top: string, path: string) {
    forall n :: |top| < n < |path| && path[n] == '/' ==> !RuledHidden(rules, path[..n])
  }

  /** A link that stock has already, with the same destination. */
  predicate StockHasLink(stock: Stock, path: string, kind: Kind) {
    match kind
    case Link(destination) => path in stock.links && stock.links[path] == destination
    case _ => false
  }

  /** What the rule in force asks: without one the file is placed. */
  function Asked(rules: seq<Rule>, r: Option<nat>, bypass: bool, kind: Kind, source: string): Treatment
    requires r.Some? ==> r.value < |rules|
  {
    var flag := bypass || (r.Some? && rules[r.value].bypass);
    if r.Some? && rules[r.value].mode == "hide" then Hidden(flag)
    else if r.Some? && rules[r.value].mode == "none" then Untouched
    else if kind == Whiteout then Hidden(flag)
    else Placed(source, flag)
  }

  lemma AskedIsOwn(job: Job, kind: Kind, path: string, source: string, r: Option<nat>)
    requires IsEffective(job.rules, path, r)
    ensures OwnTreatment(job, kind, path, source) == Asked(job.rules, r, job.bypass, kind, source)
  {
    hide EffectiveOf;
    EffectiveUnique(job.rules, path, r, EffectiveOf(job.rules, path));
  }

  lemma {:induction false} NoneHidden(job: Job, top: string, path: string, k: nat)
    requires |top| < k && OpenAbove(job.rules, top, path)
    ensures FirstHidden(job, path, k).None?
    decreases |path| - k
  {
    hide EffectiveOf;
    if k < |path| {
      NoneHidden(job, top, path, k + 1);
      var r := EffectiveOf(job.rules, path[..k]);
      assert IsEffective(job.rules, path[..k], r);
    }
  }

  /** A file, link or whiteout of the tree gets from the plan what the longest, latest rule matching it asks
    * for, and without any rule it is placed, when no directory above it is hidden. */
  lemma RulesDecide(job: Job, root: Node, virtualRoot: string, sourceRoot: string, names: seq<string>, kind: Kind,
          r: Option<nat>)
    requires Extends(virtualRoot) && root.Dir? && WellFormed(root) && LeafAt(root, names, kind)
    requires PlanTree(job, Some(root), virtualRoot, sourceRoot).Some?
    requires var path := Extended(virtualRoot, names);
             && kind != Special && !StockHasLink(job.stock, path, kind)
             && OpenAbove(job.rules, virtualRoot, path) && IsEffective(job.rules, path, r)
    ensures var plan := PlanTree(job, Some(root), virtualRoot, sourceRoot).value;
            Gives(plan, Entry(Extended(virtualRoot, names), kind,
                              Asked(job.rules, r, job.bypass, kind, Extended(sourceRoot, names))))
  {
    hide PlanTree, Wanted, Gives, EffectiveOf, LeafAt, Extended, OwnTreatment, Asked;
    var path, wanted := Extended(virtualRoot, names), Wanted(job, root, virtualRoot, sourceRoot);
    NodeListed(job, root, names, kind, virtualRoot, sourceRoot);
    var i :| 0 <= i < |wanted| && wanted[i].path == path && wanted[i].kind == kind;
    TreePlanGives(job, root, virtualRoot, sourceRoot);
    WantedOfDir(job, root, virtualRoot, sourceRoot);
    ItemsDecided(job, root.items, virtualRoot, sourceRoot);
    assert Decided(job, wanted[i], virtualRoot, sourceRoot);
    NoneHidden(job, virtualRoot, path, |virtualRoot| + 1);
    ExtendedAlike(virtualRoot, sourceRoot, names);
    AskedIsOwn(job, kind, path, Extended(sourceRoot, names), r);
    assert wanted[i] == Entry(path, kind, Asked(job.rules, r, job.bypass, kind, Extended(sourceRoot, names)));
  }

  lemma {:induction false} FirstIs(job: Job, path: string, k: nat, n: nat)
    requires k <= n < |path| && path[n] == '/' && !EndsWithSlash(path[..n]) && RuledHidden(job.rules, path[..n])
    requires forall i :: k <= i < n && path[i] == '/' ==> !RuledHidden(job.rules, path[..i])
    ensures FirstHidden(job, path, k) == Some(path[..n])
    decreases n - k
  {
    hide EffectiveOf;
    var r := EffectiveOf(job.rules, path[..k]);
    assert IsEffective(job.rules, path[..k], r);
    if k < n {
      FirstIs(job, path, k + 1, n);
    } else {
      var j: nat :| IsEffective(job.rules, path[..n], Some(j)) && job.rules[j].mode == "hide";
      EffectiveUnique(job.rules, path[..n], r, Some(j));
    }
  }

  /** Below a hidden directory the file is hidden with the flag of the first such directory's rule. */
  lemma HiddenAbove(job: Job, root: Node, virtualRoot: string, sourceRoot: string, names: seq<string>, kind: Kind,
          n: nat, j: nat)
    requires Extends(virtualRoot) && root.Dir? && WellFormed(root) && LeafAt(root, names, kind)
    requires PlanTree(job, Some(root), virtualRoot, sourceRoot).Some?
    requires var path := Extended(virtualRoot, names);
             && kind != Special && !StockHasLink(job.stock, path, kind)
             && |virtualRoot| < n < |path| && path[n] == '/' && !EndsWithSlash(path[..n])
             && IsEffective(job.rules, path[..n], Some(j)) && job.rules[j].mode == "hide"
             && OpenAbove(job.rules, virtualRoot, path[..n])
    ensures var plan := PlanTree(job, Some(root), virtualRoot, sourceRoot).value;
            Gives(plan, Entry(Extended(virtualRoot, names), kind, Hidden(job.bypass || job.rules[j].bypass)))
  {
    hide PlanTree, Wanted, Gives, LeafAt, Extended, OwnTreatment, EffectiveOf;
    var path, wanted := Extended(virtualRoot, names), Wanted(job, root, virtualRoot, sourceRoot);
    NodeListed(job, root, names, kind, virtualRoot, sourceRoot);
    var i :| 0 <= i < |wanted| && wanted[i].path == path && wanted[i].kind == kind;
    TreePlanGives(job, root, virtualRoot, sourceRoot);
    WantedOfDir(job, root, virtualRoot, sourceRoot);
    ItemsDecided(job, root.items, virtualRoot, sourceRoot);
    assert Decided(job, wanted[i], virtualRoot, sourceRoot);
    forall k | |virtualRoot| + 1 <= k < n && path[k] == '/'
      ensures !RuledHidden(job.rules, path[..k])
    {
      assert path[..n][..k] == path[..k];
    }
    FirstIs(job, path, |virtualRoot| + 1, n);
    EffectiveUnique(job.rules, path[..n], EffectiveOf(job.rules, path[..n]), Some(j));
  }

  // ---- carried to the modules ------------------------------------------------------------

  /** Whole directories are merged only where stock has one. */
  ghost predicate MergesOnStock(mappings: seq<Mapping>, stock: Stock) {
    forall i :: 0 <= i < |mappings| && mappings[i].merge ==>
        mappings[i].path in stock.directories && Extends(mappings[i].path)
  }

  lemma {:induction false} EntryMerges(job: Job, name: string, node: Node, path: string, source: string)
    requires Extends(path) && WellFormed(node) && PlanEntry(job, name, node, path, source).Some?
    ensures MergesOnStock(PlanEntry(job, name, node, path, source).value.mappings, job.stock)
    decreases node
  {
    hide PlanItems, ModeAt, BypassAt, HasNested;
    var r := PlanEntry(job, name, node, path, source);
    if node.Dir? && r == PlanItems(job, node.items, path, source) {
      ItemsMerge(job, node.items, path, source);
    }
  }

  lemma {:induction false} ItemsMerge(job: Job, items: seq<Item>, dir: string, source: string)
    requires Extends(dir) && WellFormedItems(items) && PlanItems(job, items, dir, source).Some?
    ensures MergesOnStock(PlanItems(job, items, dir, source).value.mappings, job.stock)
    decreases items
  {
    hide PlanEntry;
    if items != [] {
      var last := items[|items| - 1];
      ChildExtends(dir, last.name);
      ItemsMerge(job, items[..|items| - 1], dir, source);
      EntryMerges(job, last.name, last.node, Child(dir, last.name), Child(source, last.name));
    }
  }

  lemma {:induction false} PartMappings(m: Module, partitions: seq<string>, n: nat, k: nat, stock: Stock)
    requires k < n <= |partitions| && PlanPart(m, partitions[k], stock).Some?
    ensures forall x :: x in PlanPart(m, partitions[k], stock).value.mappings ==>
            x in MappingsOf(m, partitions, n, stock)
    decreases n
  {
    hide PlanPart;
    if k < n - 1 {
      PartMappings(m, partitions, n - 1, k, stock);
    }
  }

  /** A regular file that no rule concerns, below no hidden directory, is mapped to the module's own file by
    * a mapping of its module; when stock has none of the directories above it, by one of its own. */
  lemma UnruledIsMapped(m: Module, partitions: seq<string>, k: nat, stock: Stock, names: seq<string>)
    requires k < |partitions| && ProperName(partitions[k]) && partitions[k] in m.trees
             && PlanPart(m, partitions[k], stock).Some?
    requires var root := m.trees[partitions[k]]; root.Dir? && WellFormed(root) && LeafAt(root, names, Regular)
    requires var path := Extended("/" + partitions[k], names);
             OpenAbove(m.rules, "/" + partitions[k], path) && IsEffective(m.rules, path, None)
    ensures var path, source := Extended("/" + partitions[k], names), Extended(m.path + "/" + partitions[k], names);
            && (exists x :: x in MappingsOf(m, partitions, |partitions|, stock) && MapsTo(x, path, source, m.bypass))
            && ((forall n :: 0 < n < |path| && path[n] == '/' ==> path[..n] !in stock.directories) ==>
                  Mapping(path, source, false, m.id, m.bypass) in MappingsOf(m, partitions, |partitions|, stock))
  {
    hide PlanTree, Gives, LeafAt, Extended, MappingsOf, OwnedBy;
    var target, base := "/" + partitions[k], m.path + "/" + partitions[k];
    var path, source := Extended(target, names), Extended(base, names);
    var job, root := JobOf(m, stock), m.trees[partitions[k]];
    var plan := PlanTree(job, Some(root), target, base).value;
    RulesDecide(job, root, target, base, names, Regular, None);
    var x := PlacedByMapping(plan, path, source, m.bypass);
    PartMappings(m, partitions, |partitions|, k, stock);
    TreeOwner(job, Some(root), target, base);
    TreeMerges(job, root, target, base);
    var i :| 0 <= i < |plan.mappings| && plan.mappings[i] == x;
    OwnerAt(plan.mappings, m.id, i);
    if x.merge {
      assert path[|x.path|] == '/' && path[..|x.path|] == x.path;
    }
  }

  lemma OwnerAt(mappings: seq<Mapping>, owner: string, i: nat)
    requires OwnedBy(mappings, owner) && i < |mappings|
    ensures mappings[i].owner == owner
  {}

  lemma TreeMerges(job: Job, root: Node, target: string, source: string)
    requires Extends(target) && root.Dir? && WellFormed(root) && PlanTree(job, Some(root), target, source).Some?
    ensures MergesOnStock(PlanTree(job, Some(root), target, source).value.mappings, job.stock)
  {
    hide PlanItems;
    ItemsMerge(job, root.items, target, source);
  }

  /** The mapping shows this file at the path. */
  predicate MapsTo(x: Mapping, path: string, source: string, bypass: bool) {
    && x.bypass == bypass
    && if x.merge then
         |x.path| < |path| && x.path <= path && (path[|x.path|] == '/' || EndsWithSlash(x.path))
         && x.source + path[|x.path|..] == source
       else x.path == path && x.source == source
  }

  lemma PlacedByMapping(plan: Plan, path: string, source: string, bypass: bool) returns (x: Mapping)
    requires Gives(plan, Entry(path, Regular, Placed(source, bypass)))
    ensures x in plan.mappings && MapsTo(x, path, source, bypass)
  {
    var e := Entry(path, Regular, Placed(source, bypass));
    var i :| 0 <= i < |plan.mappings| && MapCovers(plan.mappings[i], path);
    x := plan.mappings[i];
    assert Effect(x, e) == e.treatment;
  }

  lemma {:induction false} PartsPlanned(t: Totals, m: Module, partitions: seq<string>, n: nat, stock: Stock)
    requires n <= |partitions|
    ensures PartsCompiled(t, m, partitions, n, stock).Some? <==>
            forall k :: 0 <= k < n ==> PlanPart(m, partitions[k], stock).Some?
  {
    hide PlanPart;
    if n > 0 {
      PartsPlanned(t, m, partitions, n - 1, stock);
    }
  }

  /** Everything compiles if and only if every partition of every module does. */
  lemma {:induction false} ModulesPlanned(t: Totals, modules: seq<Module>, partitions: seq<string>, i: nat,
          stock: Stock)
    requires i <= |modules|
    ensures Compiled(t, modules, partitions, i, stock).Some? <==>
            forall j, k :: i <= j < |modules| && 0 <= k < |partitions| ==>
                PlanPart(modules[j], partitions[k], stock).Some?
    decreases |modules| - i
  {
    hide PlanPart, PartsCompiled;
    if i < |modules| {
      ModulesPlanned(t, modules, partitions, i + 1, stock);
      var before := Compiled(t, modules, partitions, i + 1, stock);
      if before.Some? {
        PartsPlanned(before.value, modules[i], partitions, |partitions|, stock);
      }
    }
  }

  /** Once everything compiles, a module claims each of its regular files that no rule concerns and whose
    * directories stock does not have. */
  lemma UnruledIsClaimed(t: Totals, modules: seq<Module>, j: nat, partitions: seq<string>, k: nat, stock: Stock,
          names: seq<string>, canonical: string -> string)
    requires j < |modules| && k < |partitions| && ProperName(partitions[k]) && partitions[k] in modules[j].trees
    requires Compiled(t, modules, partitions, 0, stock).Some?
    requires var root := modules[j].trees[partitions[k]]; root.Dir? && WellFormed(root) && LeafAt(root, names, Regular)
    requires var path := Extended("/" + partitions[k], names);
             && OpenAbove(modules[j].rules, "/" + partitions[k], path) && IsEffective(modules[j].rules, path, None)
             && forall n :: 0 < n < |path| && path[n] == '/' ==> path[..n] !in stock.directories
    ensures var path := Extended("/" + partitions[k], names);
            Claims(modules[j], partitions, stock, canonical, canonical(path))
  {
    hide PlanPart, LeafAt, Extended, MappingsOf, Compiled;
    var m, path := modules[j], Extended("/" + partitions[k], names);
    ModulesPlanned(t, modules, partitions, 0, stock);
    UnruledIsMapped(m, partitions, k, stock, names);
    var x := Mapping(path, Extended(m.path + "/" + partitions[k], names), false, m.id, m.bypass);
    assert ClaimsWith(m, partitions, stock, canonical, canonical(path), x);
  }

  // ---- what a merged directory may hold --------------------------------------------------

  /** A list of names leads to this node. */
  ghost predicate Reaches(node: Node, names: seq<string>, found: Node)
    decreases |names|, 1
  {
    if names == [] then node == found
    else node.Dir? && exists i :: 0 <= i < |node.items| && ReachesUnder(node.items[i], names, found)
  }

  ghost predicate ReachesUnder(item: Item, names: seq<string>, found: Node)
    requires names != []
    decreases |names|, 0
  {
    item.name == names[0] && Reaches(item.node, names[1..], found)
  }

  /** A marker: a directory that replaces, or the name that marks one. */
  ghost predicate Marks(node: Node, names: seq<string>, found: Node) {
    Reaches(node, names, found) && ((found.Dir? && found.marked) || (names != [] && names[|names| - 1] == ".replace"))
  }

  /** A directory is merged as a whole if and only if nothing in it marks a replacement. */
  lemma {:induction false} MergeSupportedExactly(node: Node)
    ensures MergeSupported(node) <==> forall names, found :: !Marks(node, names, found)
    decreases node
  {
    if MergeSupported(node) {
      forall names, found
        ensures !Marks(node, names, found)
      {
        if Reaches(node, names, found) {
          SupportedHasNone(node, names, found);
        }
      }
    } else {
      var names, found := SomeMark(node);
      assert Marks(node, names, found);
    }
  }

  lemma {:induction false} SupportedItem(items: seq<Item>, i: nat)
    requires MergeSupportedItems(items) && i < |items|
    ensures items[i].name != ".replace" && MergeSupported(items[i].node)
    decreases |items|
  {
    if i < |items| - 1 {
      SupportedItem(items[..|items| - 1], i);
    }
  }

  lemma {:induction false} SupportedHasNone(node: Node, names: seq<string>, found: Node)
    requires MergeSupported(node) && Reaches(node, names, found)
    ensures !Marks(node, names, found)
    decreases |names|
  {
    if names != [] {
      var i :| 0 <= i < |node.items| && ReachesUnder(node.items[i], names, found);
      SupportedItem(node.items, i);
      SupportedHasNone(node.items[i].node, names[1..], found);
    }
  }

  lemma {:induction false} SomeMark(node: Node) returns (names: seq<string>, found: Node)
    requires !MergeSupported(node)
    ensures Marks(node, names, found)
    decreases node, 1
  {
    if node.marked {
      names, found := [], node;
    } else {
      names, found := SomeMarkedItem(node, node.items);
    }
  }

  lemma {:induction false} SomeMarkedItem(node: Node, items: seq<Item>) returns (names: seq<string>, found: Node)
    requires node.Dir? && items <= node.items && !MergeSupportedItems(items)
    ensures Marks(node, names, found)
    decreases node, 0, |items|
  {
    var n := |items| - 1;
    var last := items[n];
    assert node.items[n] == last;
    if last.name == ".replace" {
      names, found := [last.name], last.node;
      assert ReachesUnder(node.items[n], names, found);
    } else if !MergeSupported(last.node) {
      names, found := SomeMark(last.node);
      names := [last.name] + names;
      assert ReachesUnder(node.items[n], names, found);
    } else {
      names, found := SomeMarkedItem(node, items[..n]);
    }
  }

  // ---- when a tree is refused ------------------------------------------------------------

  ghost predicate RuledNone(rules: seq<Rule>, path: string) {
    exists j: nat :: IsEffective(rules, path, Some(j)) && rules[j].mode == "none"
  }

  /** The compiler looks into a directory: it is not hidden, and where it could be skipped or merged as a
    * whole some rule lies below it. */
  ghost predicate LookedInto(job: Job, path: string) {
    && !RuledHidden(job.rules, path)
    && (RuledNone(job.rules, path) || path in job.stock.directories ==> HasNested(job.rules, path))
  }

  /** An entry that is to be placed and cannot: a replacement marker, a directory that would be merged and
    * holds one, or a link where stock has a directory and not that link. */
  ghost predicate Offends(job: Job, name: string, node: Node, path: string) {
    && !RuledHidden(job.rules, path) && !RuledNone(job.rules, path)
    && (name == ".replace"
        || (node.Dir? && path in job.stock.directories && !HasNested(job.rules, path) && !MergeSupported(node))
        || (node.Leaf? && node.kind.Link? && !StockHasLink(job.stock, path, node.kind)
           && path in job.stock.directories))
  }

  /** An offender is reached: the entry itself, or one below it in directories that are looked into. */
  ghost predicate Refuses(job: Job, item: Item, path: string)
    decreases item, 1
  {
    || Offends(job, item.name, item.node, path)
    || (item.node.Dir? && LookedInto(job, path) && AnyRefuses(job, item.node.items, path))
  }

  ghost predicate AnyRefuses(job: Job, items: seq<Item>, dir: string)
    decreases items, 0
  {
    exists i :: 0 <= i < |items| && Refuses(job, items[i], Child(dir, items[i].name))
  }

  lemma ModeExactly(job: Job, path: string)
    ensures ModeAt(job, path) == "hide" <==> RuledHidden(job.rules, path)
    ensures ModeAt(job, path) == "none" <==> RuledNone(job.rules, path)
  {
    hide EffectiveOf;
    var r := EffectiveOf(job.rules, path);
    if j: nat :| IsEffective(job.rules, path, Some(j)) {
      EffectiveUnique(job.rules, path, r, Some(j));
    }
  }

  lemma {:induction false} EntryRefused(job: Job, item: Item, path: string, source: string)
    ensures PlanEntry(job, item.name, item.node, path, source).None? <==> Refuses(job, item, path)
    decreases item, 1
  {
    ModeExactly(job, path);
    hide ModeAt, BypassAt, HasNested, RuledHidden, RuledNone, PlanItems, AnyRefuses, MergeSupported;
    if item.node.Dir? {
      ItemsRefused(job, item.node.items, path, source);
    }
  }

  lemma {:induction false} ItemsRefused(job: Job, items: seq<Item>, dir: string, source: string)
    ensures PlanItems(job, items, dir, source).None? <==> AnyRefuses(job, items, dir)
    decreases items, 0
  {
    hide PlanEntry, Refuses;
    if items != [] {
      var n := |items| - 1;
      ItemsRefused(job, items[..n], dir, source);
      EntryRefused(job, items[n], Child(dir, items[n].name), Child(source, items[n].name));
      if i :| 0 <= i < |items| && Refuses(job, items[i], Child(dir, items[i].name)) {
        assert i < n ==> items[..n][i] == items[i];
      }
    }
  }

  /** A partition's tree is refused if and only if its root replaces or an offender is reached. */
  lemma TreeRefusedExactly(job: Job, root: Node, virtualRoot: string, sourceRoot: string)
    requires root.Dir?
    ensures PlanTree(job, Some(root), virtualRoot, sourceRoot).None? <==>
            root.marked || AnyRefuses(job, root.items, virtualRoot)
  {
    hide PlanItems, AnyRefuses;
    ItemsRefused(job, root.items, virtualRoot, sourceRoot);
  }
}
