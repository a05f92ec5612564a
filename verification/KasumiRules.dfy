/** The path-rule index: binary search over sorted, deduplicated ordinals against a linear scan. */
module KasumiRules {
  import opened Options
  import opened Ordering

  datatype Rule = Rule(path: string, mode: string, bypass: bool)

  predicate EndsWithSlash(s: string) { s != [] && s[|s| - 1] == '/' }
  predicate Absolute(s: string) { s != [] && s[0] == '/' }

  /** path is the prefix itself or lies below it, on a component boundary. */
  predicate MatchesPath(path: string, prefix: string) {
    path == prefix
    || (prefix != [] && |path| > |prefix| && prefix <= path
        && (EndsWithSlash(prefix) || path[|prefix|] == '/'))
  }

  /** Matching compares with the prefix and a slash, unless the prefix brings its own. */
  lemma MatchesExactly(path: string, prefix: string)
    ensures MatchesPath(path, prefix) <==>
            || path == prefix
            || (prefix != "" && prefix[|prefix| - 1] == '/' && |path| > |prefix| && prefix <= path)
            || (prefix != "" && prefix[|prefix| - 1] != '/' && prefix + "/" <= path)
  {
    if prefix != "" && |path| > |prefix| && prefix <= path {
      assert prefix + "/" <= path <==> path[|prefix|] == '/';
    }
  }

  predicate Applies(rule: Rule, path: string) {
    Absolute(rule.path) && MatchesPath(path, rule.path)
  }

  /** The longest matching rule; the latest one among equal paths. */
  ghost predicate IsEffective(rules: seq<Rule>, path: string, r: Option<nat>) {
    match r
    case None => forall i :: 0 <= i < |rules| ==> !Applies(rules[i], path)
    case Some(k) =>
      && k < |rules| && Applies(rules[k], path)
      && forall i :: 0 <= i < |rules| && Applies(rules[i], path) ==>
           |rules[i].path| < |rules[k].path| || (|rules[i].path| == |rules[k].path| && i <= k)
  }

  lemma {:induction false} EffectiveUnique(rules: seq<Rule>, path: string, a: Option<nat>, b: Option<nat>)
    requires IsEffective(rules, path, a) && IsEffective(rules, path, b)
    ensures a == b
  {}

  /** Some rule lies strictly below the path. */
  ghost predicate HasNested(rules: seq<Rule>, path: string) {
    exists i :: 0 <= i < |rules| && Nested(rules[i], path)
  }

  predicate Nested(rule: Rule, path: string) {
    |rule.path| > |path| && MatchesPath(rule.path, path)
  }

  // ---- the linear scans ------------------------------------------------------------------

  method EffectiveLinear(rules: seq<Rule>, path: string) returns (selected: Option<nat>)
    ensures IsEffective(rules, path, selected)
  {
    selected := None;
    var longest := 0;
    var i := 0;
    while i < |rules|
      invariant 0 <= i <= |rules|
      invariant selected.Some? ==> selected.value < i && longest == |rules[selected.value].path|
      invariant selected.None? ==> longest == 0
      invariant IsEffective(rules[..i], path, selected)
    {
      assert rules[..i + 1] == rules[..i] + [rules[i]];
      if Absolute(rules[i].path) && |rules[i].path| >= longest && MatchesPath(path, rules[i].path) {
        longest := |rules[i].path|;
        selected := Some(i);
      }
      i := i + 1;
    }
    assert rules[..i] == rules;
  }

  method HasNestedLinear(rules: seq<Rule>, path: string) returns (nested: bool)
    ensures nested <==> HasNested(rules, path)
  {
    var i := 0;
    while i < |rules|
      invariant 0 <= i <= |rules| && forall k :: 0 <= k < i ==> !Nested(rules[k], path)
    {
      if Nested(rules[i], path) {
        return true;
      }
      i := i + 1;
    }
    return false;
  }

  // ---- sorting the ordinals --------------------------------------------------------------

  /** Order of the index: by path, the later rule first among equal paths. */
  predicate Before(rules: seq<Rule>, a: nat, b: nat)
    requires a < |rules| && b < |rules|
  {
    if rules[a].path != rules[b].path then Less(rules[a].path, rules[b].path) else a > b
  }

  ghost predicate Ordinals(rules: seq<Rule>, s: seq<nat>) {
    forall i :: 0 <= i < |s| ==> s[i] < |rules|
  }

  ghost predicate InOrder(rules: seq<Rule>, s: seq<nat>)
    requires Ordinals(rules, s)
  {
    forall i, j :: 0 <= i < j < |s| ==> Before(rules, s[i], s[j])
  }

  lemma {:induction false} BeforeTransitive(rules: seq<Rule>, a: nat, b: nat, c: nat)
    requires a < |rules| && b < |rules| && c < |rules| && Before(rules, a, b) && Before(rules, b, c)
    ensures Before(rules, a, c)
  {
    if rules[a].path != rules[b].path && rules[b].path != rules[c].path {
      LessTransitive(rules[a].path, rules[b].path, rules[c].path);
      LessIrreflexive(rules[a].path);
    }
  }

  function InsertOrdinal(rules: seq<Rule>, x: nat, s: seq<nat>): (r: seq<nat>)
    requires x < |rules| && Ordinals(rules, s)
    ensures Ordinals(rules, r) && (forall y :: y in r <==> y == x || y in s)
  {
    if s == [] || Before(rules, x, s[0]) then [x] + s else [s[0]] + InsertOrdinal(rules, x, s[1..])
  }

  lemma {:induction false} InsertInOrder(rules: seq<Rule>, x: nat, s: seq<nat>)
    requires x < |rules| && Ordinals(rules, s) && InOrder(rules, s) && x !in s
    ensures InOrder(rules, InsertOrdinal(rules, x, s))
  {
    if s != [] {
      if Before(rules, x, s[0]) {
        forall j | 0 < j < |s|
          ensures Before(rules, x, s[j])
        {
          BeforeTransitive(rules, x, s[0], s[j]);
        }
      } else {
        InsertInOrder(rules, x, s[1..]);
        LessTotal(rules[x].path, rules[s[0]].path);
        var r := InsertOrdinal(rules, x, s[1..]);
        forall j | 0 <= j < |r|
          ensures Before(rules, s[0], r[j])
        {
          assert r[j] in r;
          if r[j] != x {
            var k :| 0 <= k < |s[1..]| && s[1..][k] == r[j];
            assert s[k + 1] == r[j];
          }
        }
      }
    }
  }

  /** The order std::sort establishes; ordinals are distinct, so it is unique. */
  function SortOrdinals(rules: seq<Rule>, s: seq<nat>): (r: seq<nat>)
    requires Ordinals(rules, s)
    ensures Ordinals(rules, r) && (forall y :: y in r <==> y in s)
  {
    if s == [] then [] else InsertOrdinal(rules, s[0], SortOrdinals(rules, s[1..]))
  }

  ghost predicate Distinct(s: seq<nat>) {
    forall i, j :: 0 <= i < j < |s| ==> s[i] != s[j]
  }

  lemma {:induction false} SortInOrder(rules: seq<Rule>, s: seq<nat>)
    requires Ordinals(rules, s) && Distinct(s)
    ensures InOrder(rules, SortOrdinals(rules, s))
  {
    if s != [] {
      SortInOrder(rules, s[1..]);
      assert s[0] !in s[1..] by {
        forall k | 0 <= k < |s[1..]|
          ensures s[1..][k] != s[0]
        {
          assert s[1..][k] == s[k + 1];
        }
      }
      InsertInOrder(rules, s[0], SortOrdinals(rules, s[1..]));
    }
  }

  // ---- the index -------------------------------------------------------------------------

  const LINEAR_LIMIT: nat := 8

  /** Paths strictly increase, and every absolute rule has the last rule of its path in the table. */
  ghost predicate IsIndex(rules: seq<Rule>, ordered: seq<nat>) {
    && Ordinals(rules, ordered)
    && (forall i, j :: 0 <= i < j < |ordered| ==> Less(rules[ordered[i]].path, rules[ordered[j]].path))
    && (forall i :: 0 <= i < |ordered| ==> Absolute(rules[ordered[i]].path))
    && (forall k :: 0 <= k < |rules| && Absolute(rules[k].path) ==> Covered(rules, ordered, k))
  }

  ghost predicate Covered(rules: seq<Rule>, ordered: seq<nat>, k: nat)
    requires k < |rules| && Ordinals(rules, ordered)
  {
    exists i :: 0 <= i < |ordered| && rules[ordered[i]].path == rules[k].path && k <= ordered[i]
  }

  class RuleIndex {
    var rules: seq<Rule>
    var ordered: seq<nat>

    ghost predicate Valid()
      reads this
    {
      |rules| > LINEAR_LIMIT ==> IsIndex(rules, ordered)
    }

    constructor (source: seq<Rule>)
      ensures Valid() && rules == source
    {
      rules, ordered := source, [];
      new;
      if |source| > LINEAR_LIMIT {
        var storage: seq<nat> := [];
        var i: nat := 0;
        while i < |source|
          invariant i <= |source| && rules == source
          invariant Ordinals(source, storage) && Distinct(storage)
          invariant forall k :: k in storage <==> 0 <= k < i && Absolute(source[k].path)
        {
          if Absolute(source[i].path) {
            assert i !in storage;
            storage := storage + [i];
          }
          i := i + 1;
        }
        SortInOrder(source, storage);
        ordered := Unique(source, SortOrdinals(source, storage));
        IndexFromSorted(source, storage, SortOrdinals(source, storage), ordered);
      }
    }

    /** The last rule with exactly this path. */
    method Exact(path: string) returns (r: Option<nat>)
      requires IsIndex(rules, ordered)
      ensures r.None? ==> forall k :: 0 <= k < |rules| && Absolute(rules[k].path) ==> rules[k].path != path
      ensures r.Some? ==> r.value < |rules| && rules[r.value].path == path && Absolute(path)
      ensures r.Some? ==> forall k :: 0 <= k < |rules| && rules[k].path == path ==> k <= r.value
    {
      hide Less, Covered;
      var low, high := 0, |ordered|;
      while low < high
        invariant 0 <= low <= high <= |ordered|
        invariant forall i :: 0 <= i < low ==> Less(rules[ordered[i]].path, path)
        invariant forall i :: high <= i < |ordered| ==> !Less(rules[ordered[i]].path, path)
      {
        var middle := low + (high - low) / 2;
        Partition(rules, ordered, middle, path);
        if Less(rules[ordered[middle]].path, path) {
          low := middle + 1;
        } else {
          high := middle;
        }
      }
      SameAtBound(rules, ordered, path, low);
      if low < |ordered| && rules[ordered[low]].path == path {
        return Some(ordered[low]);
      }
      return None;
    }

    /** The rule in force at a path. */
    method EffectiveRule(path: string) returns (r: Option<nat>)
      requires Valid()
      ensures IsEffective(rules, path, r)
    {
      if |rules| <= LINEAR_LIMIT {
        r := EffectiveLinear(rules, path);
        return;
      }
      hide IsIndex;
      var n: nat := |path|;
      while n > 0
        invariant n <= |path| && Boundary(path, n)
        invariant NoLonger(rules, path, n)
      {
        var prefix := path[..n];
        r := Exact(prefix);
        if r.Some? {
          LongestFound(rules, path, n, r.value);
          return;
        }
        if EndsWithSlash(prefix) {
          OneShorter(rules, path, n);
          n := n - 1;
        } else {
          var slash := LastSlash(prefix);
          assert forall i :: 0 <= i < n ==> prefix[i] == path[i];
          SkipComponent(rules, path, n, slash);
          if slash.None? {
            break;
          }
          n := slash.value + 1;
        }
      }
      r := None;
    }

    /** Does any rule lie strictly below the path? The index holds absolute rules only. */
    method HasNestedRule(path: string) returns (nested: bool)
      requires Valid()
      ensures nested <==> FindsNested(rules, path)
    {
      if |rules| <= LINEAR_LIMIT {
        nested := HasNestedLinear(rules, path);
        return;
      }
      hide Less, Covered, BelowBound, Nested;
      var low, high := 0, |ordered|;
      while low < high
        invariant 0 <= low <= high <= |ordered|
        invariant forall i :: 0 <= i < low ==> BelowBound(rules[ordered[i]].path, path)
        invariant forall i :: high <= i < |ordered| ==> !BelowBound(rules[ordered[i]].path, path)
      {
        var middle := low + (high - low) / 2;
        BoundPartition(rules, ordered, middle, path);
        if BelowBound(rules[ordered[middle]].path, path) {
          low := middle + 1;
        } else {
          high := middle;
        }
      }
      NestedAtBound(rules, ordered, path, low);
      return low < |ordered| && Nested(rules[ordered[low]], path);
    }
  }

  /** What the lookup answers: beyond the short lists, nothing lies below a relative path. */
  ghost predicate FindsNested(rules: seq<Rule>, path: string) {
    HasNested(rules, path) && (|rules| <= 8 || Absolute(path))
  }

  /** The index drops relative rules, so for a relative path it misses what a scan finds. The compiler asks
    * with absolute paths only, where the two agree. */
  lemma RelativePathsDiffer(rules: seq<Rule>)
    requires |rules| > 8 && rules[0].path == "vendor/lib"
    ensures HasNested(rules, "vendor") && !FindsNested(rules, "vendor")
  {
    assert Nested(rules[0], "vendor");
  }

  // ---- walking the prefixes --------------------------------------------------------------

  /** A position where a rule path may end: the end, after a slash, or before one. */
  predicate Boundary(path: string, n: nat)
    requires n <= |path|
  {
    n == 0 || n == |path| || path[n - 1] == '/' || path[n] == '/'
  }

  ghost predicate NoLonger(rules: seq<Rule>, path: string, n: nat) {
    forall k :: 0 <= k < |rules| && Applies(rules[k], path) ==> |rules[k].path| <= n
  }

  lemma LongestFound(rules: seq<Rule>, path: string, n: nat, r: nat)
    requires 0 < n <= |path| && Boundary(path, n) && NoLonger(rules, path, n)
    requires r < |rules| && rules[r].path == path[..n] && Absolute(path[..n])
    requires forall k :: 0 <= k < |rules| && rules[k].path == path[..n] ==> k <= r
    ensures IsEffective(rules, path, Some(r))
  {
    forall k | 0 <= k < |rules| && Applies(rules[k], path)
      ensures |rules[k].path| < n || (|rules[k].path| == n && k <= r)
    {
      if |rules[k].path| == n {
        assert rules[k].path == path[..n];
      }
    }
  }

  lemma OneShorter(rules: seq<Rule>, path: string, n: nat)
    requires 0 < n <= |path| && NoLonger(rules, path, n)
    requires forall k :: 0 <= k < |rules| && Absolute(rules[k].path) ==> rules[k].path != path[..n]
    ensures NoLonger(rules, path, n - 1)
  {
    forall k | 0 <= k < |rules| && Applies(rules[k], path)
      ensures |rules[k].path| <= n - 1
    {
      assert rules[k].path == path[..|rules[k].path|];
    }
  }

  /** std::string_view::rfind for a slash. */
  method LastSlash(s: string) returns (r: Option<nat>)
    ensures r.Some? ==> r.value < |s| && s[r.value] == '/' && forall i :: r.value < i < |s| ==> s[i] != '/'
    ensures r.None? ==> forall i :: 0 <= i < |s| ==> s[i] != '/'
  {
    var i: nat := |s|;
    while i > 0
      invariant i <= |s| && forall k :: i <= k < |s| ==> s[k] != '/'
    {
      if s[i - 1] == '/' {
        return Some(i - 1);
      }
      i := i - 1;
    }
    return None;
  }

  /** Between the last slash and here no rule path can end. */
  lemma SkipComponent(rules: seq<Rule>, path: string, n: nat, slash: Option<nat>)
    requires 0 < n <= |path| && NoLonger(rules, path, n) && !EndsWithSlash(path[..n])
    requires forall k :: 0 <= k < |rules| && Absolute(rules[k].path) ==> rules[k].path != path[..n]
    requires slash.Some? ==> slash.value < n && path[slash.value] == '/' && forall i :: slash.value < i < n ==>
             path[i] != '/'
    requires slash.None? ==> forall i :: 0 <= i < n ==> path[i] != '/'
    ensures NoLonger(rules, path, if slash.Some? then slash.value + 1 else 0)
    ensures slash.None? ==> IsEffective(rules, path, None)
  {
    OneShorter(rules, path, n);
    var first := if slash.Some? then slash.value + 1 else 0;
    forall k | 0 <= k < |rules| && Applies(rules[k], path)
      ensures |rules[k].path| <= first
    {
      assert rules[k].path == path[..|rules[k].path|];
    }
  }

  // ---- the bound below a path ------------------------------------------------------------

  /** The comparator of the nested lookup: is the candidate before everything below key? */
  predicate BelowBound(candidate: string, key: string) {
    var head := if |candidate| < |key| then candidate else candidate[..|key|];
    if head != key then Less(head, key)
    else if |candidate| == |key| then true
    else key != "" && !EndsWithSlash(key) && candidate[|key|] < '/'
  }

  lemma {:induction false} HeadLess(candidate: string, key: string)
    requires (if |candidate| < |key| then candidate else candidate[..|key|]) != key
    ensures var head := if |candidate| < |key| then candidate else candidate[..|key|];
            forall t :: Less(head, key) <==> Less(candidate, key + t)
  {
    var head := if |candidate| < |key| then candidate else candidate[..|key|];
    forall t
      ensures Less(head, key) <==> Less(candidate, key + t)
    {
      assert (key + t)[0] == key[0] && (key + t)[1..] == key[1..] + t;
      if candidate != [] && candidate[0] == key[0] {
        assert head == [candidate[0]] + head[1..] && key == [key[0]] + key[1..];
        assert head[1..] == if |candidate[1..]| < |key[1..]| then candidate[1..] else candidate[1..][..|key[1..]|];
        HeadLess(candidate[1..], key[1..]);
      }
    }
  }

  lemma {:induction false} SameHead(candidate: string, key: string, t: string)
    requires key <= candidate
    ensures Less(candidate, key + t) <==> Less(candidate[|key|..], t)
  {
    if key != [] {
      assert (key + t)[0] == key[0] && (key + t)[1..] == key[1..] + t;
      SameHead(candidate[1..], key[1..], t);
      assert candidate[1..][|key[1..]|..] == candidate[|key|..];
    } else {
      assert key + t == t && candidate[0..] == candidate;
    }
  }

  /** Before the bound means: not after the path itself when it ends in a slash, else before path + '/'. */
  lemma {:induction false} BelowBoundMeaning(candidate: string, key: string)
    requires key != "" && candidate != ""
    ensures EndsWithSlash(key) ==> (BelowBound(candidate, key) <==> AtMost(candidate, key))
    ensures !EndsWithSlash(key) ==> (BelowBound(candidate, key) <==> Less(candidate, key + "/"))
  {
    var head := if |candidate| < |key| then candidate else candidate[..|key|];
    if head != key {
      HeadLess(candidate, key);
      assert key + "" == key;
    } else {
      SameHead(candidate, key, "/");
      SameHead(candidate, key, "");
      assert key + "" == key;
      var rest := candidate[|key|..];
      if rest != [] {
        assert rest[0] == candidate[|key|];
        assert Less(rest, "/") <==> rest[0] < '/';
      }
    }
  }

  lemma {:induction false} BoundPartition(rules: seq<Rule>, ordered: seq<nat>, middle: nat, path: string)
    requires IsIndex(rules, ordered) && middle < |ordered|
    ensures BelowBound(rules[ordered[middle]].path, path) ==>
              forall i :: 0 <= i <= middle ==> BelowBound(rules[ordered[i]].path, path)
    ensures !BelowBound(rules[ordered[middle]].path, path) ==>
              forall i :: middle <= i < |ordered| ==> !BelowBound(rules[ordered[i]].path, path)
  {
    hide Less, Covered, BelowBound;
    forall i, j | 0 <= i < j < |ordered| && BelowBound(rules[ordered[j]].path, path)
      ensures BelowBound(rules[ordered[i]].path, path)
    {
      BoundDownward(rules[ordered[i]].path, rules[ordered[j]].path, path);
    }
  }

  lemma {:induction false} BoundDownward(a: string, b: string, path: string)
    requires Less(a, b) && BelowBound(b, path) && a != "" && b != ""
    ensures BelowBound(a, path)
  {
    if path != "" {
      BelowBoundMeaning(a, path);
      BelowBoundMeaning(b, path);
      hide Less, BelowBound;
      if EndsWithSlash(path) {
        if b != path {
          LessTransitive(a, b, path);
        }
      } else {
        LessTransitive(a, b, path + "/");
      }
    }
  }

  /** The first rule past the bound is nested if any absolute rule is. */
  lemma {:induction false} NestedAtBound(rules: seq<Rule>, ordered: seq<nat>, path: string, low: nat)
    requires IsIndex(rules, ordered) && low <= |ordered|
    requires forall i :: 0 <= i < low ==> BelowBound(rules[ordered[i]].path, path)
    requires forall i :: low <= i < |ordered| ==> !BelowBound(rules[ordered[i]].path, path)
    ensures low < |ordered| && Nested(rules[ordered[low]], path) <==> HasNested(rules, path) && Absolute(path)
  {
    hide Less, BelowBound, Nested, Covered;
    if low < |ordered| && Nested(rules[ordered[low]], path) {
      NestedIsAbsolute(rules[ordered[low]], path);
    }
    if HasNested(rules, path) && Absolute(path) {
      var k :| 0 <= k < |rules| && Nested(rules[k], path);
      NestedIsAbsolute(rules[k], path);
      NestedFound(rules, ordered, path, low, k);
    }
  }

  lemma {:induction false} NestedFound(rules: seq<Rule>, ordered: seq<nat>, path: string, low: nat, k: nat)
    requires IsIndex(rules, ordered) && low <= |ordered| && k < |rules| && Absolute(rules[k].path)
             && Nested(rules[k], path)
    requires forall i :: 0 <= i < low ==> BelowBound(rules[ordered[i]].path, path)
    requires forall i :: low <= i < |ordered| ==> !BelowBound(rules[ordered[i]].path, path)
    ensures low < |ordered| && Nested(rules[ordered[low]], path)
  {
    hide Less, BelowBound, Nested, AtMost, MatchesPath;
    var i := EntryOf(rules, ordered, k);
    NestedAfterBound(rules[k], path);
    assert rules[ordered[i]].path == rules[k].path;
    assert low <= i;
    EntriesOrdered(rules, ordered, low, i);
    FirstIsNested(rules[ordered[low]], rules[k], path);
  }

  lemma {:induction false} EntryOf(rules: seq<Rule>, ordered: seq<nat>, k: nat) returns (i: nat)
    requires IsIndex(rules, ordered) && k < |rules| && Absolute(rules[k].path)
    ensures i < |ordered| && rules[ordered[i]].path == rules[k].path
  {
    hide Less;
    assert Covered(rules, ordered, k);
    i :| i < |ordered| && rules[ordered[i]].path == rules[k].path && k <= ordered[i];
  }

  lemma {:induction false} EntriesOrdered(rules: seq<Rule>, ordered: seq<nat>, i: nat, j: nat)
    requires IsIndex(rules, ordered) && i <= j < |ordered|
    ensures AtMost(rules[ordered[i]].path, rules[ordered[j]].path) && rules[ordered[i]].path != ""
  {
    hide Less, Covered;
  }

  lemma NestedIsAbsolute(rule: Rule, path: string)
    requires Nested(rule, path)
    ensures Absolute(path) <==> Absolute(rule.path)
  {}

  lemma {:induction false} NestedAfterBound(rule: Rule, path: string)
    requires Nested(rule, path)
    ensures !BelowBound(rule.path, path)
  {}

  lemma {:induction false} FirstIsNested(first: Rule, rule: Rule, path: string)
    requires Nested(rule, path) && first.path != "" && !BelowBound(first.path, path)
    requires AtMost(first.path, rule.path)
    ensures Nested(first, path)
  {
    var bound := if EndsWithSlash(path) then path else path + "/";
    BelowBoundMeaning(first.path, path);
    LessTotal(first.path, bound);
    assert bound <= rule.path;
    PrefixInterval(bound, first.path, rule.path);
  }

  /** Only the lower bound itself can equal the key. */
  lemma {:induction false} SameAtBound(rules: seq<Rule>, ordered: seq<nat>, path: string, low: nat)
    requires IsIndex(rules, ordered) && low <= |ordered|
    requires forall i :: 0 <= i < low ==> Less(rules[ordered[i]].path, path)
    requires forall i :: low <= i < |ordered| ==> !Less(rules[ordered[i]].path, path)
    ensures forall i :: 0 <= i < |ordered| && rules[ordered[i]].path == path ==> i == low
    ensures forall k :: 0 <= k < |rules| && Absolute(rules[k].path) && rules[k].path == path ==>
              low < |ordered| && rules[ordered[low]].path == path && k <= ordered[low]
  {
    hide Less;
    LessIrreflexive(path);
    forall i | low < i < |ordered|
      ensures rules[ordered[i]].path != path
    {
      assert Less(rules[ordered[low]].path, rules[ordered[i]].path);
    }
    forall k | 0 <= k < |rules| && Absolute(rules[k].path) && rules[k].path == path
      ensures low < |ordered| && rules[ordered[low]].path == path && k <= ordered[low]
    {
      assert Covered(rules, ordered, k);
    }
  }

  /** In an index the paths below a key come first. */
  lemma {:induction false} Partition(rules: seq<Rule>, ordered: seq<nat>, middle: nat, path: string)
    requires IsIndex(rules, ordered) && middle < |ordered|
    ensures Less(rules[ordered[middle]].path, path) ==>
              forall i :: 0 <= i <= middle ==> Less(rules[ordered[i]].path, path)
    ensures !Less(rules[ordered[middle]].path, path) ==>
              forall i :: middle <= i < |ordered| ==> !Less(rules[ordered[i]].path, path)
  {
    hide Less, Covered;
    forall i, j | 0 <= i < j < |ordered| && Less(rules[ordered[j]].path, path)
      ensures Less(rules[ordered[i]].path, path)
    {
      LessTransitive(rules[ordered[i]].path, rules[ordered[j]].path, path);
    }
  }

  /** Keep the first of every run of equal paths. */
  method Unique(rules: seq<Rule>, s: seq<nat>) returns (r: seq<nat>)
    requires Ordinals(rules, s)
    ensures r == UniqueOf(rules, s)
  {
    r := [];
    var i := 0;
    while i < |s|
      invariant 0 <= i <= |s| && r == UniqueOf(rules, s[..i])
      invariant i > 0 ==> r != []
    {
      assert s[..i + 1][..i] == s[..i];
      if r == [] || rules[r[|r| - 1]].path != rules[s[i]].path {
        r := r + [s[i]];
      }
      i := i + 1;
    }
    assert s[..i] == s;
  }

  function UniqueOf(rules: seq<Rule>, s: seq<nat>): (r: seq<nat>)
    requires Ordinals(rules, s)
    ensures Ordinals(rules, r)
  {
    if s == [] then []
    else
      var r, x := UniqueOf(rules, s[..|s| - 1]), s[|s| - 1];
      if r == [] || rules[r[|r| - 1]].path != rules[x].path then r + [x] else r
  }

  ghost predicate UniqueFacts(rules: seq<Rule>, s: seq<nat>, r: seq<nat>)
    requires Ordinals(rules, s) && Ordinals(rules, r)
  {
    && (s != [] ==> r != [] && rules[r[|r| - 1]].path == rules[s[|s| - 1]].path)
    && (forall i :: 0 <= i < |r| ==> r[i] in s)
    && (forall i, j :: 0 <= i < j < |r| ==> Less(rules[r[i]].path, rules[r[j]].path))
    && (forall k :: 0 <= k < |s| ==> Covered(rules, r, s[k]))
  }

  lemma {:induction false} UniqueProperties(rules: seq<Rule>, s: seq<nat>)
    requires Ordinals(rules, s) && InOrder(rules, s)
    ensures UniqueFacts(rules, s, UniqueOf(rules, s))
  {
    hide Less, UniqueFacts, Before;
    if s == [] {
      NothingKept(rules);
    } else {
      var front, x := s[..|s| - 1], s[|s| - 1];
      UniqueProperties(rules, front);
      var r := UniqueOf(rules, front);
      assert s == front + [x];
      if r == [] || rules[r[|r| - 1]].path != rules[x].path {
        if r != [] {
          LastIsLess(rules, s, r);
        }
        UniqueKeeps(rules, front, r, x);
      } else {
        UniqueDrops(rules, front, r, x);
      }
    }
  }

  lemma NothingKept(rules: seq<Rule>)
    ensures UniqueFacts(rules, [], [])
  {}

  lemma {:induction false} UniqueKeeps(rules: seq<Rule>, front: seq<nat>, r: seq<nat>, x: nat)
    requires Ordinals(rules, front) && Ordinals(rules, r) && x < |rules| && UniqueFacts(rules, front, r)
    requires forall i :: 0 <= i < |r| ==> Less(rules[r[i]].path, rules[x].path)
    ensures UniqueFacts(rules, front + [x], r + [x])
  {
    hide Less, Covered;
    CoveredMore(rules, front, r, x);
  }

  lemma {:induction false} UniqueDrops(rules: seq<Rule>, front: seq<nat>, r: seq<nat>, x: nat)
    requires Ordinals(rules, front) && x < |rules| && InOrder(rules, front + [x])
    requires Ordinals(rules, r) && UniqueFacts(rules, front, r) && r != [] && rules[r[|r| - 1]].path == rules[x].path
    ensures UniqueFacts(rules, front + [x], r)
  {
    hide Less, Before, Covered, InOrder;
    var s := front + [x];
    EarlierIsLater(rules, front, x, r[|r| - 1]);
    CoversRest(rules, front, r, x);
    forall j | 0 <= j < |r|
      ensures r[j] in s
    {
      assert r[j] in front;
    }
  }

  lemma {:induction false} EarlierIsLater(rules: seq<Rule>, front: seq<nat>, x: nat, y: nat)
    requires Ordinals(rules, front) && x < |rules| && InOrder(rules, front + [x])
    requires y in front && rules[y].path == rules[x].path
    ensures x <= y
  {
    hide Less;
    var k :| 0 <= k < |front| && front[k] == y;
    assert Before(rules, (front + [x])[k], (front + [x])[|front|]);
  }

  lemma {:induction false} CoversRest(rules: seq<Rule>, front: seq<nat>, r: seq<nat>, x: nat)
    requires Ordinals(rules, front) && Ordinals(rules, r) && x < |rules|
    requires forall k :: 0 <= k < |front| ==> Covered(rules, r, front[k])
    requires r != [] && rules[r[|r| - 1]].path == rules[x].path && x <= r[|r| - 1]
    ensures forall k :: 0 <= k < |front + [x]| ==> Covered(rules, r, (front + [x])[k])
  {
    assert Covered(rules, r, x);
    hide Covered;
  }

  lemma {:induction false} LastIsLess(rules: seq<Rule>, s: seq<nat>, r: seq<nat>)
    requires |s| > 1 && Ordinals(rules, s) && InOrder(rules, s) && r == UniqueOf(rules, s[..|s| - 1]) && r != []
    requires UniqueFacts(rules, s[..|s| - 1], r)
    requires rules[r[|r| - 1]].path != rules[s[|s| - 1]].path
    ensures forall i :: 0 <= i < |r| ==> Less(rules[r[i]].path, rules[s[|s| - 1]].path)
  {
    hide Less;
    var x := s[|s| - 1];
    assert Before(rules, s[|s| - 2], x);
    assert s[..|s| - 1][|s| - 2] == s[|s| - 2];
    forall i | 0 <= i < |r|
      ensures Less(rules[r[i]].path, rules[x].path)
    {
      if i < |r| - 1 {
        LessTransitive(rules[r[i]].path, rules[r[|r| - 1]].path, rules[x].path);
      }
    }
  }

  lemma {:induction false} CoveredMore(rules: seq<Rule>, front: seq<nat>, r: seq<nat>, x: nat)
    requires Ordinals(rules, front) && Ordinals(rules, r) && x < |rules|
    requires forall k :: 0 <= k < |front| ==> Covered(rules, r, front[k])
    ensures forall k :: 0 <= k < |front + [x]| ==> Covered(rules, r + [x], (front + [x])[k])
  {
    forall k | 0 <= k < |front + [x]|
      ensures Covered(rules, r + [x], (front + [x])[k])
    {
      if k < |front| {
        var i :| 0 <= i < |r| && rules[r[i]].path == rules[front[k]].path && front[k] <= r[i];
        assert (r + [x])[i] == r[i];
      } else {
        assert (r + [x])[|r|] == x;
      }
    }
  }

  lemma {:induction false} IndexFromSorted(rules: seq<Rule>, storage: seq<nat>, sorted: seq<nat>, ordered: seq<nat>)
    requires Ordinals(rules, storage) && Ordinals(rules, sorted) && InOrder(rules, sorted)
    requires forall k :: k in sorted <==> k in storage
    requires forall k :: k in storage <==> 0 <= k < |rules| && Absolute(rules[k].path)
    requires ordered == UniqueOf(rules, sorted)
    ensures IsIndex(rules, ordered)
  {
    UniqueProperties(rules, sorted);
    forall k | 0 <= k < |rules| && Absolute(rules[k].path)
      ensures Covered(rules, ordered, k)
    {
      assert k in sorted;
      var j :| 0 <= j < |sorted| && sorted[j] == k;
    }
    forall i | 0 <= i < |ordered|
      ensures Absolute(rules[ordered[i]].path)
    {
      assert ordered[i] in sorted;
    }
  }
}
