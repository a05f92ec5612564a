/** Realising a merged module tree over a stock tree with lazily created directory skeletons. */
module MagicMount {
  import opened Options
  import opened LayerMerge

  /** The stock tree. Looking a name up below a symbolic link follows it, so a link to a directory
      carries what such lookups find. */
  datatype Stock =
    | File(content: string)
    | Link(target: string, through: map<Name, Stock>)
    | Dir(children: map<Name, Stock>)

  /** What a reader sees. */
  datatype Tree =
    | TFile(content: string)
    | TLink(target: string)
    | TDir(entries: map<Name, Tree>)

  /** Copy of an untouched stock entry: files bound, links recreated, directories entry by entry. */
  function Mirror(s: Stock): Tree
    decreases s, 1
  {
    match s
    case File(c) => TFile(c)
    case Link(t, _) => TLink(t)
    case Dir(_) => TDir(MirrorAll(s))
  }

  function MirrorAll(s: Stock): map<Name, Tree>
    requires s.Dir?
    decreases s, 0
  {
    map n | n in s.children :: Mirror(s.children[n])
  }

  /** lstat of a name below a path. */
  function Lookup(s: Option<Stock>, n: Name): Option<Stock> {
    match s
    case Some(Dir(children)) => if n in children then Some(children[n]) else None
    case Some(Link(_, through)) => if n in through then Some(through[n]) else None
    case _ => None
  }

  predicate IsDir(s: Option<Stock>) { s.Some? && s.value.Dir? }
  predicate IsFile(s: Option<Stock>) { s.Some? && s.value.File? }

  /** Named views over the entries below them; a view of nothing removes the entry. */
  function Overlay(base: map<Name, Tree>, views: map<Name, Option<Tree>>): map<Name, Tree> {
    map n | n in base.Keys + views.Keys && (n in views ==> views[n].Some?) ::
      if n in views then views[n].value else base[n]
  }

  /** Stock entries that stay visible in a directory node. */
  function Base(node: Node, s: Option<Stock>): map<Name, Tree>
    requires node.Tree?
  {
    if IsDir(s) && !node.replace then MirrorAll(s.value) else map[]
  }

  // ---- the union view: the specification -------------------------------------------------

  /** What the stock tree below shows through a directory node for one of its names. */
  function Under(node: Node, s: Option<Stock>, n: Name): Option<Stock>
    requires node.Tree?
  {
    if IsDir(s) && !node.replace then Lookup(s, n) else None
  }

  /** Stock overlaid by the node: a whiteout removes, replace hides stock, a directory over a
      non-directory drops it. */
  function UnionView(node: Node, s: Option<Stock>): Option<Tree> {
    match node
    case Leaf(Regular(c), _) => Some(TFile(c))
    case Leaf(Symlink(t), _) => Some(TLink(t))
    case Leaf(_, _) => None
    case Tree(_, _, _, _, nodes) =>
        Some(TDir(Overlay(Base(node, s), map n | n in nodes :: UnionView(nodes[n], Under(node, s, n)))))
  }

  // ---- what the code builds --------------------------------------------------------------

  /** The tree the walk builds: it asks stock by path, whatever the parent node said. */
  function BuiltView(node: Node, s: Option<Stock>): Option<Tree> {
    match node
    case Leaf(Regular(c), _) => Some(TFile(c))
    case Leaf(Symlink(t), _) => Some(TLink(t))
    case Leaf(_, _) => None
    case Tree(_, _, _, _, nodes) =>
        Some(TDir(Overlay(Base(node, s), map n | n in nodes :: BuiltView(nodes[n], Lookup(s, n)))))
  }

  /** A direct child needs its parent to become a skeleton. */
  predicate Needs(child: Node, s: Option<Stock>) {
    match child
    case Leaf(Symlink(_), _) => true
    case Leaf(Regular(_), _) => !IsFile(s)
    case Leaf(_, _) => s.Some?
    case Tree(_, _, _, _, _) => !IsDir(s)
  }

  /** What can be put on a stock entry without rebuilding the directory around it: a file is bound onto a
    * file, a directory is walked where there is a directory, an absence is kept where there is nothing.
    * Nothing can be put on a link, and a new link nowhere. */
  predicate FitsInPlace(stock: Option<Stock>, child: Node) {
    match stock
    case None => child.Leaf? && child.entry.Whiteout?
    case Some(File(_)) => child.Leaf? && child.entry.Regular?
    case Some(Link(_, _)) => false
    case Some(Dir(_)) => child.Tree?
  }

  /** A child asks for a skeleton exactly when it does not fit in place. */
  lemma NeedsExactly(child: Node, s: Option<Stock>)
    requires WellFormed(child)
    ensures Needs(child, s) <==> !FitsInPlace(s, child)
  {}

  /** Every child of a directory fits in place. */
  predicate AllFit(node: Node, s: Option<Stock>)
    requires node.Tree?
  {
    forall n :: n in node.nodes ==> FitsInPlace(Lookup(s, n), node.nodes[n])
  }

  /** Every child fits in place all the way down, and nothing replaces. */
  predicate FitsThroughout(node: Node, s: Option<Stock>) {
    node.Tree? ==>
      && !node.replace && AllFit(node, s)
      && forall n :: n in node.nodes ==> FitsThroughout(node.nodes[n], Lookup(s, n))
  }

  /** A directory that is not opaque and whose children fit in place does not become a skeleton. */
  lemma FittingIsNoSkeleton(node: Node, s: Option<Stock>)
    requires node.Tree? && WellFormed(node)
    ensures Skeleton(node, s) <==> node.replace || !AllFit(node, s)
    ensures [] in Skeletons(node, s) <==> node.replace || !AllFit(node, s)
  {
    hide Needs, FitsInPlace;
    forall n | n in node.nodes
      ensures Needs(node.nodes[n], Lookup(s, n)) <==> !FitsInPlace(Lookup(s, n), node.nodes[n])
    {
      NeedsExactly(node.nodes[n], Lookup(s, n));
    }
    NotBelowItself(node, s);
  }

  /** What fits in place throughout is mounted without any skeleton, whatever backs its directories. */
  lemma {:induction false} FittingMounts(node: Node, s: Option<Stock>)
    requires WellFormed(node) && FitsThroughout(node, s)
    ensures Mountable(node, s, false) && Skeletons(node, s) == {}
  {
    if node.Tree? {
      hide Needs, FitsInPlace, Skeleton;
      FittingIsNoSkeleton(node, s);
      forall n | n in node.nodes
        ensures Mountable(node.nodes[n], Lookup(s, n), false) && Skeletons(node.nodes[n], Lookup(s, n)) == {}
      {
        FittingMounts(node.nodes[n], Lookup(s, n));
      }
    }
  }

  /** Where every directory has one behind it a skeleton can always be made. */
  lemma {:induction false} BackedMounts(node: Node, s: Option<Stock>, hasTmpfs: bool)
    requires Collected(node)
    ensures Mountable(node, s, hasTmpfs)
  {
    if node.Tree? {
      hide Needs;
      forall n | n in node.nodes
        ensures Mountable(node.nodes[n], Lookup(s, n), hasTmpfs || Skeleton(node, s))
      {
        BackedMounts(node.nodes[n], Lookup(s, n), hasTmpfs || Skeleton(node, s));
      }
    }
  }

  /** A root without a directory behind it is mounted if and only if each of its own entries fits in
    * place; below them nothing is refused. */
  lemma RootMountsExactly(root: Node, s: Option<Stock>)
    requires root.Tree? && !root.replace && !root.backed
    requires forall n :: n in root.nodes ==> Collected(root.nodes[n])
    ensures Mountable(root, s, false) <==> AllFit(root, s)
  {
    hide Needs, FitsInPlace, Skeletons;
    forall n | n in root.nodes
      ensures WellFormed(root.nodes[n]) && Mountable(root.nodes[n], Lookup(s, n), false)
    {
      CollectedWellFormed(root.nodes[n]);
      BackedMounts(root.nodes[n], Lookup(s, n), false);
    }
    FittingIsNoSkeleton(root, s);
  }

  /** A directory becomes a skeleton when it is opaque or a direct child requires it. */
  predicate Skeleton(node: Node, s: Option<Stock>)
    requires node.Tree?
  {
    (node.replace && node.backed) || exists n :: n in node.nodes && Needs(node.nodes[n], Lookup(s, n))
  }

  /** Where skeletons are moved over stock. Below one everything is built inside it. */
  function Skeletons(node: Node, s: Option<Stock>): set<Path>
    decreases node, 1
  {
    match node
    case Leaf(_, _) => {}
    case Tree(_, _, _, _, nodes) => if Skeleton(node, s) then {[]} else SkeletonsBelow(node, s, nodes.Keys)
  }

  function SkeletonsBelow(node: Node, s: Option<Stock>, names: set<Name>): set<Path>
    requires node.Tree? && names <= node.nodes.Keys
    decreases node, 0
  {
    set n, p | n in names && p in Skeletons(node.nodes[n], Lookup(s, n)) :: [n] + p
  }

  function Within(n: Name, paths: set<Path>): set<Path> {
    set p | p in paths :: [n] + p
  }

  lemma SkeletonsMore(node: Node, s: Option<Stock>, names: set<Name>, n: Name)
    requires node.Tree? && names <= node.nodes.Keys && n in node.nodes
    ensures SkeletonsBelow(node, s, names + {n})
            == SkeletonsBelow(node, s, names) + Within(n, Skeletons(node.nodes[n], Lookup(s, n)))
  {
    hide Skeletons;
  }

  function StockAt(s: Option<Stock>, path: Path): Option<Stock>
    decreases |path|
  {
    if path == [] then s else StockAt(Lookup(s, path[0]), path[1..])
  }

  predicate SkeletonAt(node: Option<Node>, s: Option<Stock>, path: Path) {
    var at := NodeAt(node, path);
    at.Some? && at.value.Tree? && Skeleton(at.value, StockAt(s, path))
  }

  /** A skeleton is made at exactly those directories that are opaque or have a direct child requiring
    * one, and that do not lie below another. */
  lemma {:induction false} SkeletonsExact(node: Node, s: Option<Stock>, path: Path)
    ensures path in Skeletons(node, s) <==>
              SkeletonAt(Some(node), s, path) && forall k :: 0 <= k < |path| ==> !SkeletonAt(Some(node), s, path[..k])
    decreases |path|
  {
    hide Skeleton;
    if path == [] {
    } else if node.Leaf? {
      NothingBelow(path[1..]);
    } else {
      var n, rest := path[0], path[1..];
      assert path[..0] == [] && path == [n] + rest;
      forall k | 0 < k <= |path|
        ensures SkeletonAt(Some(node), s, path[..k]) == SkeletonAt(Sub(Some(node), n), Lookup(s, n), rest[..k - 1])
      {
        assert path[..k][1..] == rest[..k - 1];
      }
      assert path[..|path|] == path && rest[..|rest|] == rest;
      if n in node.nodes {
        SkeletonsExact(node.nodes[n], Lookup(s, n), rest);
        BelowFirst(node, s, n, rest);
        forall k | 0 <= k < |rest|
          ensures SkeletonAt(Some(node), s, path[..k + 1]) == SkeletonAt(Some(node.nodes[n]), Lookup(s, n), rest[..k])
        {}
        assert (forall k :: 0 <= k < |path| ==> !SkeletonAt(Some(node), s, path[..k]))
          <==> !SkeletonAt(Some(node), s, []) && forall k :: 0 <= k < |rest| ==>
              !SkeletonAt(Some(node.nodes[n]), Lookup(s, n), rest[..k]);
      } else {
        NothingBelow(rest);
      }
    }
  }

  lemma BelowFirst(node: Node, s: Option<Stock>, n: Name, rest: Path)
    requires node.Tree? && n in node.nodes
    ensures [n] + rest in SkeletonsBelow(node, s, node.nodes.Keys) <==> rest in Skeletons(node.nodes[n], Lookup(s, n))
  {
    hide Skeletons;
    if [n] + rest in SkeletonsBelow(node, s, node.nodes.Keys) {
      var m, p :| m in node.nodes && p in Skeletons(node.nodes[m], Lookup(s, m)) && [m] + p == [n] + rest;
      assert ([m] + p)[0] == m && ([m] + p)[1..] == p && ([n] + rest)[1..] == rest;
    }
  }

  /** Everything the walk can refuse, input-output failures aside: a partition root that would
      have to become a skeleton. */
  predicate Mountable(node: Node, s: Option<Stock>, hasTmpfs: bool) {
    match node
    case Leaf(_, _) => true
    case Tree(_, backed, _, _, nodes) =>
      var tmpfs := hasTmpfs || Skeleton(node, s);
      && (tmpfs && !hasTmpfs ==> backed)
      && (tmpfs ==> backed || IsDir(s))
      && forall n :: n in nodes ==> Mountable(nodes[n], Lookup(s, n), tmpfs)
  }

  // ---- the walk --------------------------------------------------------------------------

  /** Place one node: into a skeleton under construction, or onto the stock entry at its path.
      `visible` is what a reader then sees there, `made` where skeletons were moved over stock. */
  method DoMount(node: Node, s: Option<Stock>, hasTmpfs: bool)
    returns (ok: bool, visible: Option<Tree>, made: set<Path>)
    requires hasTmpfs || !Needs(node, s)
    requires WellFormed(node)
    ensures ok <==> Mountable(node, s, hasTmpfs)
    ensures ok ==> visible == BuiltView(node, s) && made == if hasTmpfs then {} else Skeletons(node, s)
    decreases node, 3
  {
    match node
    case Leaf(Symlink(t), _) =>
      return true, Some(TLink(t)), {};
    case Leaf(Regular(c), _) =>
      return true, Some(TFile(c)), {};
    case Leaf(_, _) =>
      // Absence in a skeleton hides the original; outside one there is nothing to hide.
      return true, None, {};
    case Tree(_, _, _, _, _) =>
      ok, visible, made := DoDirectory(node, s, hasTmpfs);
  }

  /** Leaves hold no directories, and a partition root is never marked replace: collecting the
      modules refuses one that is. */
  predicate WellFormed(node: Node) {
    match node
    case Leaf(e, _) => !e.Directory?
    case Tree(replace, backed, _, _, nodes) => (replace ==> backed) && forall n :: n in nodes ==> WellFormed(nodes[n])
  }

  /** Scan the direct children for one that the directory cannot take without a skeleton. */
  method ChildNeeds(node: Node, s: Option<Stock>) returns (need: bool)
    requires node.Tree?
    ensures need <==> exists n :: n in node.nodes && Needs(node.nodes[n], Lookup(s, n))
  {
    var unread := node.nodes.Keys;
    while unread != {}
      invariant unread <= node.nodes.Keys
      invariant forall n :: n in node.nodes && n !in unread ==> !Needs(node.nodes[n], Lookup(s, n))
      decreases unread
    {
      var name :| name in unread;
      if Needs(node.nodes[name], Lookup(s, name)) {
        return true;
      }
      unread := unread - {name};
    }
    return false;
  }

  /** A directory becomes a skeleton only when it is opaque or a direct child requires it. */
  method DoDirectory(node: Node, s: Option<Stock>, hasTmpfs: bool)
    returns (ok: bool, visible: Option<Tree>, made: set<Path>)
    requires node.Tree? && WellFormed(node)
    requires hasTmpfs || IsDir(s)
    ensures ok <==> Mountable(node, s, hasTmpfs)
    ensures ok ==> visible == BuiltView(node, s) && made == if hasTmpfs then {} else Skeletons(node, s)
    ensures ok ==> ([] in made <==> !hasTmpfs && Skeleton(node, s))
    decreases node, 2
  {
    hide BuiltView, Mirror, Needs, Overlay, SkeletonsBelow;
    var tmpfs := !hasTmpfs && node.replace && node.backed;
    if !hasTmpfs && !tmpfs {
      var need := ChildNeeds(node, s);
      if need && !node.backed {
        return false, None, {};
      }
      tmpfs := need;
    }
    var nowTmpfs := tmpfs || hasTmpfs;
    if nowTmpfs && !IsDir(s) && !node.backed {
      return false, None, {};
    }
    var placed, entries, below := PlaceChildren(node, s, nowTmpfs);
    BuiltDirectory(node, s);
    assert [] !in SkeletonsBelow(node, s, node.nodes.Keys) by { NotBelowItself(node, s); }
    return placed, if placed then Some(TDir(entries)) else None, if tmpfs then {[]} + below else below;
  }

  lemma NotBelowItself(node: Node, s: Option<Stock>)
    requires node.Tree?
    ensures [] !in SkeletonsBelow(node, s, node.nodes.Keys)
  {
    hide Skeletons;
  }

  /** Mirror stock into a skeleton, and place every child over or beside it. */
  method PlaceChildren(node: Node, s: Option<Stock>, nowTmpfs: bool)
    returns (ok: bool, entries: map<Name, Tree>, made: set<Path>)
    requires node.Tree? && WellFormed(node)
    requires nowTmpfs || (IsDir(s) && !node.replace)
    requires !nowTmpfs ==> forall n :: n in node.nodes ==> !Needs(node.nodes[n], Lookup(s, n))
    ensures ok <==> forall n :: n in node.nodes ==> Mountable(node.nodes[n], Lookup(s, n), nowTmpfs)
    ensures ok ==> entries == Overlay(Base(node, s), BuiltViews(node, s))
    ensures ok ==> made == if nowTmpfs then {} else SkeletonsBelow(node, s, node.nodes.Keys)
    decreases node, 1
  {
    hide BuiltView, Mirror, Mountable, Needs, Overlay, Skeletons, SkeletonsBelow;
    made := {};
    // Entries already visible at the path, or the empty skeleton.
    entries := if nowTmpfs then map[] else MirrorAll(s.value);
    var left := node.nodes.Keys;
    ghost var base, views := Base(node, s), BuiltViews(node, s);
    ghost var seenViews: map<Name, Option<Tree>> := map[];
    BaseEntries(node, s);
    OverlayNothing(base);
    if nowTmpfs && IsDir(s) && !node.replace {
      ok, entries, left, seenViews := MirrorStock(node, s);
      if !ok {
        return;
      }
    }
    NothingPlaced(node, s);
    while left != {}
      invariant left <= node.nodes.Keys
      invariant forall n :: n in node.nodes && n !in left ==> Mountable(node.nodes[n], Lookup(s, n), nowTmpfs)
      invariant entries == Overlay(base, seenViews)
      invariant made == if nowTmpfs then {} else SkeletonsBelow(node, s, node.nodes.Keys - left)
      invariant seenViews.Keys == node.nodes.Keys - left && forall n :: n in seenViews ==> seenViews[n] == views[n]
      decreases left
    {
      var name :| name in left;
      var placed, seen, paths := DoMount(node.nodes[name], Lookup(s, name), nowTmpfs);
      if !placed {
        return false, entries, {};
      }
      SkeletonsMore(node, s, node.nodes.Keys - left, name);
      assert node.nodes.Keys - left + {name} == node.nodes.Keys - (left - {name});
      left := left - {name};
      made := made + Within(name, paths);
      OverlayOne(base, seenViews, name, seen);
      entries := Put(entries, name, seen);
      seenViews := seenViews[name := seen];
    }
    assert seenViews == views && node.nodes.Keys - left == node.nodes.Keys;
    ok := true;
  }

  /** Every stock entry into a skeleton, unless a child takes its place; `left` are the children beside them. */
  method MirrorStock(node: Node, s: Option<Stock>)
    returns (ok: bool, entries: map<Name, Tree>, left: set<Name>, ghost seenViews: map<Name, Option<Tree>>)
    requires node.Tree? && WellFormed(node) && IsDir(s) && !node.replace
    ensures left <= node.nodes.Keys
    ensures ok ==> forall n :: n in node.nodes && n !in left ==> Mountable(node.nodes[n], Lookup(s, n), true)
    ensures !ok ==> exists n :: n in node.nodes && !Mountable(node.nodes[n], Lookup(s, n), true)
    ensures ok ==> entries == Overlay(Base(node, s), seenViews)
    ensures ok ==> seenViews.Keys == node.nodes.Keys - left && forall n :: n in seenViews ==>
            seenViews[n] == BuiltViews(node, s)[n]
    decreases node, 0
  {
    hide BuiltView, Mirror, Mountable, Needs, Overlay;
    ok, entries, left, seenViews := true, map[], node.nodes.Keys, map[];
    ghost var base, views := Base(node, s), BuiltViews(node, s);
    ghost var shown: map<Name, Tree> := map[];
    BaseEntries(node, s);
    OverlayNothing(shown);
    var unread := s.value.children.Keys;
    while unread != {}
      invariant unread <= s.value.children.Keys && left == node.nodes.Keys - (s.value.children.Keys - unread)
      invariant forall n :: n in node.nodes && n !in left ==> Mountable(node.nodes[n], Lookup(s, n), true)
      invariant entries == Overlay(shown, seenViews)
      invariant shown.Keys == s.value.children.Keys - unread && forall n :: n in shown ==> shown[n] == base[n]
      invariant seenViews.Keys == node.nodes.Keys - left && forall n :: n in seenViews ==> seenViews[n] == views[n]
      decreases unread
    {
      var name :| name in unread;
      if name in left {
        var placed, seen, _ := DoMount(node.nodes[name], Lookup(s, name), true);
        if !placed {
          ok := false;
          return;
        }
        left := left - {name};
        OverlayView(shown, seenViews, name, seen, base[name]);
        entries := Put(entries, name, seen);
        seenViews := seenViews[name := seen];
      } else {
        OverlayStock(shown, seenViews, name, base[name]);
        entries := Put(entries, name, Some(Mirror(s.value.children[name])));
      }
      shown := shown[name := base[name]];
      unread := unread - {name};
    }
    assert shown == base;
  }

  lemma NothingPlaced(node: Node, s: Option<Stock>)
    requires node.Tree?
    ensures SkeletonsBelow(node, s, {}) == {} && node.nodes.Keys - node.nodes.Keys == {}
    ensures forall n :: Within(n, {}) == {}
  {}

  function Put(entries: map<Name, Tree>, n: Name, t: Option<Tree>): map<Name, Tree> {
    if t.Some? then entries[n := t.value] else entries - {n}
  }

  ghost function BuiltViews(node: Node, s: Option<Stock>): map<Name, Option<Tree>>
    requires node.Tree?
  {
    map n | n in node.nodes :: BuiltView(node.nodes[n], Lookup(s, n))
  }

  lemma {:induction false} BuiltDirectory(node: Node, s: Option<Stock>)
    requires node.Tree?
    ensures BuiltView(node, s) == Some(TDir(Overlay(Base(node, s), BuiltViews(node, s))))
  {}

  lemma {:induction false} BaseEntries(node: Node, s: Option<Stock>)
    requires node.Tree?
    ensures IsDir(s) && !node.replace ==>
              && Base(node, s) == MirrorAll(s.value)
              && Base(node, s).Keys == s.value.children.Keys
              && forall n :: n in s.value.children ==> Base(node, s)[n] == Mirror(s.value.children[n])
    ensures !(IsDir(s) && !node.replace) ==> Base(node, s) == map[]
  {}

  lemma {:induction false} OverlayNothing(base: map<Name, Tree>)
    ensures Overlay(base, map[]) == base
  {}

  lemma {:induction false} OverlayOne(base: map<Name, Tree>, views: map<Name, Option<Tree>>, n: Name, t: Option<Tree>)
    ensures Put(Overlay(base, views), n, t) == Overlay(base, views[n := t])
  {}

  lemma {:induction false} OverlayView(base: map<Name, Tree>, views: map<Name, Option<Tree>>, n: Name, t: Option<Tree>,
          hidden: Tree)
    ensures Put(Overlay(base, views), n, t) == Overlay(base[n := hidden], views[n := t])
  {}

  lemma {:induction false} OverlayStock(base: map<Name, Tree>, views: map<Name, Option<Tree>>, n: Name, t: Tree)
    requires n !in views
    ensures Put(Overlay(base, views), n, Some(t)) == Overlay(base[n := t], views)
  {}

  // ---- built against union ---------------------------------------------------------------

  /** Stock at this path has no influence on what is built here: wherever the walk would mirror a
      stock directory, every entry of it is overridden by a child of the same name. */
  predicate Inert(node: Node, s: Option<Stock>) {
    match node
    case Leaf(_, _) => true
    case Tree(_, _, _, _, nodes) =>
      && (IsDir(s) && !node.replace ==> s.value.children.Keys <= nodes.Keys)
      && forall n :: n in nodes ==> Inert(nodes[n], Lookup(s, n))
  }

  /** Below a node that hides stock (an opaque directory, or a directory over a link) nothing that
      stock has at the same paths can show through. */
  predicate NoLeak(node: Node, s: Option<Stock>) {
    match node
    case Leaf(_, _) => true
    case Tree(_, _, _, _, nodes) =>
      forall n :: n in nodes ==>
        if IsDir(s) && !node.replace then NoLeak(nodes[n], Lookup(s, n)) else Inert(nodes[n], Lookup(s, n))
  }

  ghost function UnionViews(node: Node, s: Option<Stock>): map<Name, Option<Tree>>
    requires node.Tree?
  {
    map n | n in node.nodes :: UnionView(node.nodes[n], Under(node, s, n))
  }

  lemma {:induction false} UnionDirectory(node: Node, s: Option<Stock>)
    requires node.Tree?
    ensures UnionView(node, s) == Some(TDir(Overlay(Base(node, s), UnionViews(node, s))))
  {}

  /** Overlays of the same names are equal exactly when the views are, once stray base entries agree. */
  lemma {:induction false} OverlayEqual(base: map<Name, Tree>, other: map<Name, Tree>, v: map<Name, Option<Tree>>,
          w: map<Name, Option<Tree>>)
    requires v.Keys == w.Keys
    requires base == other || other == map[]
    ensures Overlay(base, v) == Overlay(other, w) <==> v == w && (base == other || base.Keys <= v.Keys)
  {
    var a, b := Overlay(base, v), Overlay(other, w);
    if base != other && !(base.Keys <= v.Keys) {
      var n :| n in base && n !in v;
      assert n in a && n !in b;
    }
    if a == b {
      forall n | n in v
        ensures v[n] == w[n]
      {
        assert n in a <==> v[n].Some?;
        assert n in b <==> w[n].Some?;
      }
    }
  }

  lemma {:induction false} InertExact(node: Node, s: Option<Stock>)
    ensures BuiltView(node, s) == UnionView(node, None) <==> Inert(node, s)
  {
    if node.Tree? {
      hide BuiltView, UnionView, Overlay, Base, Inert;
      forall n | n in node.nodes
        ensures BuiltView(node.nodes[n], Lookup(s, n)) == UnionView(node.nodes[n], None) <==>
                Inert(node.nodes[n], Lookup(s, n))
      {
        InertExact(node.nodes[n], Lookup(s, n));
      }
      DirectoriesEqual(node, s, None);
      InertDirectory(node, s);
    }
  }

  lemma {:induction false} InertDirectory(node: Node, s: Option<Stock>)
    requires node.Tree?
    ensures Inert(node, s) <==>
              && (IsDir(s) && !node.replace ==> s.value.children.Keys <= node.nodes.Keys)
              && forall n :: n in node.nodes ==> Inert(node.nodes[n], Lookup(s, n))
  {}

  /** A built directory equals a union directory when the children do and no stray entry is mirrored. */
  lemma {:induction false} DirectoriesEqual(node: Node, s: Option<Stock>, t: Option<Stock>)
    requires node.Tree? && (s == t || t == None)
    ensures BuiltView(node, s) == UnionView(node, t) <==>
              && (s != t && IsDir(s) && !node.replace ==> s.value.children.Keys <= node.nodes.Keys)
              && forall n :: n in node.nodes ==>
                 BuiltView(node.nodes[n], Lookup(s, n)) == UnionView(node.nodes[n], Under(node, t, n))
  {
    BuiltDirectory(node, s);
    UnionDirectory(node, t);
    BaseEntries(node, s);
    BaseEntries(node, t);
    hide BuiltView, UnionView, Overlay, Base;
    OverlayEqual(Base(node, s), Base(node, t), BuiltViews(node, s), UnionViews(node, t));
    ViewsEqual(node, s, t);
  }

  lemma {:induction false} ViewsEqual(node: Node, s: Option<Stock>, t: Option<Stock>)
    requires node.Tree?
    ensures BuiltViews(node, s) == UnionViews(node, t) <==>
              forall n :: n in node.nodes ==>
                  BuiltView(node.nodes[n], Lookup(s, n)) == UnionView(node.nodes[n], Under(node, t, n))
  {
    hide BuiltView, UnionView;
    var v, w := BuiltViews(node, s), UnionViews(node, t);
    if v == w {
      forall n | n in node.nodes
        ensures BuiltView(node.nodes[n], Lookup(s, n)) == UnionView(node.nodes[n], Under(node, t, n))
      {
        assert v[n] == w[n];
      }
    }
  }

  /** The walk shows the union view exactly when nothing leaks. */
  lemma {:induction false} UnionExact(node: Node, s: Option<Stock>)
    ensures BuiltView(node, s) == UnionView(node, s) <==> NoLeak(node, s)
  {
    if node.Tree? {
      hide BuiltView, UnionView, Overlay, Base, Inert, NoLeak;
      forall n | n in node.nodes
        ensures BuiltView(node.nodes[n], Lookup(s, n)) == UnionView(node.nodes[n], Under(node, s, n))
           <==> if IsDir(s) && !node.replace then NoLeak(node.nodes[n], Lookup(s, n))
               else Inert(node.nodes[n], Lookup(s, n))
      {
        if IsDir(s) && !node.replace {
          UnionExact(node.nodes[n], Lookup(s, n));
        } else {
          InertExact(node.nodes[n], Lookup(s, n));
        }
      }
      DirectoriesEqual(node, s, s);
      LeakDirectory(node, s);
    }
  }

  lemma {:induction false} LeakDirectory(node: Node, s: Option<Stock>)
    requires node.Tree?
    ensures NoLeak(node, s) <==>
              forall n :: n in node.nodes ==>
                if IsDir(s) && !node.replace then NoLeak(node.nodes[n], Lookup(s, n))
                    else Inert(node.nodes[n], Lookup(s, n))
  {}

  /** Mounting the whole tree over the stock root: success leaves exactly the built tree visible,
      and that is the union view if and only if nothing leaks. */
  method MountRoot(root: Node, stock: Stock) returns (ok: bool, visible: Option<Tree>, made: set<Path>)
    requires root.Tree? && WellFormed(root) && stock.Dir?
    ensures ok <==> Mountable(root, Some(stock), false)
    ensures ok ==> visible == BuiltView(root, Some(stock)) && made == Skeletons(root, Some(stock))
    ensures ok ==> (visible == UnionView(root, Some(stock)) <==> NoLeak(root, Some(stock)))
  {
    ok, visible, made := DoMount(root, Some(stock), false);
    UnionExact(root, Some(stock));
  }

  /** Without opaque directories, and with no directory laid over a link, the union view is shown. */
  predicate Plain(node: Node, s: Option<Stock>) {
    match node
    case Leaf(_, _) => true
    case Tree(replace, _, _, _, nodes) =>
      && !replace && !(s.Some? && s.value.Link?)
      && forall n :: n in nodes ==> Plain(nodes[n], Lookup(s, n))
  }

  lemma {:induction false} PlainShowsUnion(node: Node, s: Option<Stock>)
    requires Plain(node, s)
    ensures BuiltView(node, s) == UnionView(node, s)
  {
    PlainNoLeak(node, s);
    UnionExact(node, s);
  }

  lemma {:induction false} PlainNoLeak(node: Node, s: Option<Stock>)
    requires Plain(node, s)
    ensures NoLeak(node, s)
  {
    if node.Tree? {
      forall n | n in node.nodes
        ensures if IsDir(s) then NoLeak(node.nodes[n], Lookup(s, n)) else Inert(node.nodes[n], Lookup(s, n))
      {
        if IsDir(s) {
          PlainNoLeak(node.nodes[n], Lookup(s, n));
        } else {
          AbsentInert(node.nodes[n]);
        }
      }
    }
  }

  lemma {:induction false} AbsentInert(node: Node)
    ensures Inert(node, None)
  {
    if node.Tree? {
      forall n | n in node.nodes
        ensures Inert(node.nodes[n], None)
      {
        AbsentInert(node.nodes[n]);
      }
    }
  }

  /** An opaque directory with a subdirectory that stock also has: the stock file inside shows
      through, although the opaque directory should hide it. */
  lemma {:induction false} OpaqueLeaks()
    ensures var sub := Tree(false, true, 0, [0], map[]);
            var node := Tree(true, true, 0, [0], map["sub" := sub]);
            var stock := Dir(map["sub" := Dir(map["old" := File("stock")])]);
            && WellFormed(node) && Mountable(node, Some(stock), false)
            && BuiltView(node, Some(stock)) == Some(TDir(map["sub" := TDir(map["old" := TFile("stock")])]))
            && UnionView(node, Some(stock)) == Some(TDir(map["sub" := TDir(map[])]))
  {
    var sub := Tree(false, true, 0, [0], map[]);
    var node := Tree(true, true, 0, [0], map["sub" := sub]);
    var inner := Dir(map["old" := File("stock")]);
    var stock := Dir(map["sub" := inner]);
    hide BuiltView, UnionView, Mountable, WellFormed;
    OpaqueMounts(sub, node, inner);
    EmptySubdirectory(sub, inner);
    OpaqueViews(sub, node, inner);
  }

  /** An opaque directory with one child shows that child alone, built over stock. */
  lemma OpaqueViews(sub: Node, node: Node, inner: Stock)
    requires node == Tree(true, true, 0, [0], map["sub" := sub]) && inner.Dir?
    requires BuiltView(sub, Some(inner)).Some? && UnionView(sub, None).Some?
    ensures var s := Some(Dir(map["sub" := inner]));
            && BuiltView(node, s) == Some(TDir(map["sub" := BuiltView(sub, Some(inner)).value]))
            && UnionView(node, s) == Some(TDir(map["sub" := UnionView(sub, None).value]))
  {
    hide BuiltView, UnionView, Overlay;
    var s := Some(Dir(map["sub" := inner]));
    BuiltDirectory(node, s);
    UnionDirectory(node, s);
    OneEntry("sub", BuiltView(sub, Some(inner)).value);
    OneEntry("sub", UnionView(sub, None).value);
    assert BuiltViews(node, s) == map["sub" := BuiltView(sub, Some(inner))];
    assert UnionViews(node, s) == map["sub" := UnionView(sub, None)];
  }

  lemma OpaqueMounts(sub: Node, node: Node, inner: Stock)
    requires sub == Tree(false, true, 0, [0], map[]) && inner.Dir?
    requires node == Tree(true, true, 0, [0], map["sub" := sub])
    ensures WellFormed(node) && Mountable(node, Some(Dir(map["sub" := inner])), false)
  {
    assert WellFormed(sub) && Mountable(sub, Some(inner), true);
  }

  /** The same below a directory laid over a link: the walk asks stock by path, through the link, and shows
    * what it finds there below a subdirectory of the same name. */
  lemma {:induction false} LinkLeaks()
    ensures var sub := Tree(false, true, 0, [0], map[]);
            var node := Tree(false, true, 0, [0], map["sub" := sub]);
            var stock := Link("/other", map["sub" := Dir(map["old" := File("stock")])]);
            && BuiltView(node, Some(stock)) == Some(TDir(map["sub" := TDir(map["old" := TFile("stock")])]))
            && UnionView(node, Some(stock)) == Some(TDir(map["sub" := TDir(map[])]))
  {
    var sub := Tree(false, true, 0, [0], map[]);
    var node := Tree(false, true, 0, [0], map["sub" := sub]);
    var inner := Dir(map["old" := File("stock")]);
    hide BuiltView, UnionView;
    EmptySubdirectory(sub, inner);
    LinkViews(sub, node, inner);
  }

  lemma LinkViews(sub: Node, node: Node, inner: Stock)
    requires node == Tree(false, true, 0, [0], map["sub" := sub])
    requires BuiltView(sub, Some(inner)).Some? && UnionView(sub, None).Some?
    ensures var s := Some(Link("/other", map["sub" := inner]));
            && BuiltView(node, s) == Some(TDir(map["sub" := BuiltView(sub, Some(inner)).value]))
            && UnionView(node, s) == Some(TDir(map["sub" := UnionView(sub, None).value]))
  {
    hide BuiltView, UnionView, Overlay;
    var s := Some(Link("/other", map["sub" := inner]));
    BuiltDirectory(node, s);
    UnionDirectory(node, s);
    OneEntry("sub", BuiltView(sub, Some(inner)).value);
    OneEntry("sub", UnionView(sub, None).value);
    assert BuiltViews(node, s) == map["sub" := BuiltView(sub, Some(inner))];
    assert UnionViews(node, s) == map["sub" := UnionView(sub, None)];
  }

  lemma OneEntry(n: Name, t: Tree)
    ensures Overlay(map[], map[n := Some(t)]) == map[n := t]
  {}

  lemma {:induction false} EmptySubdirectory(sub: Node, inner: Stock)
    requires sub == Tree(false, true, 0, [0], map[]) && inner == Dir(map["old" := File("stock")])
    ensures BuiltView(sub, Some(inner)) == Some(TDir(map["old" := TFile("stock")]))
    ensures UnionView(sub, None) == Some(TDir(map[]))
  {
    BuiltDirectory(sub, Some(inner));
    UnionDirectory(sub, None);
    assert MirrorAll(inner) == map["old" := TFile("stock")];
    OverlayNothing(MirrorAll(inner));
    OverlayNothing(map[]);
    assert BuiltViews(sub, Some(inner)) == map[] && UnionViews(sub, None) == map[];
  }

  // ---- merged trees are well formed ------------------------------------------------------

  /** Every directory has a module directory behind it. */
  predicate Collected(node: Node) {
    match node
    case Leaf(e, _) => !e.Directory?
    case Tree(_, backed, _, _, nodes) => backed && forall n :: n in nodes ==> Collected(nodes[n])
  }

  lemma {:induction false} CollectedWellFormed(node: Node)
    requires Collected(node)
    ensures WellFormed(node)
  {
    if node.Tree? {
      forall n | n in node.nodes
        ensures WellFormed(node.nodes[n])
      {
        CollectedWellFormed(node.nodes[n]);
      }
    }
  }

  lemma {:induction false} FreshCollected(e: Entry, i: nat)
    ensures Collected(Fresh(e, i))
    decreases e, 1
  {
    if e.Directory? {
      MergeCollected(map[], e, i);
    }
  }

  lemma {:induction false} IntoCollected(node: Node, e: Entry, i: nat)
    requires Collected(node)
    ensures Collected(Into(node, e, i))
    decreases e, 1
  {
    if node.Tree? && !node.replace && e.Directory? {
      MergeCollected(node.nodes, e, i);
    }
  }

  lemma {:induction false} MergeCollected(nodes: map<Name, Node>, e: Entry, i: nat)
    requires e.Directory? && forall n :: n in nodes ==> Collected(nodes[n])
    ensures forall n :: n in Merge(nodes, e, i) ==> Collected(Merge(nodes, e, i)[n])
    decreases e, 0
  {
    forall n | n in Merge(nodes, e, i)
      ensures Collected(Merge(nodes, e, i)[n])
    {
      if n in e.children {
        if n in nodes {
          IntoCollected(nodes[n], e.children[n], i);
        } else {
          FreshCollected(e.children[n], i);
        }
      }
    }
  }

  /** The tree folded from any layers, with an unmarked root cleared of its module path, can be walked. */
  lemma {:induction false} MergedWalkable(layers: seq<Option<Entry>>)
    ensures Merged(layers).Some? ==> Collected(Merged(layers).value)
    ensures Merged(layers).Some? && Merged(layers).value.Tree? && !Merged(layers).value.replace
            ==> WellFormed(Merged(layers).value.(backed := false))
  {
    if layers != [] {
      var last := |layers| - 1;
      MergedWalkable(layers[..last]);
      if layers[last].Some? {
        if Merged(layers[..last]).Some? {
          IntoCollected(Merged(layers[..last]).value, layers[last].value, last);
        } else {
          FreshCollected(layers[last].value, last);
        }
      }
      if Merged(layers).Some? {
        CollectedWellFormed(Merged(layers).value);
      }
    }
  }
}
