/** What a mounted module tree shows at each path, in terms of the module layers and stock. */
module MountVisible {
  import opened Options
  import opened LayerMerge
  import opened MagicMount

  function Entry(t: Option<Tree>, n: Name): Option<Tree> {
    if t.Some? && t.value.TDir? && n in t.value.entries then Some(t.value.entries[n]) else None
  }

  /** What a reader finds at a path. */
  function TreeAt(t: Option<Tree>, path: Path): Option<Tree>
    decreases |path|
  {
    if path == [] then t else TreeAt(Entry(t, path[0]), path[1..])
  }

  function Stocked(s: Option<Stock>): Option<Tree> {
    if s.Some? then Some(Mirror(s.value)) else None
  }

  /** A leaf is found as it is, a directory as some directory. */
  predicate Found(t: Option<Tree>, e: LayerMerge.Entry) {
    match e
    case Regular(c) => t == Some(TFile(c))
    case Symlink(target) => t == Some(TLink(target))
    case Whiteout => t == None
    case Directory(_, _) => t.Some? && t.value.TDir?
  }

  /** At a path: the first layer's entry; without one, stock, unless a layer cuts it off. */
  predicate ShownAt(t: Option<Tree>, layers: seq<Option<LayerMerge.Entry>>, stock: Stock, path: Path) {
    var winner := Winner(layers, path);
    if winner.Some? then Found(TreeAt(t, path), winner.value.0)
    else TreeAt(t, path) == if Selected(layers, path).1 then None else TreeAt(Some(Mirror(stock)), path)
  }

  // ---- the union view path by path -------------------------------------------------------

  function ViewOf(node: Option<Node>, s: Option<Stock>): Option<Tree> {
    if node.Some? then UnionView(node.value, s) else Stocked(s)
  }

  predicate NodeFound(t: Option<Tree>, node: Option<Node>, path: Path, s: Option<Stock>) {
    match NodeAt(node, path)
    case Some(Leaf(e, _)) => Found(TreeAt(t, path), e)
    case Some(Tree(_, _, _, _, _)) => TreeAt(t, path).Some? && TreeAt(t, path).value.TDir?
    case None => TreeAt(t, path) == if CutOnPath(node, path) then None else TreeAt(Stocked(s), path)
  }

  lemma {:induction false} ViewEntry(node: Node, s: Option<Stock>, n: Name)
    requires node.Tree?
    ensures Entry(UnionView(node, s), n) == ViewOf(Sub(Some(node), n), Under(node, s, n))
  {
    UnionDirectory(node, s);
    BaseEntries(node, s);
    hide UnionView, Mirror;
  }

  lemma StockEntry(s: Option<Stock>, n: Name)
    ensures Entry(Stocked(s), n) == if IsDir(s) then Stocked(Lookup(s, n)) else None
  {
    if IsDir(s) {
      assert Mirror(s.value) == TDir(MirrorAll(s.value));
    }
  }

  /** No tree, nothing at any path. */
  lemma {:induction false} NothingAt(path: Path)
    ensures TreeAt(None, path) == None
  {
    if path != [] {
      NothingAt(path[1..]);
    }
  }

  lemma {:induction false} UnionAt(node: Option<Node>, s: Option<Stock>, path: Path)
    requires node.Some? ==> WellFormed(node.value)
    ensures NodeFound(ViewOf(node, s), node, path, s)
    decreases |path|
  {
    if node.None? {
      NothingBelow(path);
    } else if path == [] {
      if node.value.Tree? {
        UnionDirectory(node.value, s);
      }
    } else {
      var n, rest := path[0], path[1..];
      if node.value.Tree? {
        var below := Under(node.value, s, n);
        ViewEntry(node.value, s, n);
        StockEntry(s, n);
        SubFormed(node.value, n);
        hide UnionView, Mirror, WellFormed;
        UnionAt(Sub(node, n), below, rest);
        NothingAt(rest);
      } else {
        NothingAt(rest);
        NothingBelow(rest);
      }
    }
  }

  lemma SubFormed(node: Node, n: Name)
    requires node.Tree? && WellFormed(node)
    ensures Sub(Some(node), n).Some? ==> WellFormed(Sub(Some(node), n).value)
  {}

  function StockIn(s: Option<Stock>, n: Name): Option<Stock> {
    if s.Some? && s.value.Dir? && n in s.value.children then Some(s.value.children[n]) else None
  }

  /** A stock entry, walking through directories only. */
  function EntryAt(s: Option<Stock>, path: Path): Option<Stock>
    decreases |path|
  {
    if path == [] then s else EntryAt(StockIn(s, path[0]), path[1..])
  }

  /** Untouched stock is shown as it is: contents, link targets, and the entries of directories. */
  lemma {:induction false} StockShown(s: Option<Stock>, path: Path)
    ensures match EntryAt(s, path)
            case None => TreeAt(Stocked(s), path) == None
            case Some(File(content)) => TreeAt(Stocked(s), path) == Some(TFile(content))
            case Some(Link(target, _)) => TreeAt(Stocked(s), path) == Some(TLink(target))
            case Some(Dir(_)) => TreeAt(Stocked(s), path).Some? && TreeAt(Stocked(s), path).value.TDir?
    decreases |path|
  {
    if path != [] {
      StockEntry(s, path[0]);
      hide Mirror;
      StockShown(StockIn(s, path[0]), path[1..]);
    }
  }

  // ---- trees are what they show ----------------------------------------------------------

  /** Equal as far as one look tells: both absent, both directories, or the same leaf. */
  predicate Alike(a: Option<Tree>, b: Option<Tree>) {
    if a.Some? && a.value.TDir? then b.Some? && b.value.TDir? else a == b
  }

  lemma {:induction false} AlikeEverywhere(a: Option<Tree>, b: Option<Tree>)
    requires forall path :: Alike(TreeAt(a, path), TreeAt(b, path))
    ensures a == b
  {
    assert Alike(TreeAt(a, []), TreeAt(b, []));
    if a.Some? {
      AlikeTree(a.value, b);
    }
  }

  lemma {:induction false} AlikeTree(a: Tree, b: Option<Tree>)
    requires forall path :: Alike(TreeAt(Some(a), path), TreeAt(b, path))
    ensures b == Some(a)
    decreases a
  {
    assert Alike(TreeAt(Some(a), []), TreeAt(b, []));
    if a.TDir? {
      var e, f := a.entries, b.value.entries;
      forall n: Name
        ensures Entry(Some(a), n) == Entry(b, n)
      {
        forall path
          ensures Alike(TreeAt(Entry(Some(a), n), path), TreeAt(Entry(b, n), path))
        {
          assert Alike(TreeAt(Some(a), [n] + path), TreeAt(b, [n] + path));
          assert ([n] + path)[1..] == path;
        }
        if n in e {
          AlikeTree(e[n], Entry(b, n));
        } else {
          assert Alike(TreeAt(Entry(Some(a), n), []), TreeAt(Entry(b, n), []));
        }
      }
      assert forall n :: n in e <==> Entry(Some(a), n).Some?;
      assert forall n :: n in f <==> Entry(b, n).Some?;
      assert forall n :: n in e ==> Entry(Some(a), n) == Some(e[n]) && Entry(b, n) == Some(f[n]);
      assert e == f;
    }
  }

  // ---- layers, mounted -------------------------------------------------------------------

  /** The root that is mounted: the merged tree without a module directory of its own. */
  function MountedRoot(layers: seq<Option<LayerMerge.Entry>>): Node
    requires Merged(layers).Some? && Merged(layers).value.Tree?
  {
    Merged(layers).value.(backed := false)
  }

  lemma RootSees(layers: seq<Option<LayerMerge.Entry>>, path: Path)
    requires Merged(layers).Some? && Merged(layers).value.Tree?
    ensures CutOnPath(Some(MountedRoot(layers)), path) == CutOnPath(Merged(layers), path)
    ensures path != [] ==> NodeAt(Some(MountedRoot(layers)), path) == NodeAt(Merged(layers), path)
  {}

  /** The union view is the first layer's entry, or stock, at every path. */
  lemma UnionShown(layers: seq<Option<LayerMerge.Entry>>, stock: Stock, path: Path)
    requires Merged(layers).Some? && Merged(layers).value.Tree? && !Merged(layers).value.replace
    ensures ShownAt(UnionView(MountedRoot(layers), Some(stock)), layers, stock, path)
  {
    hide UnionView, Merged, Winner, Selected, WellFormed, Mirror;
    var root := MountedRoot(layers);
    MergedWalkable(layers);
    UnionAt(Some(root), Some(stock), path);
    RootSees(layers, path);
    FirstLayerWins(layers, path);
    SelectionAgrees(layers, path);
  }

  /** Showing the right thing at every path leaves no choice of tree. */
  lemma ShownDecides(layers: seq<Option<LayerMerge.Entry>>, stock: Stock, a: Option<Tree>, b: Option<Tree>)
    requires forall path :: ShownAt(a, layers, stock, path)
    requires forall path :: ShownAt(b, layers, stock, path)
    ensures a == b
  {
    hide Winner, Selected, Mirror, TreeAt;
    forall path
      ensures Alike(TreeAt(a, path), TreeAt(b, path))
    {
      assert ShownAt(a, layers, stock, path) && ShownAt(b, layers, stock, path);
    }
    AlikeEverywhere(a, b);
  }

  /** An entry of the first layer that has it can be put on stock without rebuilding the root. */
  predicate EntryFits(stock: Option<Stock>, e: LayerMerge.Entry) {
    match e
    case Regular(_) => IsFile(stock)
    case Symlink(_) => false
    case Whiteout => stock.None?
    case Directory(_, _) => IsDir(stock)
  }

  /** The layers can be mounted if and only if every name they bring to the root fits: files over files,
    * directories over directories, whiteouts of nothing, and no links. */
  lemma LayersMountExactly(layers: seq<Option<LayerMerge.Entry>>, stock: Stock)
    requires Merged(layers).Some? && Merged(layers).value.Tree? && !Merged(layers).value.replace
    ensures Mountable(MountedRoot(layers), Some(stock), false) <==>
            forall n: Name :: Winner(layers, [n]).Some? ==>
              EntryFits(MagicMount.Lookup(Some(stock), n), Winner(layers, [n]).value.0)
  {
    hide Merged, Winner, Mountable;
    var root, s := MountedRoot(layers), Some(stock);
    MergedWalkable(layers);
    RootMountsExactly(root, s);
    forall n: Name
      ensures Winner(layers, [n]).Some? <==> n in root.nodes
      ensures n in root.nodes ==>
                (FitsInPlace(MagicMount.Lookup(s, n), root.nodes[n]) <==>
                 EntryFits(MagicMount.Lookup(s, n), Winner(layers, [n]).value.0))
    {
      FirstLayerWins(layers, [n]);
      assert [n][1..] == [];
      assert NodeAt(Merged(layers), [n]) == Sub(Merged(layers), n);
    }
  }

  /** Mount the merged layers over stock. What is visible is, at every path, the first layer's entry
    * or else stock, if and only if nothing leaks. */
  method MountLayers(layers: seq<Option<LayerMerge.Entry>>, stock: Stock)
    returns (ok: bool, visible: Option<Tree>, made: set<Path>)
    requires Merged(layers).Some? && Merged(layers).value.Tree? && !Merged(layers).value.replace && stock.Dir?
    ensures ok <==> Mountable(MountedRoot(layers), Some(stock), false)
    ensures ok <==> forall n: Name :: Winner(layers, [n]).Some? ==>
              EntryFits(MagicMount.Lookup(Some(stock), n), Winner(layers, [n]).value.0)
    ensures ok ==>
            ((forall path :: ShownAt(visible, layers, stock, path)) <==> NoLeak(MountedRoot(layers), Some(stock)))
    ensures ok ==> made == Skeletons(MountedRoot(layers), Some(stock))
  {
    hide Merged, ShownAt, UnionView, NoLeak, Mountable, Skeletons, Winner;
    MergedWalkable(layers);
    LayersMountExactly(layers, stock);
    ok, visible, made := MountRoot(MountedRoot(layers), stock);
    ghost var union := UnionView(MountedRoot(layers), Some(stock));
    forall path
      ensures ShownAt(union, layers, stock, path)
    {
      UnionShown(layers, stock, path);
    }
    if forall path :: ShownAt(visible, layers, stock, path) {
      ShownDecides(layers, stock, visible, union);
    }
  }
}
