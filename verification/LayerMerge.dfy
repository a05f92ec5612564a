/** Folding module layers into one tree, and the independent layer selection for one directory. */
module LayerMerge {
  import opened Options

  type Name = string
  type Path = seq<Name>

  /** One entry of a module layer; `marked` is the replacement marker of a directory. */
  datatype Entry =
    | Regular(content: string)
    | Symlink(target: string)
    | Whiteout
    | Directory(marked: bool, children: map<Name, Entry>)

  /** A node of the merged tree. `from` lists the layers whose directory was merged here; it is
      bookkeeping of the model, the source keeps only the first owner. */
  datatype Node =
    | Leaf(entry: Entry, layer: nat)
    | Tree(replace: bool, backed: bool, layer: nat, from: seq<nat>, nodes: map<Name, Node>)

  // ---- the fold --------------------------------------------------------------------------

  /** A name seen for the first time. */
  function Fresh(e: Entry, i: nat): Node
    decreases e, 1
  {
    if e.Directory? then Tree(e.marked, true, i, [i], Merge(map[], e, i)) else Leaf(e, i)
  }

  /** A lower layer's entry under a name that already has a node. */
  function Into(node: Node, e: Entry, i: nat): Node
    decreases e, 1
  {
    if node.Leaf? || node.replace then node
    else if e.Directory? then
      node.(replace := e.marked, from := node.from + [i], nodes := Merge(node.nodes, e, i))
    else node.(replace := true)
  }

  /** Every entry of a layer directory into the nodes of the same name. */
  function Merge(nodes: map<Name, Node>, e: Entry, i: nat): map<Name, Node>
    requires e.Directory?
    decreases e, 0
  {
    map n | n in nodes.Keys + e.children.Keys ::
      if n !in e.children then nodes[n]
      else if n in nodes then Into(nodes[n], e.children[n], i)
      else Fresh(e.children[n], i)
  }

  /** One layer into the tree; a missing layer root changes nothing. */
  function AddLayer(node: Option<Node>, e: Option<Entry>, i: nat): Option<Node> {
    match (node, e)
    case (_, None) => node
    case (None, Some(x)) => Some(Fresh(x, i))
    case (Some(n), Some(x)) => Some(Into(n, x, i))
  }

  /** All layers, highest priority first. */
  function Merged(layers: seq<Option<Entry>>): Option<Node> {
    if layers == [] then None
    else AddLayer(Merged(layers[..|layers| - 1]), layers[|layers| - 1], |layers| - 1)
  }

  /** The directory scan: entries arrive in any order, each changes its own name only. */
  method CollectInto(nodes0: map<Name, Node>, e: Entry, i: nat) returns (nodes: map<Name, Node>)
    requires e.Directory?
    ensures nodes == Merge(nodes0, e, i)
    decreases e
  {
    nodes := nodes0;
    var unread := e.children.Keys;
    ghost var goal := Merge(nodes0, e, i);
    while unread != {}
      invariant unread <= e.children.Keys
      invariant nodes.Keys == nodes0.Keys + (e.children.Keys - unread)
      invariant forall n :: n in nodes && (n !in e.children || n in unread) ==> n in nodes0 && nodes[n] == nodes0[n]
      invariant forall n :: n in e.children && n !in unread ==> nodes[n] == goal[n]
      decreases unread
    {
      var name :| name in unread;
      var entry := e.children[name];
      var node;
      if name in nodes {
        node := nodes[name];
        if node.Tree? && !node.replace {
          if !entry.Directory? {
            node := node.(replace := true);
          } else {
            var children := CollectInto(node.nodes, entry, i);
            node := node.(replace := entry.marked, from := node.from + [i], nodes := children);
          }
        }
      } else if entry.Directory? {
        var children := CollectInto(map[], entry, i);
        node := Tree(entry.marked, true, i, [i], children);
      } else {
        node := Leaf(entry, i);
      }
      nodes := nodes[name := node];
      unread := unread - {name};
    }
  }

  // ---- selecting the layers of one directory ---------------------------------------------

  function Child(e: Entry, n: Name): Option<Entry> {
    if e.Directory? && n in e.children then Some(e.children[n]) else None
  }

  /** Walk one layer: is the directory there, and does anything on the way hide lower layers? */
  function Walk(e: Option<Entry>, path: Path): (bool, bool)
    decreases |path|
  {
    if e.None? then (false, false)
    else if !e.value.Directory? then (false, true)
    else if path == [] then (true, e.value.marked)
    else
      var (present, cutoff) := Walk(Child(e.value, path[0]), path[1..]);
      (present, e.value.marked || cutoff)
  }

  /** Layers to stack for a directory, and whether stock stays underneath. */
  method SelectLayers(roots: seq<Option<Entry>>, path: Path) returns (dirs: seq<nat>, includeStock: bool)
    ensures dirs == Selected(roots, path).0 && includeStock == !Selected(roots, path).1
  {
    dirs, includeStock := [], true;
    var r := 0;
    while r < |roots|
      invariant 0 <= r <= |roots|
      invariant includeStock
      invariant Selected(roots[..r], path).0 == dirs && !Selected(roots[..r], path).1
    {
      var present, cutoff := WalkLayer(roots[r], path);
      assert roots[..r + 1][..r] == roots[..r];
      if present {
        dirs := dirs + [r];
      }
      if cutoff {
        includeStock := false;
        SelectedStops(roots, path, r + 1);
        return;
      }
      r := r + 1;
    }
    assert roots[..r] == roots;
  }

  method WalkLayer(root: Option<Entry>, path: Path) returns (present: bool, cutoff: bool)
    ensures (present, cutoff) == Walk(root, path)
  {
    present, cutoff := true, false;
    var at, i := root, 0;
    while true
      invariant 0 <= i <= |path| && present
      invariant var (p, c) := Walk(at, path[i..]); Walk(root, path) == (p, cutoff || c)
      decreases |path| - i
    {
      if at.None? {
        present := false;
        break;
      }
      if !at.value.Directory? {
        cutoff, present := true, false;
        break;
      }
      cutoff := cutoff || at.value.marked;
      if i == |path| {
        break;
      }
      assert path[i..][1..] == path[i + 1..];
      at := Child(at.value, path[i]);
      i := i + 1;
    }
  }

  /** The selection over a prefix of the layers: the directories, and whether a cutoff was met. */
  function Selected(layers: seq<Option<Entry>>, path: Path): (seq<nat>, bool) {
    if layers == [] then ([], false)
    else
      var last := |layers| - 1;
      var (dirs, cut) := Selected(layers[..last], path);
      if cut then (dirs, cut)
      else
        var (present, cutoff) := Walk(layers[last], path);
        (if present then dirs + [last] else dirs, cutoff)
  }

  /** After a cutoff the remaining layers are not looked at. */
  lemma {:induction false} SelectedStops(layers: seq<Option<Entry>>, path: Path, k: nat)
    requires k <= |layers| && Selected(layers[..k], path).1
    ensures Selected(layers, path) == Selected(layers[..k], path)
  {
    if k == |layers| {
      assert layers[..k] == layers;
    } else {
      assert layers[..|layers| - 1][..k] == layers[..k];
      SelectedStops(layers[..|layers| - 1], path, k);
    }
  }

  // ---- agreement -------------------------------------------------------------------------

  function Sub(node: Option<Node>, n: Name): Option<Node> {
    if node.Some? && node.value.Tree? && n in node.value.nodes then Some(node.value.nodes[n]) else None
  }

  function NodeAt(node: Option<Node>, path: Path): Option<Node>
    decreases |path|
  {
    if path == [] then node else NodeAt(Sub(node, path[0]), path[1..])
  }

  /** This node hides whatever lower layers have: it is marked replace, or is no directory. */
  predicate CutHere(node: Option<Node>) {
    node.Some? && (node.value.Leaf? || node.value.replace)
  }

  predicate CutOnPath(node: Option<Node>, path: Path)
    decreases |path|
  {
    CutHere(node) || (path != [] && CutOnPath(Sub(node, path[0]), path[1..]))
  }

  function Contributors(node: Option<Node>, path: Path): seq<nat> {
    var at := NodeAt(node, path);
    if at.Some? && at.value.Tree? then at.value.from else []
  }

  /** Below an uncut node a layer directory is merged name by name. */
  lemma AddLayerBelow(node: Option<Node>, e: Entry, i: nat, n: Name)
    requires e.Directory? && !CutHere(node)
    ensures Sub(AddLayer(node, Some(e), i), n) == AddLayer(Sub(node, n), Child(e, n), i)
  {
    var nodes := if node.Some? then node.value.nodes else map[];
    var after := AddLayer(node, Some(e), i).value;
    assert after.nodes == Merge(nodes, e, i);
    assert n in after.nodes <==> n in nodes || n in e.children;
  }

  lemma {:induction false} NothingBelow(path: Path)
    ensures NodeAt(None, path) == None && At(None, path) == None && !CutOnPath(None, path)
  {
    if path != [] {
      NothingBelow(path[1..]);
    }
  }

  /** One more layer changes a directory's contributors and cut-offs exactly as the walk says. */
  lemma {:induction false} LayerStep(node: Option<Node>, e: Option<Entry>, i: nat, path: Path)
    ensures var after := AddLayer(node, e, i);
            var (present, cutoff) := Walk(e, path);
            if CutOnPath(node, path) then
              CutOnPath(after, path) && Contributors(after, path) == Contributors(node, path)
            else
              && CutOnPath(after, path) == cutoff
              && Contributors(after, path) == Contributors(node, path) + (if present then [i] else [])
    decreases |path|
  {
    hide Merge;
    if e.Some? && !CutHere(node) {
      if path == [] {
      } else if e.value.Directory? {
        AddLayerBelow(node, e.value, i, path[0]);
        LayerStep(Sub(node, path[0]), Child(e.value, path[0]), i, path[1..]);
      } else if node.None? {
        NothingBelow(path[1..]);
      }
    }
  }

  /** For every directory of the merged tree the selection lists exactly the layers that were
      merged into it, and keeps stock exactly when no node on the path cuts it off. */
  lemma {:induction false} SelectionAgrees(layers: seq<Option<Entry>>, path: Path)
    ensures Selected(layers, path).0 == Contributors(Merged(layers), path)
    ensures Selected(layers, path).1 == CutOnPath(Merged(layers), path)
  {
    hide AddLayer;
    if layers != [] {
      var last := |layers| - 1;
      SelectionAgrees(layers[..last], path);
      LayerStep(Merged(layers[..last]), layers[last], last, path);
      assert Merged(layers) == AddLayer(Merged(layers[..last]), layers[last], last);
    } else {
      NothingBelow(path);
    }
  }

  // ---- first layer wins ------------------------------------------------------------------

  function At(e: Option<Entry>, path: Path): Option<Entry>
    decreases |path|
  {
    if e.None? || path == [] then e else At(Child(e.value, path[0]), path[1..])
  }

  function Tagged(e: Option<Entry>, i: nat): Option<(Entry, nat)> {
    if e.Some? then Some((e.value, i)) else None
  }

  /** The first layer that shows the path, unless an earlier layer hides it. */
  function Winner(layers: seq<Option<Entry>>, path: Path): Option<(Entry, nat)> {
    if layers == [] then None
    else
      var last := |layers| - 1;
      var earlier := Winner(layers[..last], path);
      if earlier.Some? || Selected(layers[..last], path).1 then earlier
      else Tagged(At(layers[last], path), last)
  }

  /** What a node shows: its own entry, or a directory, and the layer it came from. */
  predicate Shows(node: Option<Node>, winner: Option<(Entry, nat)>) {
    match (node, winner)
    case (None, None) => true
    case (Some(Leaf(e, i)), Some((x, j))) => e == x && !x.Directory? && i == j
    case (Some(Tree(_, _, i, _, _)), Some((x, j))) => x.Directory? && i == j
    case _ => false
  }

  lemma {:induction false} ShowsStep(node: Option<Node>, e: Option<Entry>, i: nat, path: Path,
          winner: Option<(Entry, nat)>)
    requires Shows(NodeAt(node, path), winner)
    ensures Shows(NodeAt(AddLayer(node, e, i), path),
                  if winner.Some? || CutOnPath(node, path) then winner else Tagged(At(e, path), i))
    decreases |path|
  {
    hide Merge;
    if e.None? {
      NothingBelow(path);
    } else if !CutHere(node) {
      if path == [] {
      } else if e.value.Directory? {
        AddLayerBelow(node, e.value, i, path[0]);
        ShowsStep(Sub(node, path[0]), Child(e.value, path[0]), i, path[1..], winner);
      } else {
        NothingBelow(path[1..]);
      }
    }
  }

  /** At every path the merged tree shows the first layer that has it, with opaque directories
      and non-directories cutting off everything below. */
  lemma {:induction false} FirstLayerWins(layers: seq<Option<Entry>>, path: Path)
    ensures Shows(NodeAt(Merged(layers), path), Winner(layers, path))
  {
    hide AddLayer;
    if layers != [] {
      var last := |layers| - 1;
      FirstLayerWins(layers[..last], path);
      SelectionAgrees(layers[..last], path);
      ShowsStep(Merged(layers[..last]), layers[last], last, path, Winner(layers[..last], path));
    } else {
      NothingBelow(path);
    }
  }
}
