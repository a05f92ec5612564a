/** Values as flat nodes and edges, and the sorting of an object's edges. */
module JsonTree {
  import opened Ordering
  import opened JsonGrammar
  import opened JsonCursor

  datatype Type = NullType | BoolType | NumberType | StringType | ArrayType | ObjectType

  datatype Node = Node(key: View, kind: Type, text: View, bits: nat, flag: bool, children: nat, count: nat, next: nat)

  /** Nodes and edges in use, and the text read so far with its decoded strings. */
  datatype Snapshot = Snapshot(nodes: seq<Node>, edges: seq<nat>, bytes: string)

  function Child(s: Snapshot, i: nat, k: nat): nat
    requires i < |s.nodes| && s.nodes[i].children + k < |s.edges|
  {
    s.edges[s.nodes[i].children + k]
  }

  /** Node i has n edges, all to later nodes. */
  predicate HasEdges(s: Snapshot, i: nat, n: nat)
    requires i < |s.nodes|
  {
    && s.nodes[i].count == n && s.nodes[i].children + n <= |s.edges|
    && forall k :: 0 <= k < n ==> i < Child(s, i, k) < |s.nodes|
  }

  /** Node i denotes the value. */
  ghost predicate Holds(s: Snapshot, i: nat, v: Json)
    decreases v
  {
    && i < |s.nodes|
    && match v
       case Null => s.nodes[i].kind == NullType
       case Bool(b) => s.nodes[i].kind == BoolType && s.nodes[i].flag == b
       case Number(bits) => s.nodes[i].kind == NumberType && s.nodes[i].bits == bits
       case String(text) => s.nodes[i].kind == StringType && IsText(s.bytes, s.nodes[i].text, text)
       case Array(items) =>
         s.nodes[i].kind == ArrayType && HasEdges(s, i, |items|)
         && forall k :: 0 <= k < |items| ==> Holds(s, Child(s, i, k), items[k])
       case Object(members) =>
         s.nodes[i].kind == ObjectType && HasEdges(s, i, |members|)
         && forall k :: 0 <= k < |members| ==> HoldsMember(s, Child(s, i, k), members[k])
  }

  ghost predicate HoldsMember(s: Snapshot, c: nat, m: Member<Json>)
    decreases m
  {
    c < |s.nodes| && IsText(s.bytes, s.nodes[c].key, m.key) && Holds(s, c, m.value)
  }

  /** b has what a has, from node first on. */
  ghost predicate Grows(a: Snapshot, b: Snapshot, first: nat) {
    && |a.nodes| <= |b.nodes| && (forall i :: first <= i < |a.nodes| ==> b.nodes[i] == a.nodes[i])
    && a.edges <= b.edges && a.bytes <= b.bytes
  }

  lemma TextStays(a: string, b: string, view: View, text: string)
    requires a <= b && IsText(a, view, text)
    ensures IsText(b, view, text)
  {}

  lemma {:induction false} HoldsStays(a: Snapshot, b: Snapshot, first: nat, i: nat, v: Json)
    requires Grows(a, b, first) && first <= i && Holds(a, i, v)
    ensures Holds(b, i, v)
    decreases v
  {
    hide IsText;
    match v
    case Null => {}
    case Bool(_) => {}
    case Number(_) => {}
    case String(text) => TextStays(a.bytes, b.bytes, a.nodes[i].text, text);
    case Array(items) =>
      forall k | 0 <= k < |items|
        ensures Holds(b, Child(b, i, k), items[k])
      {
        HoldsStays(a, b, first, Child(a, i, k), items[k]);
      }
    case Object(members) =>
      forall k | 0 <= k < |members|
        ensures HoldsMember(b, Child(b, i, k), members[k])
      {
        MemberStays(a, b, first, Child(a, i, k), members[k]);
      }
  }

  lemma {:induction false} MemberStays(a: Snapshot, b: Snapshot, first: nat, c: nat, m: Member<Json>)
    requires Grows(a, b, first) && first <= c && HoldsMember(a, c, m)
    ensures HoldsMember(b, c, m)
    decreases m
  {
    hide IsText;
    TextStays(a.bytes, b.bytes, a.nodes[c].key, m.key);
    HoldsStays(a, b, first, c, m.value);
  }

  /** Where the next sibling is does not change what a node denotes. */
  lemma {:induction false} NextIrrelevant(a: Snapshot, b: Snapshot, i: nat, v: Json, next: nat)
    requires Holds(a, i, v)
    requires b == Snapshot(a.nodes[i := a.nodes[i].(next := next)], a.edges, a.bytes)
    ensures Holds(b, i, v)
  {
    hide IsText;
    match v
    case Array(items) =>
      forall k | 0 <= k < |items|
        ensures Holds(b, Child(b, i, k), items[k])
      {
        HoldsStays(a, b, i + 1, Child(a, i, k), items[k]);
      }
    case Object(members) =>
      forall k | 0 <= k < |members|
        ensures HoldsMember(b, Child(b, i, k), members[k])
      {
        MemberStays(a, b, i + 1, Child(a, i, k), members[k]);
      }
    case _ => {}
  }

  // ---- sorting an object's edges ---------------------------------------------------------

  predicate LinkBefore(a: Member<nat>, b: Member<nat>) {
    Less(a.key, b.key) || (a.key == b.key && a.value < b.value)
  }

  function InsertLink(s: seq<Member<nat>>, e: Member<nat>): (r: seq<Member<nat>>)
    ensures |r| == |s| + 1
  {
    if s == [] || LinkBefore(e, s[0]) then [e] + s else [s[0]] + InsertLink(s[1..], e)
  }

  /** The order std::sort establishes: by key, then by position; nodes differ, so it is unique. */
  function SortLinks(s: seq<Member<nat>>): (r: seq<Member<nat>>)
    ensures |r| == |s|
  {
    if s == [] then [] else InsertLink(SortLinks(s[..|s| - 1]), s[|s| - 1])
  }

  /** The last of every run of equal keys. */
  function KeepLast(s: seq<Member<nat>>): (r: seq<Member<nat>>)
    ensures |r| <= |s|
  {
    if |s| <= 1 then s
    else if s[0].key == s[1].key then KeepLast(s[1..])
    else [s[0]] + KeepLast(s[1..])
  }

  function Zip(keys: seq<string>, nodes: seq<nat>): (r: seq<Member<nat>>)
    requires |keys| == |nodes|
    ensures |r| == |keys|
  {
    seq(|keys|, i requires 0 <= i < |keys| => Member(keys[i], nodes[i]))
  }

  /** Keys do not decrease and all nodes lie below a bound. */
  ghost predicate Ordered(s: seq<Member<nat>>, bound: nat) {
    && (forall i, j :: 0 <= i < j < |s| ==> AtMost(s[i].key, s[j].key))
    && (forall i :: 0 <= i < |s| ==> s[i].value < bound)
  }

  lemma {:induction false} InsertOrdered(s: seq<Member<nat>>, e: Member<nat>, bound: nat)
    requires Ordered(s, e.value) && e.value < bound
    ensures Ordered(InsertLink(s, e), bound)
    ensures forall m :: m in InsertLink(s, e) ==> m == e || m in s
  {
    hide Less;
    if s != [] {
      LessTotal(e.key, s[0].key);
      if LinkBefore(e, s[0]) {
        forall j | 0 < j < |s|
          ensures AtMost(e.key, s[j].key)
        {
          AtMostTransitive(e.key, s[0].key, s[j].key);
        }
      } else {
        InsertOrdered(s[1..], e, bound);
        var r := InsertLink(s[1..], e);
        forall j | 0 <= j < |r|
          ensures AtMost(s[0].key, r[j].key)
        {
          assert r[j] in r;
          if r[j] != e {
            var k :| 0 <= k < |s[1..]| && s[1..][k] == r[j];
            assert s[k + 1] == r[j];
          }
        }
      }
    }
  }

  lemma AtMostTransitive(a: string, b: string, c: string)
    requires AtMost(a, b) && AtMost(b, c)
    ensures AtMost(a, c)
  {
    hide Less;
    if a != b && b != c {
      LessTransitive(a, b, c);
    }
  }

  lemma {:induction false} KeepLastHead(s: seq<Member<nat>>)
    requires s != []
    ensures KeepLast(s) != [] && KeepLast(s)[0].key == s[0].key
  {
    if |s| > 1 && s[0].key == s[1].key {
      KeepLastHead(s[1..]);
    }
  }

  /** Adding a later node and keeping the last is the same as overwriting. */
  lemma {:induction false} KeepLastIsPut(s: seq<Member<nat>>, e: Member<nat>)
    requires Ordered(s, e.value)
    ensures KeepLast(InsertLink(s, e)) == Put(KeepLast(s), e.key, e.value)
  {
    hide Less;
    LessIrreflexive(e.key);
    if s != [] {
      LessTotal(e.key, s[0].key);
      KeepLastHead(s);
      if LinkBefore(e, s[0]) {
        assert ([e] + s)[1..] == s;
      } else {
        var rest := InsertLink(s[1..], e);
        assert ([s[0]] + rest)[1..] == rest;
        KeepLastIsPut(s[1..], e);
        if |s| > 1 {
          KeepLastHead(s[1..]);
          LessTotal(e.key, s[1].key);
          AtMostIsNotAbove(s[0].key, s[1].key);
        }
      }
    }
  }

  lemma AtMostIsNotAbove(a: string, b: string)
    requires AtMost(a, b)
    ensures !Less(b, a)
  {
    hide Less;
    LessIrreflexive(a);
    if Less(b, a) {
      LessTransitive(a, b, a);
    }
  }

  /** Sorting and keeping the last of each key is the map the members build up. */
  lemma {:induction false} SortedIsPutAll(keys: seq<string>, nodes: seq<nat>)
    requires |keys| == |nodes| && forall i, j :: 0 <= i < j < |nodes| ==> nodes[i] < nodes[j]
    ensures KeepLast(SortLinks(Zip(keys, nodes))) == PutAll<nat>(keys, nodes)
    ensures forall bound: nat :: (forall i :: 0 <= i < |nodes| ==> nodes[i] < bound) ==>
            Ordered(SortLinks(Zip(keys, nodes)), bound)
  {
    hide Less, Ordered;
    var n := |keys|;
    if n == 0 {
      forall bound: nat
        ensures Ordered([], bound)
      {
        NothingOrdered(bound);
      }
    } else {
      var ks, ns := keys[..n - 1], nodes[..n - 1];
      SortedIsPutAll(ks, ns);
      assert Zip(keys, nodes)[..n - 1] == Zip(ks, ns);
      var e := Member(keys[n - 1], nodes[n - 1]);
      KeepLastIsPut(SortLinks(Zip(ks, ns)), e);
      forall bound: nat | forall i :: 0 <= i < |nodes| ==> nodes[i] < bound
        ensures Ordered(SortLinks(Zip(keys, nodes)), bound)
      {
        InsertOrdered(SortLinks(Zip(ks, ns)), e, bound);
      }
    }
  }

  lemma NothingOrdered(bound: nat)
    ensures Ordered([], bound)
  {}

  /** The same keys take the same places whatever the values are. */
  ghost predicate Parallel(a: seq<Member<nat>>, b: seq<Member<Json>>, keys: seq<string>, nodes: seq<nat>,
          values: seq<Json>)
  {
    && |a| == |b| && |keys| == |nodes| == |values|
    && forall k :: 0 <= k < |a| ==>
       a[k].key == b[k].key && Paired(a[k].value, b[k].value, a[k].key, keys, nodes, values)
  }

  ghost predicate Paired(n: nat, v: Json, key: string, keys: seq<string>, nodes: seq<nat>, values: seq<Json>)
    requires |keys| == |nodes| == |values|
  {
    exists j :: 0 <= j < |nodes| && keys[j] == key && nodes[j] == n && values[j] == v
  }

  lemma {:induction false} PutParallel(a: seq<Member<nat>>, b: seq<Member<Json>>, keys: seq<string>, nodes: seq<nat>,
          values: seq<Json>, key: string, n: nat, v: Json)
    requires Parallel(a, b, keys, nodes, values) && Paired(n, v, key, keys, nodes, values)
    ensures Parallel(Put(a, key, n), Put(b, key, v), keys, nodes, values)
  {
    hide Less, Paired;
    if a != [] && !Less(key, a[0].key) && key != a[0].key {
      assert Parallel(a[1..], b[1..], keys, nodes, values);
      PutParallel(a[1..], b[1..], keys, nodes, values, key, n, v);
    }
  }

  lemma {:induction false} PutAllParallel(ks: seq<string>, ns: seq<nat>, vs: seq<Json>, keys: seq<string>,
          nodes: seq<nat>, values: seq<Json>)
    requires |keys| == |nodes| == |values| && |ks| == |ns| == |vs|
    requires ks <= keys && ns <= nodes && vs <= values
    ensures Parallel(PutAll<nat>(ks, ns), PutAll<Json>(ks, vs), keys, nodes, values)
    decreases |ks|
  {
    hide Put;
    if ks != [] {
      var n := |ks| - 1;
      PutAllParallel(ks[..n], ns[..n], vs[..n], keys, nodes, values);
      assert keys[n] == ks[n] && nodes[n] == ns[n] && values[n] == vs[n];
      PutParallel(PutAll<nat>(ks[..n], ns[..n]), PutAll<Json>(ks[..n], vs[..n]), keys, nodes, values, ks[n], ns[n],
          vs[n]);
    }
  }

  // ---- a container's children ------------------------------------------------------------

  /** Where the chain leads from the k-th child. */
  function NextRoot(roots: seq<nat>, k: nat, end: nat): nat {
    if k + 1 < |roots| then roots[k + 1] else end
  }

  /** The children read so far of the container at index: their nodes follow one another from
    * index + 1 to the end of what is in use. */
  ghost predicate NodeChain(nodes: seq<Node>, index: nat, roots: seq<nat>) {
    && index < |nodes| && (if roots == [] then |nodes| else roots[0]) == index + 1
    && (forall i, j :: 0 <= i < j < |roots| ==> roots[i] < roots[j])
    && (forall k :: 0 <= k < |roots| ==> index < roots[k] < |nodes|)
    && (forall k :: 0 <= k < |roots| ==> nodes[roots[k]].next == NextRoot(roots, k, |nodes|))
  }

  /** Each child is under its key. */
  ghost predicate KeysAt(nodes: seq<Node>, bytes: string, roots: seq<nat>, keys: seq<string>) {
    && |roots| == |keys|
    && (forall k :: 0 <= k < |roots| ==> roots[k] < |nodes| && IsText(bytes, nodes[roots[k]].key, keys[k]))
  }

  ghost predicate Chain(s: Snapshot, index: nat, roots: seq<nat>, keys: seq<string>) {
    NodeChain(s.nodes, index, roots) && KeysAt(s.nodes, s.bytes, roots, keys)
  }

  ghost predicate Children(s: Snapshot, index: nat, roots: seq<nat>, keys: seq<string>, values: seq<Json>) {
    && Chain(s, index, roots, keys) && |values| == |keys|
    && (forall k :: 0 <= k < |roots| ==> HoldsMember(s, roots[k], Member(keys[k], values[k])))
  }

  /** One more child at the end. */
  lemma {:induction false} ChildrenMore(a: Snapshot, b: Snapshot, index: nat, roots: seq<nat>, keys: seq<string>,
          values: seq<Json>, key: string, value: Json)
    requires Children(a, index, roots, keys, values) && Grows(a, b, index + 1) && |a.nodes| < |b.nodes|
    requires HoldsMember(b, |a.nodes|, Member(key, value)) && b.nodes[|a.nodes|].next == |b.nodes|
    ensures Children(b, index, roots + [|a.nodes|], keys + [key], values + [value])
  {
    var roots', keys', values' := roots + [|a.nodes|], keys + [key], values + [value];
    hide Holds, IsText;
    forall k | 0 <= k < |roots|
      ensures HoldsMember(b, roots'[k], Member(keys'[k], values'[k]))
    {
      MemberStays(a, b, index + 1, roots[k], Member(keys[k], values[k]));
    }
    forall k | 0 <= k < |roots'|
      ensures HoldsMember(b, roots'[k], Member(keys'[k], values'[k]))
    {
      assert k == |roots| ==> roots'[k] == |a.nodes| && keys'[k] == key && values'[k] == value;
    }
    assert Chain(b, index, roots', keys') by {
      forall k | 0 <= k < |roots'|
        ensures b.nodes[roots'[k]].next == NextRoot(roots', k, |b.nodes|)
                && IsText(b.bytes, b.nodes[roots'[k]].key, keys'[k])
      {
        assert HoldsMember(b, roots'[k], Member(keys'[k], values'[k]));
        assert k < |roots| ==> a.nodes[roots[k]].next == NextRoot(roots, k, |a.nodes|);
      }
    }
  }

  /** The edges of a node are these nodes. */
  ghost predicate LinkedTo(s: Snapshot, index: nat, targets: seq<nat>)
    requires index < |s.nodes|
  {
    && s.nodes[index].count == |targets| && s.nodes[index].children + |targets| <= |s.edges|
    && forall k :: 0 <= k < |targets| ==> Child(s, index, k) == targets[k]
  }

  /** Linked to its children in order, a node denotes the array of them. */
  lemma {:induction false} ArrayHolds(a: Snapshot, b: Snapshot, index: nat, roots: seq<nat>, keys: seq<string>,
          values: seq<Json>)
    requires Children(a, index, roots, keys, values) && Grows(a, b, index + 1) && |a.nodes| == |b.nodes|
    requires b.nodes[index].kind == ArrayType && LinkedTo(b, index, roots)
    ensures Holds(b, index, Array(values))
  {
    hide IsText, Grows, NextRoot;
    forall k | 0 <= k < |values|
      ensures Holds(b, Child(b, index, k), values[k])
    {
      MemberStays(a, b, index + 1, roots[k], Member(keys[k], values[k]));
    }
  }

  /** Linked to the last child of each key, in key order, it denotes the object. */
  lemma {:induction false} ObjectHolds(a: Snapshot, b: Snapshot, index: nat, roots: seq<nat>, keys: seq<string>,
          values: seq<Json>)
    requires Children(a, index, roots, keys, values) && Grows(a, b, index + 1) && |a.nodes| == |b.nodes|
    requires b.nodes[index].kind == ObjectType && LinkedTo(b, index, Targets(PutAll<nat>(keys, roots)))
    ensures Holds(b, index, Object(PutAll<Json>(keys, values)))
  {
    hide IsText, PutAll, HoldsMember, Grows, NextRoot;
    var links: seq<Member<nat>>, members := PutAll<nat>(keys, roots), PutAll<Json>(keys, values);
    PutAllParallel(keys, roots, values, keys, roots, values);
    assert Parallel(links, members, keys, roots, values);
    forall k | 0 <= k < |members|
      ensures index < links[k].value < |b.nodes| && HoldsMember(b, links[k].value, members[k])
    {
      assert Paired(links[k].value, members[k].value, links[k].key, keys, roots, values);
      var j :| 0 <= j < |roots| && keys[j] == links[k].key && roots[j] == links[k].value
          && values[j] == members[k].value;
      MemberStays(a, b, index + 1, roots[j], Member(keys[j], values[j]));
    }
    assert forall k :: 0 <= k < |members| ==> Child(b, index, k) == Targets(links)[k] == links[k].value;
  }

  function Targets(links: seq<Member<nat>>): (r: seq<nat>)
    ensures |r| == |links|
  {
    seq(|links|, k requires 0 <= k < |links| => links[k].value)
  }
}
