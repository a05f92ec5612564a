/** Parsing into prepared node and edge arrays, strings decoded inside the input buffer. */
module JsonDocument {
  import opened Options
  import opened JsonGrammar
  import opened JsonLexical
  import opened JsonCursor
  import opened JsonTree

  datatype Error = Fine | Invalid | NoSpace | TooDeep

  const NO_NODE: Node := Node(View(0, 0), NullType, View(0, 0), 0, false, 0, 0, 0)

  class Document {
    const nodes: array<Node>
    const edges: array<nat>
    var used: nat
    var edgesUsed: nat

    ghost predicate Valid()
      reads this
    {
      edges.Length == nodes.Length && edgesUsed <= used <= nodes.Length
    }

    /** What is in use, with the text a cursor has read. */
    ghost function Snap(c: Cursor): Snapshot
      reads this, nodes, edges, c, c.bytes
      requires Valid() && c.Valid()
    {
      Snapshot(nodes[..used], edges[..edgesUsed], c.bytes[..c.position])
    }

    /** Enough nodes are left for every token still unread. */
    ghost predicate Roomy(c: Cursor)
      reads this, c, c.bytes
      requires Valid() && c.Valid()
    {
      used + TokenCount(c.Unread()) <= nodes.Length
    }

    constructor (capacity: nat)
      ensures Valid() && used == 0 && edgesUsed == 0 && nodes.Length == capacity && fresh(nodes) && fresh(edges)
    {
      nodes := new Node[capacity](_ => NO_NODE);
      edges := new nat[capacity](_ => 0);
      used, edgesUsed := 0, 0;
    }

    /** Parse a text whose tokens were counted. Storage never runs out: whatever is accepted and
      * nests at most 128 levels is parsed. */
    method Parse(text: array<char>, read: Reader) returns (ok: bool, error: Error)
      requires Valid() && TokenCount(text[..]) <= nodes.Length
      modifies this, nodes, edges, text
      ensures Valid()
      ensures ok <==> Fits(ParseText(read, old(text[..])), 0)
      ensures ok ==>
              Holds(Snapshot(nodes[..used], edges[..edgesUsed], text[..]), 0,
                  ParseText(read, old(text[..])).value.value)
      ensures !ok && ParseText(read, old(text[..])).Some? ==> error == TooDeep
    {
      hide ParseValue, TokenCount, Holds;
      used, edgesUsed := 0, 0;
      var c := new Cursor(text, true, read);
      assert c.Unread() == text[..];
      ok, error := ParseValueAt(c, View(0, 0), 0);
      if ok {
        ghost var v := ParseValue(read, old(text[..])).value;
        HoldsStays(Snap(c), Snapshot(nodes[..used], edges[..edgesUsed], text[..]), 0, 0, v.value);
        ok := c.End();
        error := Invalid;
      }
    }

    /** A scalar into node index. */
    method ParseScalarAt(c: Cursor, index: nat) returns (ok: bool)
      requires Valid() && c.Valid() && c.decode && index < used
      requires c.Unread() != "" && !IsBlank(c.Unread()[0]) && c.Unread()[0] != '{' && c.Unread()[0] != '['
      requires nodes[index].kind == NullType
      modifies nodes, c, c.bytes
      ensures c.Valid() && c.position >= old(c.position)
              && Same(old(c.bytes[..]), c.bytes[..], old(c.position), c.position)
      ensures ok <==> ParseScalar(c.read, old(c.Unread())).Some?
      ensures forall i :: 0 <= i < nodes.Length && i != index ==> nodes[i] == old(nodes[i])
      ensures nodes[index].key == old(nodes[index].key)
      ensures ok ==> c.Unread() == ParseScalar(c.read, old(c.Unread())).value.rest
      ensures ok ==> Holds(Snap(c), index, ParseScalar(c.read, old(c.Unread())).value.value)
    {
      hide Same, ParseScalar, Holds;
      if c.bytes[c.position] == '"' {
        ok := ParseStringAt(c, index);
      } else {
        ok := ParseWordAt(c, index);
      }
    }

    method ParseStringAt(c: Cursor, index: nat) returns (ok: bool)
      requires c.Valid() && c.Unread() != "" && c.Unread()[0] == '"'
      requires Valid() && c.Valid() && c.decode && index < used
      requires c.Unread() != "" && !IsBlank(c.Unread()[0]) && c.Unread()[0] != '{' && c.Unread()[0] != '['
      requires nodes[index].kind == NullType
      modifies nodes, c, c.bytes
      ensures c.Valid() && c.position >= old(c.position)
              && Same(old(c.bytes[..]), c.bytes[..], old(c.position), c.position)
      ensures ok <==> ParseScalar(c.read, old(c.Unread())).Some?
      ensures forall i :: 0 <= i < nodes.Length && i != index ==> nodes[i] == old(nodes[i])
      ensures nodes[index].key == old(nodes[index].key)
      ensures ok ==> c.Unread() == ParseScalar(c.read, old(c.Unread())).value.rest
      ensures ok ==> Holds(Snap(c), index, ParseScalar(c.read, old(c.Unread())).value.value)
    {
      hide Same, StringBody, NumberAt, NumberRun;
      ghost var s := c.Unread();
      BlankStops(s);
      assert StringToken(s) == StringBody(s[1..]);
      var text;
      ok, text := c.ReadString();
      if ok {
        nodes[index] := nodes[index].(kind := StringType, text := text);
        ViewInPrefix(c.bytes[..], text, c.position, c.position, StringToken(s).value.text);
      }
    }

    method ParseWordAt(c: Cursor, index: nat) returns (ok: bool)
      requires c.Valid() && c.Unread() != "" && c.Unread()[0] != '"'
      requires Valid() && c.Valid() && c.decode && index < used
      requires c.Unread() != "" && !IsBlank(c.Unread()[0]) && c.Unread()[0] != '{' && c.Unread()[0] != '['
      requires nodes[index].kind == NullType
      modifies nodes, c, c.bytes
      ensures c.Valid() && c.position >= old(c.position)
              && Same(old(c.bytes[..]), c.bytes[..], old(c.position), c.position)
      ensures ok <==> ParseScalar(c.read, old(c.Unread())).Some?
      ensures forall i :: 0 <= i < nodes.Length && i != index ==> nodes[i] == old(nodes[i])
      ensures nodes[index].key == old(nodes[index].key)
      ensures ok ==> c.Unread() == ParseScalar(c.read, old(c.Unread())).value.rest
      ensures ok ==> Holds(Snap(c), index, ParseScalar(c.read, old(c.Unread())).value.value)
    {
      hide Same, StringBody, NumberRun, NumberAt;
      SameItself(c.bytes[..], c.position, c.position);
      BlankStops(c.Unread());
      var token := c.bytes[c.position];
      assert c.Unread()[0] == token;
      if StartsNumber(token) {
        var bits;
        ok, bits := c.ReadNumber();
        nodes[index] := nodes[index].(kind := NumberType, bits := bits);
      } else if token == 't' || token == 'f' {
        nodes[index] := nodes[index].(kind := BoolType, flag := token == 't');
        ok := c.ReadLiteral(if token == 't' then "true" else "false");
      } else {
        ok := c.ReadLiteral("null");
      }
      SameItself(c.bytes[..], old(c.position), c.position);
    }

    /** Append an edge to every child of the container at index, following the chain. */
    method Link(index: nat, ghost roots: seq<nat>)
      requires Valid() && index < used && edgesUsed + |roots| <= used
      requires NodeChain(nodes[..used], index, roots)
      modifies this`edgesUsed, edges
      ensures Valid() && edgesUsed == old(edgesUsed) + |roots|
      ensures edges[..edgesUsed] == old(edges[..edgesUsed]) + roots
    {
      var child: nat := index + 1;
      ghost var k: nat := 0;
      while child < used
        invariant k <= |roots| && edgesUsed == old(edgesUsed) + k
        invariant child == (if k < |roots| then roots[k] else used)
        invariant edges[..edgesUsed] == old(edges[..edgesUsed]) + roots[..k]
        decreases |roots| - k
      {
        edges[edgesUsed] := child;
        edgesUsed := edgesUsed + 1;
        child := nodes[child].next;
        k := k + 1;
      }
    }

    /** Sort the edges of an object by key and keep the last node of each key. */
    method Deduplicate(c: Cursor, index: nat, first: nat, count: nat, ghost roots: seq<nat>, ghost keys: seq<string>)
      returns (unique: nat)
      requires Valid() && c.Valid() && |roots| == count && first + count == edgesUsed
               && edges[first..edgesUsed] == roots
      requires NodeChain(nodes[..used], index, roots) && KeysAt(nodes[..used], c.bytes[..c.position], roots, keys)
      modifies edges
      ensures |keys| == count && unique == |PutAll<nat>(keys, roots)| <= count
      ensures edges[first..first + unique] == Targets(PutAll<nat>(keys, roots))
      ensures edges[..first] == old(edges[..first])
    {
      hide IsText, KeepLast, Targets, NextRoot;
      var links := CollectLinks(c, first, count, roots, keys);
      SortedIsPutAll(keys, roots);
      unique := KeepUnique(first, SortLinks(links));
    }

    method CollectLinks(c: Cursor, first: nat, count: nat, ghost roots: seq<nat>, ghost keys: seq<string>)
      returns (links: seq<Member<nat>>)
      requires Valid() && c.Valid() && |roots| == count && first + count == edgesUsed
               && edges[first..edgesUsed] == roots
      requires KeysAt(nodes[..used], c.bytes[..c.position], roots, keys)
      ensures links == Zip(keys, roots)
    {
      links := [];
      var i: nat := 0;
      while i < count
        invariant i <= count && links == Zip(keys, roots)[..i]
      {
        assert edges[first..edgesUsed][i] == edges[first + i];
        var node := edges[first + i];
        var view := nodes[node].key;
        assert c.bytes[..c.position][view.start..view.start + view.size] == c.bytes[view.start..view.start + view.size];
        links := links + [Member(c.bytes[view.start..view.start + view.size], node)];
        i := i + 1;
      }
    }

    /** Write back the last of every run of equal keys. */
    method KeepUnique(first: nat, sorted: seq<Member<nat>>) returns (unique: nat)
      requires Valid() && first + |sorted| == edgesUsed
      modifies edges
      ensures unique == |KeepLast(sorted)|
      ensures unique <= |sorted| && edges[first..first + unique] == Targets(KeepLast(sorted))
      ensures edges[..first] == old(edges[..first])
    {
      unique := 0;
      ghost var kept: seq<Member<nat>> := [];
      var i: nat := 0;
      assert sorted[0..] == sorted;
      while i < |sorted|
        invariant unique == |kept| && unique <= i <= |sorted|
        invariant kept + KeepLast(sorted[i..]) == KeepLast(sorted)
        invariant edges[first..first + unique] == Targets(kept)
        invariant edges[..first] == old(edges[..first])
      {
        KeepLastStep(sorted, i);
        if i + 1 == |sorted| || sorted[i].key != sorted[i + 1].key {
          edges[first + unique] := sorted[i].value;
          unique := unique + 1;
          kept := kept + [sorted[i]];
        }
        i := i + 1;
      }
    }

    /** Link and, for an object, deduplicate: the node then denotes the container. */
    method Finish(c: Cursor, index: nat, braces: bool, ghost roots: seq<nat>, ghost keys: seq<string>,
            ghost values: seq<Json>)
      requires Valid() && c.Valid() && Children(Snap(c), index, roots, keys, values)
      requires nodes[index].count == |roots| && edgesUsed + |roots| < used
      requires nodes[index].kind == if braces then ObjectType else ArrayType
      modifies this`edgesUsed, nodes, edges
      ensures Valid() && edgesUsed == old(edgesUsed) + |roots| && edges[..old(edgesUsed)] == old(edges[..edgesUsed])
      ensures nodes[index].key == old(nodes[index].key)
      ensures forall i :: 0 <= i < nodes.Length && i != index ==> nodes[i] == old(nodes[i])
      ensures Holds(Snap(c), index, Container(braces, keys, values))
    {
      hide Holds, Container, Chain, HoldsMember, PutAll;
      ghost var before := Snap(c);
      InUse(before, index, roots, keys);
      var first := edgesUsed;
      var count := Arrange(c, index, braces, nodes[index].count, roots, keys);
      nodes[index] := nodes[index].(children := first, count := count);
      assert edges[..edgesUsed][..first] == edges[..first];
      assert nodes[..used] == before.nodes[index := nodes[index]];
      assert edges[..edgesUsed][first..first + count] == edges[first..first + count];
      ContainerLinked(before, Snap(c), index, braces, roots, keys, values, first);
    }

    /** The edges of a container, ready for its node. */
    method Arrange(c: Cursor, index: nat, braces: bool, children: nat, ghost roots: seq<nat>, ghost keys: seq<string>)
      returns (count: nat)
      requires Valid() && c.Valid() && index < used && children == |roots| && edgesUsed + |roots| <= used
      requires Chain(Snap(c), index, roots, keys)
      modifies this`edgesUsed, edges
      ensures Valid() && edgesUsed == old(edgesUsed) + |roots| && edges[..old(edgesUsed)] == old(edges[..edgesUsed])
      ensures old(edgesUsed) + count <= edgesUsed
      ensures edges[old(edgesUsed)..old(edgesUsed) + count]
              == if braces && |roots| > 1 then Targets(PutAll<nat>(keys, roots)) else roots
    {
      hide PutAll, NodeChain, KeysAt, Targets;
      count := children;
      var first := edgesUsed;
      Link(index, roots);
      assert edges[first..edgesUsed] == roots;
      if braces && count > 1 {
        count := Deduplicate(c, index, first, count, roots, keys);
      }
    }

    /** One element, key first in an object. */
    method ParseElementAt(c: Cursor, braces: bool, depth: nat) returns (ok: bool, error: Error)
      requires Valid() && c.Valid() && c.decode && depth < DEPTH_LIMIT && Roomy(c)
      modifies this, nodes, edges, c, c.bytes
      ensures Valid() && c.Valid() && c.position >= old(c.position)
      ensures Same(old(c.bytes[..]), c.bytes[..], old(c.position), c.position)
      ensures var key := KeyPart(braces, old(c.Unread()));
              ok <==> key.Some? && Fits(ParseValue(c.read, key.value.rest), depth + 1)
      ensures ok ==> var key := KeyPart(braces, old(c.Unread())).value;
                     var v := ParseValue(c.read, key.rest).value;
                     c.Unread() == v.rest && c.position > old(c.position)
                     && HoldsMember(Snap(c), old(used), Member(key.text, v.value))
      ensures ok ==> Grown(c, old(Snap(c)))
      ensures var key := KeyPart(braces, old(c.Unread()));
              !ok && key.Some? && ParseValue(c.read, key.value.rest).Some? ==> error == TooDeep
      decreases DEPTH_LIMIT - depth - 1, 4
    {
      hide ParseValue, Same, Holds, KeyPart;
      error := Invalid;
      ghost var before, p0, s := c.bytes[..], c.position, c.Unread();
      ghost var snap := Snap(c);
      var key;
      ok, key := c.ReadKey(braces);
      if !ok {
        return;
      }
      KeyCounts(braces, s);
      ghost var middle, p1, bytes1 := c.bytes[..], c.position, c.bytes[..c.position];
      ghost var text := KeyPart(braces, s).value.text;
      PrefixGrows(before, middle, p0, p1);
      ok, error := ParseValueAt(c, key, depth + 1);
      SameTransitive(before, middle, c.bytes[..], p0, p1, c.position);
      if ok {
        PrefixGrows(middle, c.bytes[..], p1, c.position);
        TextStays(bytes1, c.bytes[..c.position], key, text);
      }
    }

    /** A new node follows what there was, its subtree linked, and room is left at a delimiter. */
    ghost predicate Grown(c: Cursor, before: Snapshot)
      reads this, nodes, edges, c, c.bytes
      requires Valid() && c.Valid()
    {
      && Grows(before, Snap(c), 0) && |before.nodes| < used && nodes[|before.nodes|].next == used
      && edgesUsed - |before.edges| == used - |before.nodes| - 1
      && (Delimited(c.Unread()) ==> Roomy(c))
    }

    /** An element of the container, its separator and the count. */
    method ParseNext(c: Cursor, index: nat, braces: bool, depth: nat, ghost before: Snapshot, ghost roots: seq<nat>,
            ghost keys: seq<string>, ghost values: seq<Json>)
      returns (ok: bool, more: bool, error: Error)
      requires Valid() && c.Valid() && c.decode && depth < DEPTH_LIMIT && Roomy(c)
               && Building(before, Snap(c), index, roots, keys, values)
      modifies this, nodes, edges, c, c.bytes
      ensures Valid() && c.Valid() && c.position >= old(c.position)
      ensures Same(old(c.bytes[..]), c.bytes[..], old(c.position), c.position)
      ensures ok <==>
              KeyPart(braces, old(c.Unread())).Some?
                  && Fits(ParseValue(c.read, KeyPart(braces, old(c.Unread())).value.rest), depth + 1)
                      && var rest := ParseValue(c.read, KeyPart(braces, old(c.Unread())).value.rest).value.rest;
                         Consume(rest, Closing(braces)).Some? || Consume(rest, ',').Some?
      ensures ok ==> var rest := ParseValue(c.read, KeyPart(braces, old(c.Unread())).value.rest).value.rest;
                     (more <==> Consume(rest, Closing(braces)).None?)
                     && c.Unread() == Consume(rest, if more then ',' else Closing(braces)).value
      ensures ok ==> c.position > old(c.position) && Roomy(c)
      ensures ok ==> var part := KeyPart(braces, old(c.Unread())).value;
                     Building(before, Snap(c), index, roots + [old(used)], keys + [part.text],
                         values + [ParseValue(c.read, part.rest).value.value])
      ensures !ok && KeyPart(braces, old(c.Unread())).Some?
              && ParseValue(c.read, KeyPart(braces, old(c.Unread())).value.rest).Some? ==>
                error == TooDeep
                || var rest := ParseValue(c.read, KeyPart(braces, old(c.Unread())).value.rest).value.rest;
                   Consume(rest, Closing(braces)).None? && Consume(rest, ',').None?
      decreases DEPTH_LIMIT - depth - 1, 5
    {
      hide ParseValue, KeyPart, Consume, Same, HoldsMember, TokenCount, Delimited, Grows, Building;
      BuildingChain(before, Snap(c), index, roots, keys, values);
      ghost var bytes0, p0, s, snap := c.bytes[..], c.position, c.Unread(), Snap(c);
      more := false;
      ok, error := ParseElementAt(c, braces, depth);
      if !ok {
        return;
      }
      ghost var part := KeyPart(braces, s).value;
      ghost var v := ParseValue(c.read, part.rest).value;
      ghost var bytes1, p1, snap1 := c.bytes[..], c.position, Snap(c);
      nodes[index] := nodes[index].(count := nodes[index].count + 1);
      ok, more := c.Separator(braces);
      SameFurther(bytes0, bytes1, p0, p1, c.position);
      if ok {
        RoomKept(v.rest, if more then ',' else Closing(braces));
        SameItself(bytes1, p1, c.position);
        PrefixGrows(bytes1, bytes1, p1, c.position);
        assert nodes[..used] == snap1.nodes[index := nodes[index]];
        BuildMore(before, snap, snap1, Snap(c), index, roots, keys, values, part.text, v.value);
      }
    }

    /** What follows an opening bracket, into node index and the nodes after it. */
    method ParseContainerAt(c: Cursor, index: nat, braces: bool, depth: nat) returns (ok: bool, error: Error)
      requires Valid() && c.Valid() && c.decode && depth < DEPTH_LIMIT && Roomy(c)
      requires used == index + 1 && edgesUsed <= index
      requires nodes[index].count == 0 && nodes[index].kind == if braces then ObjectType else ArrayType
      modifies this, nodes, edges, c, c.bytes
      ensures Valid() && c.Valid() && c.position >= old(c.position)
      ensures Same(old(c.bytes[..]), c.bytes[..], old(c.position), c.position)
      ensures ok <==> Fits(ParseContainer(c.read, braces, old(c.Unread())), depth)
      ensures ok ==> var v := ParseContainer(c.read, braces, old(c.Unread())).value;
                     c.Unread() == v.rest && Holds(Snap(c), index, v.value)
      ensures ok ==> Roomy(c) && Closed(old(Snap(c)), Snap(c), index)
      ensures !ok && ParseContainer(c.read, braces, old(c.Unread())).Some? ==> error == TooDeep
      decreases DEPTH_LIMIT - depth, 0
    {
      hide Same, ParseRest, Container, Building, Children, Holds, TokenCount, Delimited, Blank, Consume,
          ParseContainer, ParseValue, KeyPart;
      ghost var bytes0, p0, before, s := c.bytes[..], c.position, Snap(c), c.Unread();
      ContainerRest(c.read, braces, s);
      RestBlank(c.read, braces, s, [], [], 0);
      NoChildren(before, index);
      CountBlank(s);
      error := Invalid;
      ok := c.ConsumeChar(Closing(braces));
      SameItself(bytes0, p0, c.position);
      PrefixGrows(bytes0, bytes0, p0, c.position);
      BuildingRead(before, before, Snap(c), index, [], [], []);
      ghost var roots: seq<nat>, keys: seq<string>, values: seq<Json> := [], [], [];
      if ok {
        RoomKept(s, Closing(braces));
      } else {
        ghost var p1 := c.position;
        ok, error, roots, keys, values := ParseElements(c, index, braces, depth, before);
        SameTransitive(bytes0, bytes0, c.bytes[..], p0, p1, c.position);
        if !ok {
          return;
        }
      }
      PrefixGrows(bytes0, c.bytes[..], p0, c.position);
      FinishContainer(c, index, braces, before, roots, keys, values);
    }

    method FinishContainer(c: Cursor, index: nat, braces: bool, ghost before: Snapshot, ghost roots: seq<nat>,
            ghost keys: seq<string>, ghost values: seq<Json>)
      requires Valid() && c.Valid() && Building(before, Snap(c), index, roots, keys, values)
      requires |before.edges| <= index && before.bytes <= c.bytes[..c.position]
      requires before.nodes[index].kind == if braces then ObjectType else ArrayType
      modifies this`edgesUsed, nodes, edges
      ensures Valid() && Closed(before, Snap(c), index) && Holds(Snap(c), index, Container(braces, keys, values))
    {
      hide Building, Children, Holds, Container;
      ghost var built := Snap(c);
      FinishReady(before, built, index, roots, keys, values);
      Finish(c, index, braces, roots, keys, values);
      assert nodes[..used] == built.nodes[index := nodes[index]];
      FinishCloses(before, built, Snap(c), index, roots);
    }

    /** Elements up to the closing bracket. */
    method ParseElements(c: Cursor, index: nat, braces: bool, depth: nat, ghost before: Snapshot)
      returns (ok: bool, error: Error, ghost roots: seq<nat>, ghost keys: seq<string>, ghost values: seq<Json>)
      requires Valid() && c.Valid() && c.decode && depth < DEPTH_LIMIT && Roomy(c)
               && Building(before, Snap(c), index, [], [], [])
      modifies this, nodes, edges, c, c.bytes
      ensures Valid() && c.Valid() && c.position >= old(c.position)
      ensures Same(old(c.bytes[..]), c.bytes[..], old(c.position), c.position)
      ensures ok <==> Fits(ParseRest(c.read, braces, old(c.Unread()), [], [], 0), depth)
      ensures ok ==> var v := ParseRest(c.read, braces, old(c.Unread()), [], [], 0).value;
                     c.Unread() == v.rest && |keys| == |values| && v.value == Container(braces, keys, values)
      ensures ok ==> Roomy(c) && Building(before, Snap(c), index, roots, keys, values)
      ensures !ok && ParseRest(c.read, braces, old(c.Unread()), [], [], 0).Some? ==> error == TooDeep
      decreases DEPTH_LIMIT - depth - 1, 6
    {
      hide Same, ParseRest, Container, Building, Holds, TokenCount, Delimited, Blank, Consume, ParseContainer,
          ParseValue, KeyPart;
      ghost var bytes0, p0, whole := c.bytes[..], c.position, ParseRest(c.read, braces, c.Unread(), [], [], 0);
      ghost var h: nat := 0;
      roots, keys, values := [], [], [];
      SameItself(bytes0, p0, p0);
      var more := true;
      ok, error := true, Invalid;
      while more
        invariant Valid() && c.Valid() && p0 <= c.position && Same(bytes0, c.bytes[..], p0, c.position)
        invariant ok && |keys| == |values| && Roomy(c) && Building(before, Snap(c), index, roots, keys, values)
        invariant more ==> whole == ParseRest(c.read, braces, c.Unread(), keys, values, h) && depth + h < DEPTH_LIMIT
        invariant !more ==>
                  Fits(whole, depth) && c.Unread() == whole.value.rest
                      && whole.value.value == Container(braces, keys, values)
        decreases more, c.bytes.Length - c.position
      {
        ghost var bytes1, p1, s, first := c.bytes[..], c.position, c.Unread(), used;
        RestStep(c.read, braces, s, keys, values, h);
        if whole.Some? {
          RestDeeper(c.read, braces, s, keys, values, h);
        }
        ok, more, error := ParseNext(c, index, braces, depth, before, roots, keys, values);
        SameTransitive(bytes0, bytes1, c.bytes[..], p0, p1, c.position);
        if !ok {
          return;
        }
        ghost var part := KeyPart(braces, s).value;
        ghost var v := ParseValue(c.read, part.rest).value;
        roots, keys, values, h := roots + [first], keys + [part.text], values + [v.value], Max(h, v.height);
      }
    }

    method ParseValueAt(c: Cursor, key: View, depth: nat) returns (ok: bool, error: Error)
      requires Valid() && c.Valid() && c.decode && depth <= DEPTH_LIMIT && Roomy(c)
      modifies this, nodes, edges, c, c.bytes
      ensures Valid() && c.Valid() && c.position >= old(c.position)
      ensures Same(old(c.bytes[..]), c.bytes[..], old(c.position), c.position)
      ensures ok <==> Fits(ParseValue(c.read, old(c.Unread())), depth)
      ensures ok ==> var v := ParseValue(c.read, old(c.Unread())).value;
                     c.Unread() == v.rest && c.position > old(c.position)
                     && Holds(Snap(c), old(used), v.value) && nodes[old(used)].key == key
      ensures ok ==> Grown(c, old(Snap(c)))
      ensures !ok && ParseValue(c.read, old(c.Unread())).Some? ==> error == TooDeep
      decreases DEPTH_LIMIT - depth, 3
    {
      hide Same, ParseToken, Holds, TokenCount, Delimited, Blank, Closed, Grows;
      ok, error := false, TooDeep;
      ghost var bytes0, p0, snap, whole := c.bytes[..], c.position, Snap(c), ParseValue(c.read, c.Unread());
      SameItself(bytes0, p0, p0);
      if depth == DEPTH_LIMIT {
        return;
      }
      if used == nodes.Length {
        if whole.Some? {
          ValueHasToken(c.read, c.Unread());
        }
        return false, NoSpace;
      }
      ok, error := ParseFreshAt(c, key, depth);
    }

    method ParseFreshAt(c: Cursor, key: View, depth: nat) returns (ok: bool, error: Error)
      requires Valid() && c.Valid() && c.decode && depth < DEPTH_LIMIT && used < nodes.Length && Roomy(c)
      modifies this, nodes, edges, c, c.bytes
      ensures Valid() && c.Valid() && c.position >= old(c.position)
      ensures Same(old(c.bytes[..]), c.bytes[..], old(c.position), c.position)
      ensures ok <==> Fits(ParseValue(c.read, old(c.Unread())), depth)
      ensures ok ==> var v := ParseValue(c.read, old(c.Unread())).value;
                     c.Unread() == v.rest && c.position > old(c.position)
                     && Holds(Snap(c), old(used), v.value) && nodes[old(used)].key == key
      ensures ok ==> Grown(c, old(Snap(c)))
      ensures !ok && ParseValue(c.read, old(c.Unread())).Some? ==> error == TooDeep
      decreases DEPTH_LIMIT - depth, 2
    {
      hide Same, ParseToken, ParseValue, Holds, TokenCount, Delimited, Blank, Closed, Grows;
      ghost var s, bytes0, p0, snap := c.Unread(), c.bytes[..], c.position, Snap(c);
      ValueIsToken(c.read, s);
      CountBlank(s);
      BlankTwice(s);
      var index := TakeNode(key);
      assert Snap(c).nodes[..index] == snap.nodes;
      var _ := c.Peek();
      SameItself(bytes0, p0, c.position);
      PrefixGrows(bytes0, bytes0, p0, c.position);
      ghost var p1, ready := c.position, Snap(c);
      ok, error := ParseTokenAt(c, index, depth);
      SameTransitive(bytes0, bytes0, c.bytes[..], p0, p1, c.position);
      if ok {
        SetNext(c, index, snap, ready, ParseValue(c.read, s).value.value);
      }
    }

    /** The node is complete. */
    method SetNext(c: Cursor, index: nat, ghost snap: Snapshot, ghost ready: Snapshot, ghost v: Json)
      requires Valid() && c.Valid() && |snap.nodes| == index < |ready.nodes| && ready.nodes[..index] == snap.nodes
      requires ready.edges == snap.edges && snap.bytes <= ready.bytes
      requires Closed(ready, Snap(c), index) && Holds(Snap(c), index, v)
      modifies nodes
      ensures Holds(Snap(c), index, v) && Grows(snap, Snap(c), 0)
      ensures index < used && nodes[index].next == used && nodes[index].key == ready.nodes[index].key
      ensures edgesUsed - |snap.edges| == used - index - 1
    {
      hide Holds;
      ghost var parsed := Snap(c);
      nodes[index] := nodes[index].(next := used);
      assert nodes[..used] == parsed.nodes[index := parsed.nodes[index].(next := used)];
      NextIrrelevant(parsed, Snap(c), index, v, used);
      ClosedGrows(snap, ready, parsed, Snap(c), index);
    }

    /** The next free node. */
    method TakeNode(key: View) returns (index: nat)
      requires Valid() && used < nodes.Length
      modifies this`used, nodes
      ensures Valid() && index == old(used) && used == index + 1 && nodes[index] == NO_NODE.(key := key)
      ensures nodes[..index] == old(nodes[..used])
    {
      index := used;
      used := used + 1;
      nodes[index] := NO_NODE.(key := key);
    }

    /** The value whose first character is next, into the fresh node index. */
    method ParseTokenAt(c: Cursor, index: nat, depth: nat) returns (ok: bool, error: Error)
      requires Valid() && c.Valid() && c.decode && depth < DEPTH_LIMIT && used == index + 1 && edgesUsed <= index
      requires index + TokenCount(c.Unread()) <= nodes.Length && Blank(c.Unread()) == c.Unread()
      requires nodes[index].count == 0 && nodes[index].kind == NullType
      modifies this, nodes, edges, c, c.bytes
      ensures Valid() && c.Valid() && c.position >= old(c.position)
      ensures Same(old(c.bytes[..]), c.bytes[..], old(c.position), c.position)
      ensures ok <==> Fits(ParseToken(c.read, old(c.Unread())), depth)
      ensures ok ==> var v := ParseToken(c.read, old(c.Unread())).value;
                     c.Unread() == v.rest && c.position > old(c.position) && Holds(Snap(c), index, v.value)
      ensures ok ==> Closed(old(Snap(c)), Snap(c), index) && (Delimited(c.Unread()) ==> Roomy(c))
      ensures !ok && ParseToken(c.read, old(c.Unread())).Some? ==> error == TooDeep
      decreases DEPTH_LIMIT - depth, 1
    {
      hide Same, ParseScalar, ParseContainer, Holds, TokenCount, Delimited, Blank;
      ok, error := false, Invalid;
      ghost var bytes0, p0, t, snap := c.bytes[..], c.position, c.Unread(), Snap(c);
      SameItself(bytes0, p0, p0);
      if c.position == c.bytes.Length {
        return;
      }
      var token := c.bytes[c.position];
      assert token == t[0];
      if token == '{' || token == '[' {
        nodes[index] := nodes[index].(kind := if token == '{' then ObjectType else ArrayType);
        CountBracket(t);
        c.position := c.position + 1;
        assert c.Unread() == t[1..];
        SameItself(bytes0, p0, c.position);
        PrefixGrows(bytes0, bytes0, p0, c.position);
        ghost var p1, entered := c.position, Snap(c);
        ok, error := ParseContainerAt(c, index, token == '{', depth);
        SameTransitive(bytes0, bytes0, c.bytes[..], p0, p1, c.position);
        assert entered.nodes == snap.nodes[index := entered.nodes[index]];
        if ok {
          ClosedFrom(snap, entered, Snap(c), index);
        }
      } else {
        NotBlank(t);
        ok := ParseScalarAt(c, index);
        if ok {
          CountScalar(c.read, t);
          PrefixGrows(bytes0, c.bytes[..], p0, c.position);
          assert nodes[..used] == snap.nodes[index := nodes[index]];
          ClosedScalar(snap, Snap(c), index);
        }
      }
    }
  }

  /** The children of node index so far; before is what was in use when its bracket was passed. */
  ghost predicate Building(before: Snapshot, s: Snapshot, index: nat, roots: seq<nat>, keys: seq<string>,
          values: seq<Json>)
  {
    && Children(s, index, roots, keys, values)
    && |before.nodes| == index + 1 && s.nodes[..index] == before.nodes[..index]
    && s.nodes[index] == before.nodes[index].(count := |roots|)
    && before.edges <= s.edges && |s.edges| + |roots| == |before.edges| + |s.nodes| - index - 1
  }

  /** Only node index, its successors and new edges differ. */
  ghost predicate Closed(before: Snapshot, s: Snapshot, index: nat) {
    && |before.nodes| == index + 1 <= |s.nodes| && s.nodes[..index] == before.nodes[..index]
    && s.nodes[index].key == before.nodes[index].key
    && before.edges <= s.edges && |s.edges| == |before.edges| + |s.nodes| - index - 1
    && before.bytes <= s.bytes
  }

  lemma NoChildren(s: Snapshot, index: nat)
    requires |s.nodes| == index + 1 && s.nodes[index].count == 0
    ensures Building(s, s, index, [], [], [])
  {}

  /** Reading on touches no node. */
  lemma BuildingRead(before: Snapshot, s: Snapshot, s': Snapshot, index: nat, roots: seq<nat>, keys: seq<string>,
          values: seq<Json>)
    requires Building(before, s, index, roots, keys, values)
    requires s'.nodes == s.nodes && s'.edges == s.edges && s.bytes <= s'.bytes
    ensures Building(before, s', index, roots, keys, values)
  {
    hide Holds, IsText;
    forall k | 0 <= k < |roots|
      ensures HoldsMember(s', roots[k], Member(keys[k], values[k]))
    {
      MemberStays(s, s', 0, roots[k], Member(keys[k], values[k]));
    }
    assert Chain(s', index, roots, keys) by {
      forall k | 0 <= k < |roots|
        ensures IsText(s'.bytes, s'.nodes[roots[k]].key, keys[k])
      {
        assert HoldsMember(s', roots[k], Member(keys[k], values[k]));
      }
    }
  }

  lemma FinishReady(before: Snapshot, s: Snapshot, index: nat, roots: seq<nat>, keys: seq<string>, values: seq<Json>)
    requires Building(before, s, index, roots, keys, values) && |before.edges| <= index
    ensures Children(s, index, roots, keys, values) && s.nodes[index].count == |roots|
            && |s.edges| + |roots| < |s.nodes|
    ensures s.nodes[index].kind == before.nodes[index].kind && s.nodes[index].key == before.nodes[index].key
    ensures before.edges <= s.edges && s.nodes[..index] == before.nodes[..index]
    ensures |s.edges| + |roots| == |before.edges| + |s.nodes| - index - 1 && |before.nodes| == index + 1
  {}

  lemma FinishCloses(before: Snapshot, built: Snapshot, s: Snapshot, index: nat, roots: seq<nat>)
    requires before.edges <= built.edges && |before.nodes| == index + 1 <= |built.nodes|
             && built.nodes[..index] == before.nodes[..index]
    requires |built.edges| + |roots| == |before.edges| + |built.nodes| - index - 1
    requires |s.nodes| == |built.nodes| && s.nodes == built.nodes[index := s.nodes[index]]
             && s.nodes[index].key == before.nodes[index].key
    requires |s.edges| == |built.edges| + |roots| && built.edges <= s.edges && before.bytes <= s.bytes
    ensures Closed(before, s, index)
  {
    assert s.nodes[..index] == built.nodes[..index];
  }

  lemma ClosedFrom(a: Snapshot, b: Snapshot, c: Snapshot, index: nat)
    requires Closed(b, c, index) && |a.nodes| == |b.nodes| && b.nodes == a.nodes[index := b.nodes[index]]
             && b.nodes[index].key == a.nodes[index].key
    requires a.edges == b.edges && a.bytes <= b.bytes
    ensures Closed(a, c, index)
  {
    assert a.nodes[..index] == b.nodes[..index];
  }

  lemma ClosedScalar(a: Snapshot, b: Snapshot, index: nat)
    requires |a.nodes| == index + 1 == |b.nodes| && b.nodes == a.nodes[index := b.nodes[index]]
             && b.nodes[index].key == a.nodes[index].key
    requires a.edges == b.edges && a.bytes <= b.bytes
    ensures Closed(a, b, index)
  {
    assert a.nodes[..index] == b.nodes[..index];
  }

  /** Seen from before the node was taken, everything in use stays. */
  lemma ClosedGrows(snap: Snapshot, ready: Snapshot, parsed: Snapshot, end: Snapshot, index: nat)
    requires |snap.nodes| == index < |ready.nodes| && ready.nodes[..index] == snap.nodes && ready.edges == snap.edges
             && snap.bytes <= ready.bytes
    requires Closed(ready, parsed, index)
    requires end
             == Snapshot(parsed.nodes[index := parsed.nodes[index].(next := |parsed.nodes|)], parsed.edges,
                parsed.bytes)
    ensures Grows(snap, end, 0) && end.nodes[index].key == ready.nodes[index].key && |snap.nodes| < |end.nodes|
    ensures |end.edges| - |snap.edges| == |end.nodes| - |snap.nodes| - 1
  {
    forall i | 0 <= i < index
      ensures end.nodes[i] == snap.nodes[i]
    {
      assert parsed.nodes[..index][i] == ready.nodes[..index][i];
    }
  }

  lemma NotBlank(t: string)
    requires Blank(t) == t
    ensures t != "" ==> !IsBlank(t[0])
  {}

  lemma CountBracket(t: string)
    requires t != "" && (t[0] == '{' || t[0] == '[')
    ensures TokenCount(t) == 1 + TokenCount(t[1..])
  {}

  lemma BuildingChain(before: Snapshot, s: Snapshot, index: nat, roots: seq<nat>, keys: seq<string>, values: seq<Json>)
    requires Building(before, s, index, roots, keys, values)
    ensures index < |s.nodes| && |roots| == |keys| == |values| && s.nodes[index].count == |roots|
  {}

  lemma BuildMore(before: Snapshot, s: Snapshot, s1: Snapshot, s2: Snapshot, index: nat, roots: seq<nat>,
          keys: seq<string>, values: seq<Json>, key: string, value: Json)
    requires Building(before, s, index, roots, keys, values)
    requires Grows(s, s1, 0) && |s.nodes| < |s1.nodes| && |s1.edges| - |s.edges| == |s1.nodes| - |s.nodes| - 1
    requires HoldsMember(s1, |s.nodes|, Member(key, value)) && s1.nodes[|s.nodes|].next == |s1.nodes|
    requires index < |s1.nodes| && s2.nodes == s1.nodes[index := s1.nodes[index].(count := s1.nodes[index].count + 1)]
             && s2.edges == s1.edges && s1.bytes <= s2.bytes
    ensures Building(before, s2, index, roots + [|s.nodes|], keys + [key], values + [value])
  {
    hide HoldsMember, Chain;
    InUse(s, index, roots, keys);
    assert s1.nodes[index] == s.nodes[index];
    MemberStays(s1, s2, index + 1, |s.nodes|, Member(key, value));
    ChildrenMore(s, s2, index, roots, keys, values, key, value);
    assert s2.nodes[..index] == s1.nodes[..index] == s.nodes[..index];
  }

  lemma RoomKept(rest: string, c: char)
    requires Consume(rest, c).Some? && (c == ',' || c == ']' || c == '}')
    ensures TokenCount(Consume(rest, c).value) == TokenCount(rest) && Delimited(rest)
  {
    CountConsume(rest, c);
  }

  const MAXIMUM_BYTES: nat := 1024 * 1024
  const MAXIMUM_NODES: nat := MAXIMUM_BYTES / 2 + 1

  /** Acquire storage for a text. Only size refuses an acceptable one. */
  method PrepareDocument(input: string) returns (d: Document?)
    ensures d != null ==>
            d.Valid() && fresh(d) && fresh(d.nodes) && fresh(d.edges) && TokenCount(input) <= d.nodes.Length
    ensures d != null <==> |input| <= 1048576 && TokenCount(input) <= 524289
    ensures forall read :: ParseText(read, input).Some? ==> (d != null <==> |input| <= 1048576)
  {
    hide TokenCount, ParseText;
    forall read: Reader | ParseText(read, input).Some?
      ensures TokenCount(input) <= |input| / 2 + 1
    {
      TokensAreFew(read, input);
    }
    if |input| > MAXIMUM_BYTES {
      return null;
    }
    var count := CountTokens(input);
    if count > MAXIMUM_NODES {
      return null;
    }
    d := new Document(if count < 1 then 1 else count);
  }

  lemma InUse(s: Snapshot, index: nat, roots: seq<nat>, keys: seq<string>)
    requires Chain(s, index, roots, keys)
    ensures index < |s.nodes| && |roots| == |keys|
  {}

  lemma ContainerLinked(a: Snapshot, b: Snapshot, index: nat, braces: bool, roots: seq<nat>, keys: seq<string>,
          values: seq<Json>, first: nat)
    requires Children(a, index, roots, keys, values) && index < |a.nodes| == |b.nodes|
             && b.nodes == a.nodes[index := b.nodes[index]]
    requires a.edges <= b.edges && a.bytes == b.bytes
    requires b.nodes[index].kind == if braces then ObjectType else ArrayType
    requires b.nodes[index].children == first && first + b.nodes[index].count <= |b.edges|
    requires b.edges[first..first + b.nodes[index].count]
          == if braces && |roots| > 1 then Targets(PutAll<nat>(keys, roots)) else roots
    ensures Holds(b, index, Container(braces, keys, values))
  {
    hide HoldsMember, Holds, PutAll, IsText, NodeChain, KeysAt, Targets, LinkedTo;
    InUse(a, index, roots, keys);
    SliceLinked(b, index, first, if braces && |roots| > 1 then Targets(PutAll<nat>(keys, roots)) else roots);
    assert Grows(a, b, index + 1);
    hide Grows;
    if !braces {
      ArrayHolds(a, b, index, roots, keys, values);
    } else {
      if |roots| <= 1 {
        FewLinks(keys, roots);
      }
      ObjectHolds(a, b, index, roots, keys, values);
    }
  }

  lemma SliceLinked(b: Snapshot, index: nat, first: nat, targets: seq<nat>)
    requires index < |b.nodes| && b.nodes[index].children == first && first + b.nodes[index].count <= |b.edges|
    requires b.edges[first..first + b.nodes[index].count] == targets
    ensures LinkedTo(b, index, targets)
  {
    var n := b.nodes[index];
    forall k | 0 <= k < n.count
      ensures Child(b, index, k) == targets[k]
    {
      assert b.edges[first..first + n.count][k] == b.edges[first + k];
    }
  }

  lemma FewLinks(keys: seq<string>, roots: seq<nat>)
    requires |keys| == |roots| <= 1
    ensures Targets(PutAll<nat>(keys, roots)) == roots
  {
    if |keys| == 1 {
      assert PutAll<nat>(keys[..0], roots[..0]) == [];
      assert PutAll<nat>(keys, roots) == [Member(keys[0], roots[0])];
    }
  }

  lemma KeyCounts(braces: bool, s: string)
    requires KeyPart(braces, s).Some?
    ensures TokenCount(KeyPart(braces, s).value.rest) <= TokenCount(s)
  {
    hide TokenCount, StringToken;
    if braces {
      CountString(s);
      CountConsume(StringToken(s).value.rest, ':');
    }
  }

  lemma PrefixGrows(a: string, b: string, from: nat, to: nat)
    requires Same(a, b, from, to)
    ensures a[..from] <= b[..to]
  {
    assert b[..to][..from] == b[..from];
  }

  lemma KeepLastStep(s: seq<Member<nat>>, i: nat)
    requires i < |s|
    ensures KeepLast(s[i..])
         == (if i + 1 == |s| || s[i].key != s[i + 1].key then [s[i]] else []) + KeepLast(s[i + 1..])
  {
    assert s[i..][1..] == s[i + 1..];
  }
}
