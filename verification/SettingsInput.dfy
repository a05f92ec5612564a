/** Settings files as parsed documents, and looking values up in them. */
module SettingsInput {
  import opened Options
  import opened JsonGrammar
  import opened JsonCursor
  import opened JsonTree
  import opened JsonNumber
  import opened JsonPrint
  import opened JsonWrite
  import opened JsonDocument
  import opened JsonRewrite

  /** A parsed value: a node of a document. */
  datatype Ref = Ref(tree: Snapshot, node: nat)

  ghost predicate Denotes(r: Ref, v: Json) { Holds(r.tree, r.node, v) && WellFormed(v) }

  ghost predicate MayDenote(r: Option<Ref>, v: Option<Json>) {
    (r.Some? <==> v.Some?) && (r.Some? ==> Denotes(r.value, v.value))
  }

  /** A text that is taken as a document: not too long, within the nesting limit, and an object. */
  predicate Accepts(read: Reader, text: string) {
    |text| <= MAXIMUM_BYTES && Fits(ParseText(read, text), 0) && ParseText(read, text).value.value.Object?
  }

  /** Its members. */
  function MembersIn(read: Reader, text: string): seq<Member<Json>>
    requires Accepts(read, text)
  {
    ParseText(read, text).value.value.members
  }

  /** Parse a whole file in place; anything but an accepted object is refused. */
  method LoadObject(text: array<char>, read: Reader) returns (r: Option<Ref>)
    requires IsReader(read)
    modifies text
    ensures r.Some? <==> Accepts(read, old(text[..]))
    ensures r.Some? ==> Denotes(r.value, Object(MembersIn(read, old(text[..]))))
  {
    hide ParseText, Holds, WellFormed, IsReader, Height;
    ghost var source := text[..];
    var tree := ParseWhole(text, read);
    if tree.None? {
      return None;
    }
    var root := Ref(tree.value, 0);
    ObjectKind(root, ValueIn(read, source));
    r := if IsObject(root) then Some(root) else None;
  }

  predicate IsObject(r: Ref) { r.node < |r.tree.nodes| && r.tree.nodes[r.node].kind == ObjectType }

  lemma ObjectKind(r: Ref, v: Json)
    requires Denotes(r, v)
    ensures IsObject(r) <==> v.Object?
  {
    hide WellFormed;
  }

  /** How many children a value has. */
  function ChildCount(r: Ref): nat
  {
    if r.node < |r.tree.nodes| then r.tree.nodes[r.node].count else 0
  }

  lemma ElementFormed(v: Json, n: nat)
    requires IsContainer(v) && n < Size(v) && WellFormed(v)
    ensures WellFormed(Element(v, n))
  {}

  /** A member of an object; other values have none. */
  method FindMember(r: Ref, ghost v: Json, key: string) returns (found: Option<Ref>)
    requires Denotes(r, v)
    ensures MayDenote(found, if v.Object? then Lookup(v.members, key) else None)
  {
    hide Holds, WellFormed, Lookup;
    var i := Find(r.tree, r.node, v, key);
    if i.None? {
      return None;
    }
    LookedUpIsMember(v.members, key);
    ghost var k :| 0 <= k < |v.members| && v.members[k] == Member(key, Lookup(v.members, key).value);
    ElementFormed(v, k);
    return Some(Ref(r.tree, i.value));
  }

  /** The truth value of what was found. */
  method BoolValue(found: Option<Ref>, ghost v: Option<Json>, fallback: bool) returns (b: bool)
    requires MayDenote(found, v)
    ensures b == if v.Some? && v.value.Bool? then v.value.value else fallback
  {
    hide WellFormed, HasEdges, IsText;
    if found.None? {
      return fallback;
    }
    var node := found.value.tree.nodes[found.value.node];
    b := if node.kind == BoolType then node.flag else fallback;
  }

  /** The bits of the number that was found. */
  method NumberValue(found: Option<Ref>, ghost v: Option<Json>) returns (bits: Option<nat>)
    requires MayDenote(found, v)
    ensures bits == if v.Some? && v.value.Number? then Some(v.value.bits) else None
  {
    hide WellFormed, HasEdges, IsText;
    if found.None? {
      return None;
    }
    var node := found.value.tree.nodes[found.value.node];
    bits := if node.kind == NumberType then Some(node.bits) else None;
  }

  /** The text that was found. */
  method TextValue(found: Option<Ref>, ghost v: Option<Json>) returns (text: Option<string>)
    requires MayDenote(found, v)
    ensures text == if v.Some? && v.value.String? then Some(v.value.text) else None
  {
    hide WellFormed, HasEdges;
    if found.None? {
      return None;
    }
    var tree := found.value.tree;
    var node := tree.nodes[found.value.node];
    if node.kind != StringType {
      return None;
    }
    text := Some(tree.bytes[node.text.start..node.text.start + node.text.size]);
  }
}
