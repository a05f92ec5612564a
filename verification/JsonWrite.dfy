/** Writing a parsed value from its nodes into a bounded buffer, and looking members up. */
module JsonWrite {
  import opened Options
  import opened Ordering
  import opened Text
  import opened DecimalScales
  import opened DecimalCached
  import DecimalPrinter
  import opened JsonGrammar
  import opened JsonCursor
  import opened JsonTree
  import opened JsonNumber
  import opened JsonPrint
  import opened Escaping
  import opened JsonRoundTrip

  // ---- room for every value --------------------------------------------------------------

  /** Within the writer's limits when standing at this depth. */
  predicate Shallow(v: Json, indent: nat, depth: nat) {
    depth + Height(v) <= DEPTH_LIMIT + 1 && indent <= 16
  }

  lemma {:induction false} ElementShallow(v: Json, k: nat, indent: nat, depth: nat)
    requires IsContainer(v) && k < Size(v) && Shallow(v, indent, depth)
    ensures Shallow(Element(v, k), indent, depth + 1)
  {
    HighestCovers(v, Size(v), k);
  }

  lemma {:induction false} HighestCovers(v: Json, n: nat, k: nat)
    requires IsContainer(v) && k < n <= Size(v)
    ensures Height(Element(v, k)) <= Highest(v, n)
  {
    if k < n - 1 {
      HighestCovers(v, n - 1, k);
    }
  }

  /** Every value within the limits has a print. */
  lemma {:induction false} PrintExists(v: Json, indent: nat, depth: nat)
    requires WellFormed(v) && depth > 0 && Shallow(v, indent, depth)
    ensures exists text :: Prints(v, indent, depth, text)
    decreases v, 1, 0
  {
    hide DecimalPrinter.IsNumeral, Readable, Quote, Height, Lead, Tail, Prints, PrintsParts;
    HeightPositive(v);
    match v
    case Null => ScalarPrints(v, indent, depth, "null");
    case Bool(b) => ScalarPrints(v, indent, depth, if b then "true" else "false");
    case String(t) => ScalarPrints(v, indent, depth, Quote(t, true));
    case Number(bits) =>
      TextExists(bits);
      var text :| DecimalPrinter.IsNumeral(text, bits);
      ScalarPrints(v, indent, depth, text);
    case _ =>
      NoParts(v, indent, depth);
      PartsComplete(v, 0, indent, depth, "");
      var body :| PrintsParts(v, Size(v), indent, depth, body);
      Wrapped(v, indent, depth, body);
  }

  lemma NoParts(v: Json, indent: nat, depth: nat)
    requires IsContainer(v) && depth > 0
    ensures PrintsParts(v, 0, indent, depth, "")
  {}

  /** A printed part extends to the whole. */
  lemma {:induction false} PartsComplete(v: Json, n: nat, indent: nat, depth: nat, body: string)
    requires IsContainer(v) && n <= Size(v) && depth > 0 && WellFormed(v) && Shallow(v, indent, depth)
    requires PrintsParts(v, n, indent, depth, body)
    ensures exists full :: PrintsParts(v, Size(v), indent, depth, full) && |body| <= |full|
    decreases v, 0, Size(v) - n
  {
    if n < Size(v) {
      hide PrintsParts, Prints, Height, Lead;
      ElementShallow(v, n, indent, depth);
      PrintExists(Element(v, n), indent, depth + 1);
      var part :| Prints(Element(v, n), indent, depth + 1, part);
      var more := body + Lead(v, n, indent, depth) + part;
      OnePart(v, n + 1, indent, depth, body, part, more);
      PartsComplete(v, n + 1, indent, depth, more);
    }
  }

  lemma OnePart(v: Json, n: nat, indent: nat, depth: nat, body: string, part: string, more: string)
    requires IsContainer(v) && 0 < n <= Size(v) && depth > 0
    requires PrintsParts(v, n - 1, indent, depth, body) && Prints(Element(v, n - 1), indent, depth + 1, part)
    requires more == body + Lead(v, n - 1, indent, depth) + part
    ensures PrintsParts(v, n, indent, depth, more)
  {
    hide Lead, Prints;
    assert PrintsLast(v, n, indent, depth, body, part, more);
  }

  lemma Wrapped(v: Json, indent: nat, depth: nat, body: string)
    requires IsContainer(v) && depth > 0 && depth <= DEPTH_LIMIT && indent <= 16
             && PrintsParts(v, Size(v), indent, depth, body)
    ensures Prints(v, indent, depth, [if v.Object? then '{' else '['] + body + Tail(v, indent, depth))
  {
    hide Tail;
  }

  /** Some print is longer than what did not fit. */
  lemma {:induction false} TooLong(v: Json, n: nat, indent: nat, depth: nat, body: string) returns (text: string)
    requires IsContainer(v) && n <= Size(v) && depth > 0 && WellFormed(v) && Shallow(v, indent, depth)
    requires PrintsParts(v, n, indent, depth, body)
    ensures Prints(v, indent, depth, text) && |text| >= 1 + |body|
  {
    hide PrintsParts, Height, Tail, WellFormed;
    HeightPositive(v);
    PartsComplete(v, n, indent, depth, body);
    var full :| PrintsParts(v, Size(v), indent, depth, full) && |body| <= |full|;
    Wrapped(v, indent, depth, full);
    text := [if v.Object? then '{' else '['] + full + Tail(v, indent, depth);
  }

  // ---- the writer ------------------------------------------------------------------------

  method WriteQuoted(sink: Writer, text: string) returns (ok: bool)
    requires sink.Valid()
    modifies sink, sink.data
    ensures sink.Valid() && old(sink.View()) <= sink.View()
    ensures ok <==> |Quote(text, true)| <= old(sink.Remaining())
    ensures ok ==> sink.View() == old(sink.View()) + Quote(text, true)
  {
    hide Escape;
    ok := sink.AppendChar('"');
    if ok {
      ok := WriteEscaped(sink, text, true);
      if ok {
        ok := sink.AppendChar('"');
      }
    }
  }

  /** A line break and spaces, in chunks of at most 32. */
  method WriteWhitespace(sink: Writer, count: nat) returns (ok: bool)
    requires sink.Valid()
    modifies sink, sink.data
    ensures sink.Valid() && old(sink.View()) <= sink.View()
    ensures ok <==> 1 + count <= old(sink.Remaining())
    ensures ok ==> sink.View() == old(sink.View()) + ("\n" + Spaces(count))
  {
    ok := sink.AppendChar('\n');
    if !ok || count > sink.Remaining() {
      return false;
    }
    ghost var start := sink.View();
    var left := count;
    while left > 0
      invariant 0 <= left <= count && sink.Valid() && left <= sink.Remaining()
      invariant sink.View() == start + Spaces(count - left)
    {
      var chunk := if left < 32 then left else 32;
      ok := sink.Append(Spaces(chunk));
      assert Spaces(count - left) + Spaces(chunk) == Spaces(count - left + chunk);
      left := left - chunk;
    }
    ok := true;
  }

  /** The comma, indentation and key before a child. */
  method WriteLead(sink: Writer, s: Snapshot, i: nat, k: nat, ghost v: Json, indent: nat, depth: nat) returns (ok: bool)
    requires sink.Valid() && Holds(s, i, v) && IsContainer(v) && k < Size(v)
    modifies sink, sink.data
    ensures sink.Valid() && old(sink.View()) <= sink.View()
    ensures ok <==> |Lead(v, k, indent, depth)| <= old(sink.Remaining())
    ensures ok ==> sink.View() == old(sink.View()) + Lead(v, k, indent, depth)
  {
    hide Quote, Break, KeyText;
    LeadIs(v, k, indent, depth);
    ghost var start := sink.View();
    ghost var lead := (if k > 0 then "," else "") + Break(indent, depth);
    ok := WriteSeparator(sink, k, indent, depth);
    if ok {
      KeyTextIs(v, k, indent);
      if s.nodes[i].kind == ObjectType {
        assert HoldsMember(s, Child(s, i, k), v.members[k]);
        var view := s.nodes[Child(s, i, k)].key;
        ok := WriteKey(sink, s.bytes[view.start..view.start + view.size], indent);
      }
      assert start + lead + KeyText(v, k, indent) == start + (lead + KeyText(v, k, indent));
    }
  }

  lemma KeyTextIs(v: Json, k: nat, indent: nat)
    requires IsContainer(v) && k < Size(v)
    ensures KeyText(v, k, indent)
         == if v.Object? then Quote(v.members[k].key, true) + (if indent > 0 then ": " else ":") else ""
  {
    hide Quote;
  }

  method WriteSeparator(sink: Writer, k: nat, indent: nat, depth: nat) returns (ok: bool)
    requires sink.Valid()
    modifies sink, sink.data
    ensures sink.Valid() && old(sink.View()) <= sink.View()
    ensures var text := (if k > 0 then "," else "") + Break(indent, depth);
            (ok <==> |text| <= old(sink.Remaining())) && (ok ==> sink.View() == old(sink.View()) + text)
  {
    ok := true;
    if k > 0 {
      ok := sink.AppendChar(',');
    }
    if ok && indent > 0 {
      ok := WriteWhitespace(sink, indent * depth);
    }
  }

  method WriteKey(sink: Writer, key: string, indent: nat) returns (ok: bool)
    requires sink.Valid()
    modifies sink, sink.data
    ensures sink.Valid() && old(sink.View()) <= sink.View()
    ensures var text := Quote(key, true) + (if indent > 0 then ": " else ":");
            (ok <==> |text| <= old(sink.Remaining())) && (ok ==> sink.View() == old(sink.View()) + text)
  {
    hide Quote;
    ok := WriteQuoted(sink, key);
    if ok {
      ok := sink.Append(if indent > 0 then ": " else ":");
    }
  }

  /** Write a value: refused above the depth and indentation limits, otherwise complete when it fits. */
  method WriteValue(sink: Writer, s: Snapshot, i: nat, ghost v: Json, indent: nat, depth: nat, scales: array<Wide>)
    returns (ok: bool, ghost text: string)
    requires sink.Valid() && Holds(s, i, v) && WellFormed(v) && depth > 0 && IsScaleTable(scales)
    modifies sink, sink.data
    ensures sink.Valid() && old(sink.View()) <= sink.View()
    ensures ok ==> Shallow(v, indent, depth)
    ensures Shallow(v, indent, depth) ==> Prints(v, indent, depth, text) && (ok <==> |text| <= old(sink.Remaining()))
    ensures ok ==> sink.View() == old(sink.View()) + text
    decreases v, 1, 0
  {
    hide Quote, Height, Highest, Prints, PrintsParts, Readable, DecimalPrinter.IsNumeral, HasEdges, HoldsMember,
        IsScaleTable,
        IsScale;
    ok, text := false, "";
    if depth > DEPTH_LIMIT || indent > 16 {
      HeightPositive(v);
      return;
    }
    match s.nodes[i].kind
    case StringType =>
      var view := s.nodes[i].text;
      text := Quote(v.text, true);
      ok := WriteQuoted(sink, s.bytes[view.start..view.start + view.size]);
      ScalarPrints(v, indent, depth, text);
    case NumberType =>
      NumberIsWord(v.bits);
      ok, text := DecimalPrinter.Write(sink, s.nodes[i].bits, scales);
      ScalarPrints(v, indent, depth, text);
    case BoolType =>
      text := if s.nodes[i].flag then "true" else "false";
      ok := sink.Append(if s.nodes[i].flag then "true" else "false");
      ScalarPrints(v, indent, depth, text);
    case NullType =>
      text := "null";
      ok := sink.Append("null");
      ScalarPrints(v, indent, depth, text);
    case _ =>
      ok, text := WriteContainer(sink, s, i, v, indent, depth, scales);
  }

  lemma HeightPositive(v: Json)
    ensures Height(v) >= 1 && (!IsContainer(v) ==> Height(v) == 1)
  {}

  lemma NumberIsWord(bits: nat)
    requires Readable(bits)
    ensures bits < W64 && DecimalPrinter.IsFinite(bits)
  {}

  lemma ScalarPrints(v: Json, indent: nat, depth: nat, text: string)
    requires 0 < depth <= DEPTH_LIMIT && indent <= 16 && !IsContainer(v)
    requires v.Null? ==> text == "null"
    requires v.Bool? ==> text == if v.value then "true" else "false"
    requires v.Number? ==> DecimalPrinter.IsNumeral(text, v.bits)
    requires v.String? ==> text == Quote(v.text, true)
    ensures Prints(v, indent, depth, text) && Shallow(v, indent, depth)
  {
    hide DecimalPrinter.IsNumeral, Quote;
  }

  method WriteContainer(sink: Writer, s: Snapshot, i: nat, ghost v: Json, indent: nat, depth: nat, scales: array<Wide>)
    returns (ok: bool, ghost text: string)
    requires sink.Valid() && Holds(s, i, v) && WellFormed(v) && IsContainer(v) && IsScaleTable(scales)
    requires 0 < depth <= DEPTH_LIMIT && indent <= 16
    modifies sink, sink.data
    ensures sink.Valid() && old(sink.View()) <= sink.View()
    ensures ok ==> Shallow(v, indent, depth)
    ensures Shallow(v, indent, depth) ==> Prints(v, indent, depth, text) && (ok <==> |text| <= old(sink.Remaining()))
    ensures ok ==> sink.View() == old(sink.View()) + text
    decreases v, 0, 2
  {
    hide Height, Highest, Prints, PrintsParts, Readable, WellFormed, HasEdges, HoldsMember, IsScaleTable, IsScale, Tail,
        Break;
    ghost var start, room := sink.View(), sink.Remaining();
    ghost var open := [if v.Object? then '{' else '['];
    text := "";
    ok := sink.AppendChar(if s.nodes[i].kind == ObjectType then '{' else '[');
    ghost var body, n := "", 0;
    if ok {
      ok, body, n := WriteChildren(sink, s, i, v, indent, depth, scales);
    } else {
      NoParts(v, indent, depth);
    }
    if !ok {
      if Shallow(v, indent, depth) {
        text := TooLong(v, n, indent, depth, body);
      }
      return;
    }
    Wrapped(v, indent, depth, body);
    text := open + body + Tail(v, indent, depth);
    assert sink.View() == start + (open + body);
    ok := WriteTail(sink, s, i, v, indent, depth);
    assert ok ==> sink.View() == start + text;
  }

  method WriteTail(sink: Writer, s: Snapshot, i: nat, ghost v: Json, indent: nat, depth: nat) returns (ok: bool)
    requires sink.Valid() && Holds(s, i, v) && IsContainer(v) && depth > 0
    modifies sink, sink.data
    ensures sink.Valid() && old(sink.View()) <= sink.View()
    ensures ok <==> |Tail(v, indent, depth)| <= old(sink.Remaining())
    ensures ok ==> sink.View() == old(sink.View()) + Tail(v, indent, depth)
  {
    ok := true;
    if indent > 0 && s.nodes[i].count > 0 {
      ok := WriteWhitespace(sink, indent * (depth - 1));
    }
    if ok {
      ok := sink.AppendChar(if s.nodes[i].kind == ObjectType then '}' else ']');
    }
  }

  /** The children in order. When it stops early, what did not fit is part of a print. */
  method WriteChildren(sink: Writer, s: Snapshot, i: nat, ghost v: Json, indent: nat, depth: nat, scales: array<Wide>)
    returns (ok: bool, ghost body: string, ghost n: nat)
    requires sink.Valid() && Holds(s, i, v) && WellFormed(v) && IsContainer(v) && IsScaleTable(scales)
    requires 0 < depth <= DEPTH_LIMIT && indent <= 16
    modifies sink, sink.data
    ensures sink.Valid() && old(sink.View()) <= sink.View()
    ensures ok ==>
            Shallow(v, indent, depth) && PrintsParts(v, Size(v), indent, depth, body)
                && sink.View() == old(sink.View()) + body
    ensures !ok && Shallow(v, indent, depth) ==>
            n <= Size(v) && PrintsParts(v, n, indent, depth, body) && |body| > old(sink.Remaining())
    decreases v, 0, 1
  {
    hide Height, Prints, PrintsParts, Readable, HoldsMember, IsScaleTable, IsScale, Lead, WellFormed;
    ghost var start, room := sink.View(), sink.Remaining();
    ok, body, n := true, "", 0;
    NoParts(v, indent, depth);
    var k: nat := 0;
    while k < s.nodes[i].count
      invariant k == n <= Size(v) && sink.Valid() && sink.View() == start + body && sink.data.Length == |start| + room
      invariant PrintsParts(v, n, indent, depth, body)
      invariant Highest(v, n) + depth <= DEPTH_LIMIT
    {
      ghost var part, before := "", body;
      ok, part := WriteChild(sink, s, i, v, k, indent, depth, scales);
      n := n + 1;
      body := before + Lead(v, k, indent, depth) + part;
      if ok || Shallow(v, indent, depth) {
        OnePart(v, n, indent, depth, before, part, body);
      }
      if !ok {
        return;
      }
      assert sink.View() == start + before + (Lead(v, k, indent, depth) + part) == start + body;
      k := k + 1;
    }
    HeightIs(v);
  }

  method WriteChild(sink: Writer, s: Snapshot, i: nat, ghost v: Json, k: nat, indent: nat, depth: nat,
          scales: array<Wide>)
    returns (ok: bool, ghost part: string)
    requires sink.Valid() && Holds(s, i, v) && WellFormed(v) && IsContainer(v) && k < Size(v) && IsScaleTable(scales)
    requires 0 < depth <= DEPTH_LIMIT && indent <= 16
    modifies sink, sink.data
    ensures sink.Valid() && old(sink.View()) <= sink.View()
    ensures ok ==> Shallow(Element(v, k), indent, depth + 1)
    ensures ok || Shallow(v, indent, depth) ==>
              Prints(Element(v, k), indent, depth + 1, part)
              && (ok <==> |Lead(v, k, indent, depth)| + |part| <= old(sink.Remaining()))
    ensures ok ==> sink.View() == old(sink.View()) + (Lead(v, k, indent, depth) + part)
    decreases v, 0, 0
  {
    hide Height, Prints, Readable, HoldsMember, IsScaleTable, IsScale, Lead, Holds, WellFormed;
    part := "";
    if Shallow(v, indent, depth) {
      ElementShallow(v, k, indent, depth);
    }
    ChildHolds(s, i, v, k);
    ok := WriteLead(sink, s, i, k, v, indent, depth);
    if ok {
      ok, part := WriteValue(sink, s, Child(s, i, k), Element(v, k), indent, depth + 1, scales);
    } else if Shallow(v, indent, depth) {
      PrintExists(Element(v, k), indent, depth + 1);
      part :| Prints(Element(v, k), indent, depth + 1, part);
    }
  }

  lemma HeightIs(v: Json)
    requires IsContainer(v)
    ensures Height(v) == 1 + Highest(v, Size(v))
  {}

  lemma ChildHolds(s: Snapshot, i: nat, v: Json, k: nat)
    requires Holds(s, i, v) && IsContainer(v) && k < Size(v) && WellFormed(v)
    ensures HasEdges(s, i, Size(v)) && Holds(s, Child(s, i, k), Element(v, k)) && WellFormed(Element(v, k))
  {
    if v.Object? {
      assert HoldsMember(s, Child(s, i, k), v.members[k]);
    }
  }

  /** Any accepted document is within the writer's limits: at the root, and where an object's
    * members are written from depth 2. */
  lemma AcceptedIsShallow(read: Reader, source: string, indent: nat)
    requires IsReader(read) && Fits(ParseText(read, source), 0) && indent <= 16
    ensures var v := ParseText(read, source).value.value;
            Shallow(v, indent, 1)
                && (IsContainer(v) ==> forall k :: 0 <= k < Size(v) ==> Shallow(Element(v, k), indent, 2))
  {
    hide ParseText, IsReader, WellFormed, Height;
    var v := ParseText(read, source).value.value;
    ParsedIsPrintable(read, source);
    if IsContainer(v) {
      forall k | 0 <= k < Size(v)
        ensures Shallow(Element(v, k), indent, 2)
      {
        ElementShallow(v, k, indent, 1);
      }
    }
  }

  // ---- looking a member up ---------------------------------------------------------------

  lemma {:induction false} LookupAt<V>(members: seq<Member<V>>, k: nat)
    requires Sorted(members) && k < |members|
    ensures Lookup(members, members[k].key) == Some(members[k].value)
  {
    hide Less;
    if k > 0 {
      assert Less(members[0].key, members[k].key);
      LessIrreflexive(members[k].key);
      LookupAt(members[1..], k - 1);
    }
  }

  lemma {:induction false} LookedUpIsMember<V>(members: seq<Member<V>>, key: string)
    requires Lookup(members, key).Some?
    ensures exists i :: 0 <= i < |members| && members[i] == Member(key, Lookup(members, key).value)
  {
    if members[0].key != key {
      LookedUpIsMember(members[1..], key);
      var i :| 0 <= i < |members[1..]| && members[1..][i] == Member(key, Lookup(members, key).value);
      assert members[i + 1] == Member(key, Lookup(members, key).value);
    } else {
      assert members[0] == Member(key, Lookup(members, key).value);
    }
  }

  lemma {:induction false} LookupNone<V>(members: seq<Member<V>>, key: string)
    requires forall k :: 0 <= k < |members| ==> members[k].key != key
    ensures Lookup(members, key).None?
  {
    if members != [] {
      LookupNone(members[1..], key);
    }
  }

  /** Binary search over an object's sorted edges finds what a search of all members would. */
  method Find(s: Snapshot, i: nat, ghost v: Json, key: string) returns (r: Option<nat>)
    requires Holds(s, i, v) && WellFormed(v)
    ensures !v.Object? ==> r.None?
    ensures v.Object? ==> (r.Some? <==> Lookup(v.members, key).Some?)
    ensures v.Object? && r.Some? ==> Holds(s, r.value, Lookup(v.members, key).value)
  {
    hide Less, HoldsMember, Lookup;
    if s.nodes[i].kind != ObjectType {
      return None;
    }
    ghost var members := v.members;
    var low, high := 0, s.nodes[i].count;
    while low < high
      invariant 0 <= low <= high <= |members|
      invariant forall k :: 0 <= k < low ==> Less(members[k].key, key)
      invariant forall k :: high <= k < |members| ==> !Less(members[k].key, key)
    {
      var middle := low + (high - low) / 2;
      var here := ReadKeyOf(s, i, middle, v);
      MembersPartition(members, middle, key);
      if Less(here, key) {
        low := middle + 1;
      } else {
        high := middle;
      }
    }
    if low < s.nodes[i].count {
      var here := ReadKeyOf(s, i, low, v);
      if here == key {
        LookupAt(members, low);
        ChildHolds(s, i, v, low);
        return Some(Child(s, i, low));
      }
    }
    BoundIsKey(members, low, key);
    LookupNone(members, key);
    return None;
  }

  method ReadKeyOf(s: Snapshot, i: nat, k: nat, ghost v: Json) returns (key: string)
    requires Holds(s, i, v) && v.Object? && k < |v.members|
    ensures key == v.members[k].key
  {
    assert HoldsMember(s, Child(s, i, k), v.members[k]);
    var view := s.nodes[Child(s, i, k)].key;
    key := s.bytes[view.start..view.start + view.size];
  }

  lemma MembersPartition<V>(members: seq<Member<V>>, middle: nat, key: string)
    requires Sorted(members) && middle < |members|
    ensures Less(members[middle].key, key) ==> forall k :: 0 <= k <= middle ==> Less(members[k].key, key)
    ensures !Less(members[middle].key, key) ==> forall k :: middle <= k < |members| ==> !Less(members[k].key, key)
  {
    hide Less;
    forall j, k | 0 <= j < k < |members| && Less(members[k].key, key)
      ensures Less(members[j].key, key)
    {
      LessTransitive(members[j].key, members[k].key, key);
    }
  }

  lemma BoundIsKey<V>(members: seq<Member<V>>, low: nat, key: string)
    requires Sorted(members) && low <= |members| && (low < |members| ==> members[low].key != key)
    requires forall k :: 0 <= k < low ==> Less(members[k].key, key)
    requires forall k :: low <= k < |members| ==> !Less(members[k].key, key)
    ensures forall k :: 0 <= k < |members| ==> members[k].key != key
  {
    hide Less;
    LessIrreflexive(key);
    forall k | low < k < |members|
      ensures members[k].key != key
    {
      assert Less(members[low].key, members[k].key);
    }
  }
}
