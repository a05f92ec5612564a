/** Writing the three-way merge of two parsed objects and a journal of edits as text. */
module SettingsWriter {
  import opened Options
  import opened Ordering
  import opened Text
  import opened DecimalScales
  import opened DecimalCached
  import DecimalPrinter
  import opened JsonGrammar
  import opened JsonCursor
  import opened JsonTree
  import opened JsonNumber
  import opened JsonPrint
  import opened JsonWrite
  import opened Escaping
  import opened SettingsMerge
  import opened SettingsInput

  /** A journal entry: removal, a borrowed subtree, or a new scalar. */
  datatype Edit = Delete | Copy(ref: Ref) | Scalar(value: Json)

  ghost predicate Means(e: Edit, c: Change) {
    match e
    case Delete => c.Removed?
    case Copy(ref) => c.Set? && Denotes(ref, c.value)
    case Scalar(v) => c == Set(v) && !IsContainer(v) && WellFormed(v)
  }

  ghost predicate AllMean(edits: seq<Member<Edit>>, changes: seq<Member<Change>>) {
    |edits| == |changes| && forall k :: 0 <= k < |edits| ==>
        edits[k].key == changes[k].key && Means(edits[k].value, changes[k].value)
  }

  /** The members of an object; a value of another type has none. */
  ghost function MembersOf(v: Option<Json>): seq<Member<Json>> {
    if v.Some? && v.value.Object? then v.value.members else []
  }

  const JOURNAL_SIZE: nat := 16

  /** A journal of edits over a patch over an original value. */
  class ObjectWriter {
    const source: Ref
    const overlay: Option<Ref>
    const edits: array<Member<Edit>>
    var size: nat
    ghost const original: Json
    ghost const patch: Option<Json>
    ghost var changes: seq<Member<Change>>

    ghost predicate Valid()
      reads this, edits
    {
      && edits.Length == JOURNAL_SIZE && size <= JOURNAL_SIZE
      && Denotes(source, original) && MayDenote(overlay, patch)
      && Sorted(changes) && AllMean(edits[..size], changes)
    }

    constructor (source: Ref, overlay: Option<Ref>, ghost original: Json, ghost patch: Option<Json>)
      requires Denotes(source, original) && MayDenote(overlay, patch)
      ensures Valid() && changes == [] && size == 0 && fresh(edits)
      ensures this.source == source && this.overlay == overlay && this.original == original && this.patch == patch
    {
      this.source, this.overlay, this.original, this.patch := source, overlay, original, patch;
      edits := new Member<Edit>[JOURNAL_SIZE](_ => Member("", Delete));
      size, changes := 0, [];
    }

    /** The writer merges these two objects. */
    ghost predicate For(root: seq<Member<Json>>, members: seq<Member<Json>>) {
      original == Object(root) && patch == Some(Object(members))
    }

    /** Insert an edit in key order, or overwrite the edit of its key; no room is the only failure. */
    method Replace(key: string, edit: Edit, ghost change: Change) returns (ok: bool)
      requires Valid() && Means(edit, change)
      modifies this, edits
      ensures Valid() && size <= old(size) + 1
      ensures ok <==> old(size) < 16 || Lookup(old(changes), key).Some?
      ensures changes == if ok then Put(old(changes), key, change) else old(changes)
    {
      hide Less, Put, Lookup, Sorted, Means, Denotes, AllMean, MayDenote;
      ghost var before, meant := edits[..size], changes;
      EditKeys(before, meant);
      var i := Place(key);
      PutAt(meant, i, key, change);
      PutSorted(meant, key, change);
      if i == size || edits[i].key != key {
        if size == edits.Length {
          return false;
        }
        Shift(i);
        SetAt(i, Member(key, edit), before[..i], before[i..]);
        MeanInserted(before, meant, i, Member(key, edit), Member(key, change), i);
      } else {
        assert edits[..i] == before[..i];
        Overwrite(i, Member(key, edit));
        MeanInserted(before, meant, i, Member(key, edit), Member(key, change), i + 1);
      }
      changes := Put(meant, key, change);
      return true;
    }

    /** The first edit whose key is not smaller. */
    method Place(key: string) returns (i: nat)
      requires Valid()
      ensures i <= size && (forall k :: 0 <= k < i ==> Less(changes[k].key, key))
              && (i < size ==> !Less(changes[i].key, key))
      ensures i < size ==> edits[i].key == changes[i].key
    {
      hide Less, Means, Denotes;
      i := 0;
      while i < size && Less(edits[i].key, key)
        invariant i <= size && forall k :: 0 <= k < i ==> Less(changes[k].key, key)
      {
        assert edits[..size][i].key == changes[i].key;
        i := i + 1;
      }
      assert i < size ==> edits[..size][i].key == changes[i].key;
    }

    method Overwrite(i: nat, edit: Member<Edit>)
      requires i < size <= edits.Length
      modifies edits
      ensures edits[..size] == old(edits[..i]) + [edit] + old(edits[..size])[i + 1..]
    {
      edits[i] := edit;
    }

    /** Write one slot between two parts that are in place; the journal then has one entry more. */
    method SetAt(i: nat, edit: Member<Edit>, ghost front: seq<Member<Edit>>, ghost back: seq<Member<Edit>>)
      requires size < edits.Length && i <= size && edits[..i] == front && edits[i + 1..size + 1] == back
      modifies this`size, edits
      ensures size == old(size) + 1 && edits[..size] == front + [edit] + back
    {
      size := size + 1;
      edits[i] := edit;
      assert edits[..size] == edits[..i] + [edits[i]] + edits[i + 1..size];
    }

    /** Make room at a place of the journal. */
    method Shift(i: nat)
      requires i <= size < edits.Length
      modifies edits
      ensures edits[..i] == old(edits[..i]) && edits[i + 1..size + 1] == old(edits[i..size])
    {
      var j := size;
      while j > i
        invariant i <= j <= size
        invariant edits[..j] == old(edits[..j])
        invariant edits[j + 1..size + 1] == old(edits[j..size])
      {
        edits[j] := edits[j - 1];
        j := j - 1;
      }
    }

    /** The merged members. */
    ghost function Members(): seq<Member<Json>>
      reads this
    {
      Merged(MembersOf(Some(original)), MembersOf(patch), changes)
    }

    /** Both values are objects; anything else is refused. */
    predicate Mergeable() {
      IsObject(source) && (overlay.Some? ==> IsObject(overlay.value))
    }

    /** The merged object as text: refused above the writer's limits, otherwise complete when it fits. */
    method WriteEach(sink: Writer, indent: nat, scales: array<Wide>) returns (ok: bool, ghost text: string)
      requires Valid() && sink.Valid() && IsScaleTable(scales)
      modifies sink, sink.data
      ensures sink.Valid() && old(sink.View()) <= sink.View()
      ensures Mergeable() <==> original.Object? && (patch.Some? ==> patch.value.Object?)
      ensures ok ==> Mergeable() && Shallow(Object(Members()), indent, 1) && sink.View() == old(sink.View()) + text
      ensures Mergeable() && Shallow(Object(Members()), indent, 1) ==>
                Prints(Object(Members()), indent, 1, text) && (ok <==> |text| <= old(sink.Remaining()))
    {
      hide Height, Highest, Prints, PrintsParts, WellFormed, IsScaleTable, IsScale, Tail, Break, Merged, Holds, Shallow;
      ok, text := false, "";
      ObjectKind(source, original);
      if overlay.Some? {
        ObjectKind(overlay.value, patch.value);
      }
      ghost var v := Object(Members());
      ShallowIndent(v, indent);
      if !Mergeable() || indent > 16 {
        return;
      }
      MembersWellFormed(original, patch, edits[..size], changes);
      ghost var start := sink.View();
      ghost var body, n := "", 0;
      NoParts(v, indent, 1);
      var first := true;
      ok := sink.AppendChar('{');
      if ok {
        ok, first, body, n := WriteMembers(sink, indent, scales);
      }
      if !ok {
        if Shallow(v, indent, 1) {
          text := TooLong(v, n, indent, 1, body);
        }
        return;
      }
      Wrapped(v, indent, 1, body);
      text := "{" + body + Tail(v, indent, 1);
      assert sink.View() == start + ("{" + body);
      ok := WriteEnd(sink, v, indent, first);
      assert ok ==> sink.View() == start + text;
    }

    /** The members in key order. When it stops early, what did not fit is part of a print. */
    method WriteMembers(sink: Writer, indent: nat, scales: array<Wide>)
      returns (ok: bool, first: bool, ghost body: string, ghost n: nat)
      requires Valid() && sink.Valid() && IsScaleTable(scales) && indent <= 16
      requires original.Object? && (patch.Some? ==> patch.value.Object?) && WellFormed(Object(Members()))
      modifies sink, sink.data
      ensures sink.Valid() && old(sink.View()) <= sink.View()
      ensures ok ==> var v := Object(Members());
                Shallow(v, indent, 1) && PrintsParts(v, Size(v), indent, 1, body)
                && sink.View() == old(sink.View()) + body && (first <==> Size(v) == 0)
      ensures !ok && Shallow(Object(Members()), indent, 1) ==>
                var v := Object(Members());
                n <= Size(v) && PrintsParts(v, n, indent, 1, body) && |body| > old(sink.Remaining())
    {
      hide Height, Prints, PrintsParts, IsScaleTable, IsScale, Lead, WellFormed, Merged, HeadKey, HeadValue, Past,
          Select,
           Denotes, AllMean, Chosen, MayDenote, Shallow, Sorted;
      ghost var start, room, v := sink.View(), sink.Remaining(), Object(Members());
      ok, first, body, n := true, true, "", 0;
      NoParts(v, indent, 1);
      var os, ps := ChildCount(source), if overlay.Some? then ChildCount(overlay.value) else 0;
      CountsAre(source, overlay, original, patch);
      ghost var a, b, c := original.members, MembersOf(patch), changes;
      var o: nat, p: nat, e: nat := 0, 0, 0;
      AllMeanLength(edits[..size], changes);
      assert a[0..] == a && b[0..] == b && c[0..] == c;
      while o < os || p < ps || e < size
        invariant o <= |a| && p <= |b| && e <= size && n <= |v.members| && (first <==> n == 0)
        invariant v.members[n..] == Merged(a[o..], b[p..], c[e..])
        invariant sink.Valid() && sink.View() == start + body && sink.data.Length == |start| + room
        invariant PrintsParts(v, n, indent, 1, body) && Highest(v, n) + 1 <= DEPTH_LIMIT
        decreases |a| - o + |b| - p + size - e
      {
        var key, selected, edit;
        ghost var value;
        key, selected, edit, o, p, e, value := NextMember(v.members, n, o, p, e);
        if edit == Some(Delete) {
          continue;
        }
        ok, n, body := WriteNext(sink, first, n, body, start, key, selected, edit, v, indent, scales);
        if !ok {
          return;
        }
        first := false;
      }
      EmptyMerge(a, b, c, o, p, e);
      ShallowContainer(v, indent);
    }

    // ---- one pass over the three lists ---------------------------------------------------

    /** Take the smallest key off the lists: either it is deleted, or it is the next merged member. */
    method NextMember(ghost members: seq<Member<Json>>, ghost n: nat, o0: nat, p0: nat, e0: nat)
      returns (key: string, selected: Option<Ref>, edit: Option<Edit>, o: nat, p: nat, e: nat,
            ghost value: Option<Json>)
      requires Valid() && original.Object? && (patch.Some? ==> patch.value.Object?)
      requires o0 <= |original.members| && p0 <= |MembersOf(patch)| && e0 <= size
      requires o0 < |original.members| || p0 < |MembersOf(patch)| || e0 < size
      requires n <= |members|
      requires members[n..] == Merged(original.members[o0..], MembersOf(patch)[p0..], changes[e0..])
      ensures o0 <= o <= |original.members| && p0 <= p <= |MembersOf(patch)| && e0 <= e <= size
      ensures o + p + e > o0 + p0 + e0
      ensures Chosen(selected, edit, value) && (edit == Some(Delete) <==> value.None?)
      ensures value.Some? ==> n < |members| && members[n] == Member(key, value.value)
      ensures members[if value.Some? then n + 1 else n..]
              == Merged(original.members[o..], MembersOf(patch)[p..], changes[e..])
    {
      hide Less, HeadKey, HeadValue, Past, Select, WellFormed, Means, Merged, Chosen, Holds;
      MergedStep(original.members[o0..], MembersOf(patch)[p0..], changes[e0..]);
      key, selected, edit, o, p, e, value := TakeHead(o0, p0, e0);
      ChosenDelete(selected, edit, value);
      if value.Some? {
        assert members[n] == members[n..][0];
        assert members[n + 1..] == members[n..][1..];
      }
    }

    /** The smallest key, what the merge selects for it, and where the lists go on. */
    method TakeHead(o0: nat, p0: nat, e0: nat)
      returns (key: string, selected: Option<Ref>, edit: Option<Edit>, o: nat, p: nat, e: nat,
            ghost value: Option<Json>)
      requires Valid() && original.Object? && (patch.Some? ==> patch.value.Object?)
      requires o0 <= |original.members| && p0 <= |MembersOf(patch)| && e0 <= size
      requires o0 < |original.members| || p0 < |MembersOf(patch)| || e0 < size
      ensures o0 <= o <= |original.members| && p0 <= p <= |MembersOf(patch)| && e0 <= e <= size
      ensures o + p + e > o0 + p0 + e0
      ensures key == HeadKey(original.members[o0..], MembersOf(patch)[p0..], changes[e0..])
      ensures value == Select(HeadValue(original.members[o0..], key), HeadValue(MembersOf(patch)[p0..], key),
                              HeadValue(changes[e0..], key))
      ensures Past(original.members[o0..], key) == original.members[o..]
      ensures Past(MembersOf(patch)[p0..], key) == MembersOf(patch)[p..]
      ensures Past(changes[e0..], key) == changes[e..]
      ensures Chosen(selected, edit, value)
    {
      hide Less, HeadKey, HeadValue, Past, Select, Denotes, Means, Heads, Chosen, AllMean, Sorted;
      AllMeanLength(edits[..size], changes);
      ghost var os, ps := original.members, MembersOf(patch);
      key := SmallestKey(o0, p0, e0);
      HeadIsHead(os[o0..], ps[p0..], changes[e0..]);
      var child;
      child, o := TakeChild(source, original, o0, key);
      selected, p := child, p0;
      if overlay.Some? {
        child, p := TakeChild(overlay.value, patch.value, p0, key);
        selected := if child.Some? then child else selected;
      } else {
        PastAt(ps, p0, key);
      }
      edit, e := TakeEdit(e0, key);
      ghost var a, b, c := HeadValue(os[o0..], key), HeadValue(ps[p0..], key), HeadValue(changes[e0..], key);
      value := Select(a, b, c);
      SelectIs(a, b, c);
      HeadsHaveValues(os[o0..], key);
      HeadsHaveValues(ps[p0..], key);
      HeadsHaveValues(changes[e0..], key);
      ChosenIs(selected, edit, value);
    }

    /** The next edit, if its key is this one. */
    method TakeEdit(e0: nat, key: string) returns (edit: Option<Edit>, e: nat)
      requires Valid() && e0 <= size
      ensures edit.Some? <==> HeadValue(changes[e0..], key).Some?
      ensures edit.Some? ==> Means(edit.value, HeadValue(changes[e0..], key).value)
      ensures e == (if edit.Some? then e0 + 1 else e0) <= size && Past(changes[e0..], key) == changes[e..]
    {
      hide Less, HeadValue, Past, Denotes, Means, Heads;
      PastAt(changes, e0, key);
      EditKeys(edits[..size], changes);
      edit, e := None, e0;
      if e0 < size && edits[e0].key == key {
        EditMeans(edits[..size], changes, e0);
        edit, e := Some(edits[e0].value), e0 + 1;
      }
    }

    /** The smallest key still to come. */
    method SmallestKey(o: nat, p: nat, e: nat) returns (key: string)
      requires Valid() && original.Object? && (patch.Some? ==> patch.value.Object?)
      requires o <= |original.members| && p <= |MembersOf(patch)| && e <= size
      requires o < |original.members| || p < |MembersOf(patch)| || e < size
      ensures key == HeadKey(original.members[o..], MembersOf(patch)[p..], changes[e..])
    {
      hide Less, WellFormed, Means;
      EditKeys(edits[..size], changes);
      key := "";
      if o < ChildCount(source) {
        key := ReadKeyOf(source.tree, source.node, o, original);
      } else if overlay.Some? && p < ChildCount(overlay.value) {
        key := ReadKeyOf(overlay.value.tree, overlay.value.node, p, patch.value);
      } else {
        key := edits[e].key;
      }
      if overlay.Some? && p < ChildCount(overlay.value) {
        var next := ReadKeyOf(overlay.value.tree, overlay.value.node, p, patch.value);
        if Less(next, key) {
          key := next;
        }
      }
      if e < size && Less(edits[e].key, key) {
        key := edits[e].key;
      }
    }
  }

  /** What was found at a key stands for the merged value: an edit if there is one, else a subtree. */
  ghost predicate Chosen(selected: Option<Ref>, edit: Option<Edit>, value: Option<Json>) {
    match edit
    case Some(e) => (e.Delete? <==> value.None?) && (value.Some? ==> Means(e, Set(value.value)))
    case None => value.Some? && MayDenote(selected, value)
  }

  lemma ChosenIs(selected: Option<Ref>, edit: Option<Edit>, value: Option<Json>)
    requires edit.Some? ==> if value.Some? then Means(edit.value, Set(value.value)) else Means(edit.value, Removed)
    requires edit.None? ==> value.Some? && MayDenote(selected, value)
    ensures Chosen(selected, edit, value)
  {
    hide WellFormed, Holds;
  }

  lemma EditMeans(edits: seq<Member<Edit>>, changes: seq<Member<Change>>, k: nat)
    requires AllMean(edits, changes) && k < |edits|
    ensures edits[k].key == changes[k].key && Means(edits[k].value, changes[k].value)
  {
    hide Means;
  }

  lemma HeadsHaveValues<V>(s: seq<Member<V>>, key: string)
    ensures Heads(s, key) <==> HeadValue(s, key).Some?
  {}

  /** The next child of an object, if its key is this one. */
  method TakeChild(r: Ref, ghost v: Json, k: nat, key: string) returns (child: Option<Ref>, next: nat)
    requires Denotes(r, v) && v.Object? && k <= |v.members|
    ensures MayDenote(child, HeadValue(v.members[k..], key))
    ensures next == (if child.Some? then k + 1 else k) <= |v.members| && Past(v.members[k..], key) == v.members[next..]
  {
    hide HoldsMember, WellFormed, HeadValue, Past, Heads;
    PastAt(v.members, k, key);
    if k >= ChildCount(r) {
      return None, k;
    }
    ChildHolds(r.tree, r.node, v, k);
    var found := ReadKeyOf(r.tree, r.node, k, v);
    if found != key {
      return None, k;
    }
    return Some(Ref(r.tree, Child(r.tree, r.node, k))), k + 1;
  }

  lemma ShallowIndent(v: Json, indent: nat)
    ensures Shallow(v, indent, 1) ==> indent <= 16
  {}

  lemma ShallowHeight(v: Json, indent: nat, depth: nat)
    requires Shallow(v, indent, depth)
    ensures depth + Height(v) <= DEPTH_LIMIT + 1
  {}

  lemma ShallowContainer(v: Json, indent: nat)
    requires IsContainer(v) && Highest(v, Size(v)) + 1 <= DEPTH_LIMIT && indent <= 16
    ensures Shallow(v, indent, 1)
  {
    HeightIs(v);
  }

  lemma AllMeanLength(edits: seq<Member<Edit>>, changes: seq<Member<Change>>)
    requires AllMean(edits, changes)
    ensures |edits| == |changes|
  {}

  lemma CountsAre(source: Ref, overlay: Option<Ref>, original: Json, patch: Option<Json>)
    requires Denotes(source, original) && MayDenote(overlay, patch) && original.Object?
             && (patch.Some? ==> patch.value.Object?)
    ensures ChildCount(source) == |original.members|
    ensures (if overlay.Some? then ChildCount(overlay.value) else 0) == |MembersOf(patch)|
  {
    hide WellFormed;
  }

  lemma ChosenDelete(selected: Option<Ref>, edit: Option<Edit>, value: Option<Json>)
    requires Chosen(selected, edit, value)
    ensures edit == Some(Delete) <==> value.None?
  {
    hide Means, MayDenote;
  }

  /** The end of the object. */
  method WriteEnd(sink: Writer, ghost v: Json, indent: nat, first: bool) returns (ok: bool)
    requires sink.Valid() && v.Object? && (first <==> Size(v) == 0)
    modifies sink, sink.data
    ensures sink.Valid() && old(sink.View()) <= sink.View()
    ensures ok <==> |Tail(v, indent, 1)| <= old(sink.Remaining())
    ensures ok ==> sink.View() == old(sink.View()) + Tail(v, indent, 1)
  {
    ok := true;
    if indent > 0 && !first {
      ok := WriteWhitespace(sink, 0);
    }
    if ok {
      ok := sink.AppendChar('}');
    }
  }

  /** One member: comma, indentation, key and value. */
  method WriteMember(sink: Writer, first: bool, ghost n: nat, key: string, selected: Option<Ref>, edit: Option<Edit>,
          ghost v: Json, indent: nat, scales: array<Wide>)
    returns (ok: bool, ghost part: string)
    requires sink.Valid() && IsScaleTable(scales) && indent <= 16 && v.Object? && n < |v.members| && (first <==> n == 0)
    requires v.members[n].key == key && Chosen(selected, edit, Some(v.members[n].value)) && WellFormed(v)
    modifies sink, sink.data
    ensures sink.Valid() && old(sink.View()) <= sink.View()
    ensures ok ==> Shallow(Element(v, n), indent, 2)
    ensures ok || Shallow(v, indent, 1) ==>
              Prints(Element(v, n), indent, 2, part)
                  && (ok <==> |Lead(v, n, indent, 1)| + |part| <= old(sink.Remaining()))
    ensures ok ==> sink.View() == old(sink.View()) + (Lead(v, n, indent, 1) + part)
  {
    hide Height, Prints, IsScaleTable, IsScale, WellFormed, Chosen, Lead, Shallow;
    part := "";
    if Shallow(v, indent, 1) {
      ElementShallow(v, n, indent, 1);
    }
    ElementFormed(v, n);
    ok := WriteMemberLead(sink, first, n, key, v, indent);
    if ok {
      ok, part := WriteField(sink, selected, edit, v.members[n].value, indent, scales);
    } else if Shallow(v, indent, 1) {
      PrintExists(Element(v, n), indent, 2);
      part :| Prints(Element(v, n), indent, 2, part);
    }
  }

  method WriteMemberLead(sink: Writer, first: bool, ghost n: nat, key: string, ghost v: Json, indent: nat)
    returns (ok: bool)
    requires sink.Valid() && v.Object? && n < |v.members| && (first <==> n == 0) && v.members[n].key == key
    modifies sink, sink.data
    ensures sink.Valid() && old(sink.View()) <= sink.View()
    ensures ok <==> |Lead(v, n, indent, 1)| <= old(sink.Remaining())
    ensures ok ==> sink.View() == old(sink.View()) + Lead(v, n, indent, 1)
  {
    hide Quote, Break, KeyText;
    LeadIs(v, n, indent, 1);
    KeyTextIs(v, n, indent);
    ghost var start, lead := sink.View(), (if n > 0 then "," else "") + Break(indent, 1);
    ok := WriteSeparator(sink, if first then 0 else 1, indent, 1);
    if ok {
      ok := WriteKey(sink, key, indent);
      assert start + lead + KeyText(v, n, indent) == start + (lead + KeyText(v, n, indent));
    }
  }

  /** One member after those written so far. */
  method WriteNext(sink: Writer, first: bool, ghost n: nat, ghost before: string, ghost start: string, key: string,
          selected: Option<Ref>, edit: Option<Edit>, ghost v: Json, indent: nat, scales: array<Wide>)
    returns (ok: bool, ghost m: nat, ghost body: string)
    requires sink.Valid() && IsScaleTable(scales) && indent <= 16 && v.Object? && n < |v.members| && (first <==> n == 0)
    requires v.members[n].key == key && Chosen(selected, edit, Some(v.members[n].value)) && WellFormed(v)
    requires PrintsParts(v, n, indent, 1, before) && Highest(v, n) + 1 <= DEPTH_LIMIT
    requires sink.View() == start + before
    modifies sink, sink.data
    ensures sink.Valid() && old(sink.View()) <= sink.View() && m == n + 1
    ensures ok || Shallow(v, indent, 1) ==> PrintsParts(v, m, indent, 1, body)
    ensures ok ==> sink.View() == start + body && Highest(v, m) + 1 <= DEPTH_LIMIT
    ensures !ok && Shallow(v, indent, 1) ==> |start + body| > sink.data.Length
  {
    hide Height, Prints, PrintsParts, IsScaleTable, IsScale, WellFormed, Chosen, Shallow, Lead, Highest;
    ghost var part;
    ok, part := WriteMember(sink, first, n, key, selected, edit, v, indent, scales);
    m := n + 1;
    body := before + Lead(v, n, indent, 1) + part;
    if ok || Shallow(v, indent, 1) {
      OnePart(v, m, indent, 1, before, part, body);
    }
    if ok {
      assert sink.View() == start + before + (Lead(v, n, indent, 1) + part) == start + body;
      ShallowHeight(Element(v, n), indent, 2);
      HighestStep(v, n);
    }
  }

  lemma HighestStep(v: Json, n: nat)
    requires IsContainer(v) && n < Size(v) && Highest(v, n) + 1 <= DEPTH_LIMIT
             && 1 + Height(Element(v, n)) <= DEPTH_LIMIT
    ensures Highest(v, n + 1) + 1 <= DEPTH_LIMIT
  {}

  /** A field: the edit if there is one, else the subtree selected. */
  method WriteField(sink: Writer, selected: Option<Ref>, edit: Option<Edit>, ghost w: Json, indent: nat,
          scales: array<Wide>)
    returns (ok: bool, ghost text: string)
    requires sink.Valid() && IsScaleTable(scales) && indent <= 16 && Chosen(selected, edit, Some(w))
    modifies sink, sink.data
    ensures sink.Valid() && old(sink.View()) <= sink.View()
    ensures ok ==> Shallow(w, indent, 2) && sink.View() == old(sink.View()) + text
    ensures Shallow(w, indent, 2) ==> Prints(w, indent, 2, text) && (ok <==> |text| <= old(sink.Remaining()))
  {
    hide Holds, WellFormed, Prints, Shallow, IsScaleTable, IsScale;
    if edit.None? {
      ok, text := WriteValue(sink, selected.value.tree, selected.value.node, w, indent, 2, scales);
    } else {
      match edit.value
      case Copy(ref) => ok, text := WriteValue(sink, ref.tree, ref.node, w, indent, 2, scales);
      case Scalar(x) => ok, text := WriteScalar(sink, x, indent, scales);
    }
  }

  /** A new scalar value. */
  method WriteScalar(sink: Writer, v: Json, indent: nat, scales: array<Wide>) returns (ok: bool, ghost text: string)
    requires sink.Valid() && IsScaleTable(scales) && indent <= 16 && !IsContainer(v) && WellFormed(v)
    modifies sink, sink.data
    ensures sink.Valid() && old(sink.View()) <= sink.View()
    ensures Shallow(v, indent, 2) && Prints(v, indent, 2, text) && (ok <==> |text| <= old(sink.Remaining()))
    ensures ok ==> sink.View() == old(sink.View()) + text
  {
    hide Prints, Shallow, IsScaleTable, IsScale, Quote, Readable, DecimalPrinter.IsNumeral;
    match v {
      case String(t) =>
        text := Quote(t, true);
        ok := WriteQuoted(sink, t);
      case Bool(b) =>
        text := if b then "true" else "false";
        ok := sink.Append(if b then "true" else "false");
      case Number(bits) =>
        NumberIsWord(bits);
        ok, text := DecimalPrinter.Write(sink, bits, scales);
      case Null =>
        text := "null";
        ok := sink.Append("null");
    }
    ScalarPrints(v, indent, 2, text);
  }

  /** The merge of printable values is printable. */
  lemma MembersWellFormed(original: Json, patch: Option<Json>, edits: seq<Member<Edit>>, changes: seq<Member<Change>>)
    requires WellFormed(original) && (patch.Some? ==> WellFormed(patch.value)) && Sorted(changes)
             && AllMean(edits, changes)
    ensures WellFormed(Object(Merged(MembersOf(Some(original)), MembersOf(patch), changes)))
  {
    hide Less, Readable, Merged;
    var a, b := MembersOf(Some(original)), MembersOf(patch);
    MergedSorted(a, b, changes);
    var v := Object(Merged(a, b, changes));
    forall k | 0 <= k < Size(v)
      ensures WellFormed(Element(v, k))
    {
      var value := v.members[k].value;
      MergedValues(a, b, changes, v.members[k]);
      if i :| 0 <= i < |a| && a[i].value == value {
        assert WellFormed(Element(original, i));
      } else if i :| 0 <= i < |b| && b[i].value == value {
        assert WellFormed(Element(patch.value, i));
      } else {
        var i :| 0 <= i < |changes| && changes[i].value == Set(value);
        EditMeans(edits, changes, i);
        assert Means(edits[i].value, Set(value));
      }
    }
  }

  ghost predicate HasValue<V>(s: seq<Member<V>>, value: V) { exists i :: 0 <= i < |s| && s[i].value == value }

  lemma PastHasValue<V>(s: seq<Member<V>>, key: string, value: V)
    ensures HasValue(Past(s, key), value) ==> HasValue(s, value)
    ensures HeadValue(s, key) == Some(value) ==> HasValue(s, value)
  {
    var rest := Past(s, key);
    if i :| 0 <= i < |rest| && rest[i].value == value {
      assert Heads(s, key) ==> s[i + 1] == rest[i];
    }
  }

  /** Every merged value comes from one of the three lists. */
  lemma {:induction false} MergedValues(original: seq<Member<Json>>, patch: seq<Member<Json>>,
          edits: seq<Member<Change>>, m: Member<Json>)
    requires m in Merged(original, patch, edits)
    ensures HasValue(original, m.value) || HasValue(patch, m.value) || HasValue(edits, Set(m.value))
    decreases |original| + |patch| + |edits|
  {
    hide Less, HeadKey, HeadValue, Past, HasValue, Select, Merged;
    if original == [] && patch == [] && edits == [] {
      EmptyMerge(original, patch, edits, 0, 0, 0);
    } else {
      var key := HeadKey(original, patch, edits);
      MergedStep(original, patch, edits);
      SelectIs(HeadValue(original, key), HeadValue(patch, key), HeadValue(edits, key));
      var rest := Merged(Past(original, key), Past(patch, key), Past(edits, key));
      PastHasValue(original, key, m.value);
      PastHasValue(patch, key, m.value);
      PastHasValue(edits, key, Set(m.value));
      if m in rest {
        MergedValues(Past(original, key), Past(patch, key), Past(edits, key), m);
      }
    }
  }

  lemma EditKeys(edits: seq<Member<Edit>>, changes: seq<Member<Change>>)
    requires AllMean(edits, changes)
    ensures |edits| == |changes| && forall k :: 0 <= k < |edits| ==> edits[k].key == changes[k].key
  {}

  lemma MeanInserted(edits: seq<Member<Edit>>, changes: seq<Member<Change>>, i: nat, edit: Member<Edit>,
          change: Member<Change>, j: nat)
    requires AllMean(edits, changes) && i <= j <= |edits| && edit.key == change.key && Means(edit.value, change.value)
    ensures AllMean(edits[..i] + [edit] + edits[j..], changes[..i] + [change] + changes[j..])
  {
    hide Means;
  }
}
