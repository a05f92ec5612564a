/** The three-way merge of sorted members: edits over a patch over an original. */
module SettingsMerge {
  import opened Options
  import opened Ordering
  import opened JsonGrammar

  // ---- the three-way merge ---------------------------------------------------------------

  /** A journal entry: a new value, or the removal of a key. */
  datatype Change = Removed | Set(value: Json)

  /** The smallest key at the head of the three sorted lists. */
  function HeadKey(original: seq<Member<Json>>, patch: seq<Member<Json>>, edits: seq<Member<Change>>): string
    requires original != [] || patch != [] || edits != []
  {
    var first := if original != [] then original[0].key else if patch != [] then patch[0].key else edits[0].key;
    var second := if patch != [] && Less(patch[0].key, first) then patch[0].key else first;
    if edits != [] && Less(edits[0].key, second) then edits[0].key else second
  }

  predicate Heads<V>(s: seq<Member<V>>, key: string) { s != [] && s[0].key == key }

  function Past<V>(s: seq<Member<V>>, key: string): (r: seq<Member<V>>)
    ensures |r| == |s| - (if Heads(s, key) then 1 else 0)
  {
    if Heads(s, key) then s[1..] else s
  }

  /** An edit over the patch over the original. */
  function Select(original: Option<Json>, patch: Option<Json>, edit: Option<Change>): Option<Json> {
    match edit
    case Some(Removed) => None
    case Some(Set(v)) => Some(v)
    case None => if patch.Some? then patch else original
  }

  function HeadValue<V>(s: seq<Member<V>>, key: string): Option<V> {
    if Heads(s, key) then Some(s[0].value) else None
  }

  /** The merged members, smallest key first. */
  function Merged(original: seq<Member<Json>>, patch: seq<Member<Json>>, edits: seq<Member<Change>>): seq<Member<Json>>
    decreases |original| + |patch| + |edits|
  {
    if original == [] && patch == [] && edits == [] then []
    else
      var key := HeadKey(original, patch, edits);
      HeadIsHead(original, patch, edits);
      var value := Select(HeadValue(original, key), HeadValue(patch, key), HeadValue(edits, key));
      (if value.Some? then [Member(key, value.value)] else [])
          + Merged(Past(original, key), Past(patch, key), Past(edits, key))
  }

  lemma HeadIsHead(original: seq<Member<Json>>, patch: seq<Member<Json>>, edits: seq<Member<Change>>)
    requires original != [] || patch != [] || edits != []
    ensures var key := HeadKey(original, patch, edits); Heads(original, key) || Heads(patch, key) || Heads(edits, key)
  {}

  /** Every key lies above a bound. */
  ghost predicate Above<V>(s: seq<Member<V>>, low: string) {
    forall i :: 0 <= i < |s| ==> Less(low, s[i].key)
  }

  lemma {:induction false} PastAbove<V>(s: seq<Member<V>>, key: string)
    requires Sorted(s) && (s != [] ==> AtMost(key, s[0].key))
    ensures Above(Past(s, key), key) && Sorted(Past(s, key))
  {
    hide Less;
    var r := Past(s, key);
    forall i | 0 <= i < |r|
      ensures Less(key, r[i].key)
    {
      if Heads(s, key) {
        assert r[i] == s[i + 1];
      } else if i > 0 {
        LessTransitive(key, s[0].key, s[i].key);
      }
    }
  }

  lemma HeadIsLeast(original: seq<Member<Json>>, patch: seq<Member<Json>>, edits: seq<Member<Change>>)
    requires original != [] || patch != [] || edits != []
    ensures var key := HeadKey(original, patch, edits);
            (original != [] ==> AtMost(key, original[0].key)) && (patch != [] ==> AtMost(key, patch[0].key))
                && (edits != [] ==> AtMost(key, edits[0].key))
  {
    hide Less;
    var first := if original != [] then original[0].key else if patch != [] then patch[0].key else edits[0].key;
    var second := if patch != [] && Less(patch[0].key, first) then patch[0].key else first;
    if patch != [] {
      LessTotal(patch[0].key, first);
    }
    if edits != [] {
      LessTotal(edits[0].key, second);
      if Less(edits[0].key, second) && Less(second, first) {
        LessTransitive(edits[0].key, second, first);
      }
      if patch != [] && Less(edits[0].key, second) && Less(second, patch[0].key) {
        LessTransitive(edits[0].key, second, patch[0].key);
      }
    }
  }

  lemma {:induction false} MergedAbove(original: seq<Member<Json>>, patch: seq<Member<Json>>,
          edits: seq<Member<Change>>, low: string)
    requires Above(original, low) && Above(patch, low) && Above(edits, low)
    ensures Above(Merged(original, patch, edits), low)
    decreases |original| + |patch| + |edits|
  {
    hide Less, HeadKey;
    if original != [] || patch != [] || edits != [] {
      var key := HeadKey(original, patch, edits);
      HeadIsHead(original, patch, edits);
      MergedAbove(Past(original, key), Past(patch, key), Past(edits, key), low);
    }
  }

  lemma {:induction false} MergedSorted(original: seq<Member<Json>>, patch: seq<Member<Json>>,
          edits: seq<Member<Change>>)
    requires Sorted(original) && Sorted(patch) && Sorted(edits)
    ensures Sorted(Merged(original, patch, edits))
    decreases |original| + |patch| + |edits|
  {
    hide Less, HeadKey, Past;
    if original != [] || patch != [] || edits != [] {
      var key := HeadKey(original, patch, edits);
      HeadIsHead(original, patch, edits);
      HeadIsLeast(original, patch, edits);
      PastAbove(original, key);
      PastAbove(patch, key);
      PastAbove(edits, key);
      MergedSorted(Past(original, key), Past(patch, key), Past(edits, key));
      MergedAbove(Past(original, key), Past(patch, key), Past(edits, key), key);
    }
  }

  lemma {:induction false} AboveLacks<V>(s: seq<Member<V>>, low: string, key: string)
    requires Above(s, low) && AtMost(key, low)
    ensures Lookup(s, key).None?
  {
    hide Less;
    if s != [] {
      if key != low {
        LessTransitive(key, low, s[0].key);
      }
      LessIrreflexive(key);
      AboveLacks(s[1..], low, key);
    }
  }

  /** At the head key a list says what its head says; elsewhere its tail decides. */
  lemma {:induction false} PastLookup<V>(s: seq<Member<V>>, key: string, k: string)
    requires Sorted(s) && (s != [] ==> AtMost(key, s[0].key))
    ensures k == key ==> Lookup(s, k) == HeadValue(s, key) && Lookup(Past(s, key), k).None?
    ensures k != key ==> Lookup(s, k) == Lookup(Past(s, key), k)
  {
    hide Less;
    PastAbove(s, key);
    AboveLacks(Past(s, key), key, key);
    if !Heads(s, key) {
      assert Past(s, key) == s;
    }
  }

  /** The merge at every key: edit over patch over original, a removed edit absent. */
  lemma {:induction false} MergedLookup(original: seq<Member<Json>>, patch: seq<Member<Json>>,
          edits: seq<Member<Change>>, k: string)
    requires Sorted(original) && Sorted(patch) && Sorted(edits)
    ensures Lookup(Merged(original, patch, edits), k) == Select(Lookup(original, k), Lookup(patch, k), Lookup(edits, k))
    decreases |original| + |patch| + |edits|
  {
    hide Less, HeadKey, Past, HeadValue, Heads;
    if original != [] || patch != [] || edits != [] {
      var key := HeadKey(original, patch, edits);
      HeadIsHead(original, patch, edits);
      HeadIsLeast(original, patch, edits);
      PastAbove(original, key);
      PastAbove(patch, key);
      PastAbove(edits, key);
      PastLookup(original, key, k);
      PastLookup(patch, key, k);
      PastLookup(edits, key, k);
      MergedLookup(Past(original, key), Past(patch, key), Past(edits, key), k);
      var value := Select(HeadValue(original, key), HeadValue(patch, key), HeadValue(edits, key));
      var rest := Merged(Past(original, key), Past(patch, key), Past(edits, key));
      var all := (if value.Some? then [Member(key, value.value)] else []) + rest;
      assert all == Merged(original, patch, edits);
      if value.Some? {
        assert all[0] == Member(key, value.value) && all[1..] == rest;
      } else {
        assert all == rest;
      }
    }
  }

  lemma MergedStep(original: seq<Member<Json>>, patch: seq<Member<Json>>, edits: seq<Member<Change>>)
    requires original != [] || patch != [] || edits != []
    ensures var key := HeadKey(original, patch, edits);
            var value := Select(HeadValue(original, key), HeadValue(patch, key), HeadValue(edits, key));
            (Heads(original, key) || Heads(patch, key) || Heads(edits, key))
            && Merged(original, patch, edits)
            == (if value.Some? then [Member(key, value.value)] else [])
               + Merged(Past(original, key), Past(patch, key), Past(edits, key))
  {
    HeadIsHead(original, patch, edits);
  }

  lemma PastAt<V>(s: seq<Member<V>>, i: nat, key: string)
    requires i <= |s|
    ensures Heads(s[i..], key) <==> i < |s| && s[i].key == key
    ensures Past(s[i..], key) == if i < |s| && s[i].key == key then s[i + 1..] else s[i..]
    ensures HeadValue(s[i..], key) == if i < |s| && s[i].key == key then Some(s[i].value) else None
  {}

  lemma SelectIs(original: Option<Json>, patch: Option<Json>, edit: Option<Change>)
    ensures Select(original, patch, edit)
         == if edit.Some? then (if edit.value.Removed? then None else Some(edit.value.value))
            else if patch.Some? then patch else original
  {}

  lemma EmptyMerge(original: seq<Member<Json>>, patch: seq<Member<Json>>, edits: seq<Member<Change>>, o: nat, p: nat,
          e: nat)
    requires o == |original| && p == |patch| && e == |edits|
    ensures Merged(original[o..], patch[p..], edits[e..]) == []
  {}

  /** Where insertion happens in a sorted list. */
  lemma {:induction false} PutAt<V>(s: seq<Member<V>>, i: nat, key: string, change: V)
    requires Sorted(s) && i <= |s|
    requires forall k :: 0 <= k < i ==> Less(s[k].key, key)
    requires i < |s| ==> !Less(s[i].key, key)
    ensures Put(s, key, change)
         == s[..i] + [Member(key, change)] + (if i < |s| && s[i].key == key then s[i + 1..] else s[i..])
    ensures Lookup(s, key).Some? <==> i < |s| && s[i].key == key
  {
    hide Less, Put, Lookup;
    if i > 0 {
      PutPast(s, key, change);
      PutAt(s[1..], i - 1, key, change);
      assert s[..i] == [s[0]] + s[1..][..i - 1];
    } else {
      PutFirst(s, key, change);
    }
  }

  lemma PutPast<V>(s: seq<Member<V>>, key: string, change: V)
    requires s != [] && Less(s[0].key, key)
    ensures Put(s, key, change) == [s[0]] + Put(s[1..], key, change) && Lookup(s, key) == Lookup(s[1..], key)
  {
    hide Less;
    LessAsymmetric(s[0].key, key);
  }

  lemma PutFirst<V>(s: seq<Member<V>>, key: string, change: V)
    requires Sorted(s) && (s != [] ==> !Less(s[0].key, key))
    ensures Put(s, key, change) == [Member(key, change)] + (if s != [] && s[0].key == key then s[1..] else s)
    ensures Lookup(s, key).Some? <==> s != [] && s[0].key == key
  {
    hide Less;
    if s != [] {
      LessTotal(key, s[0].key);
      if s[0].key != key {
        NotFirst(s, key);
      }
    }
  }
}
