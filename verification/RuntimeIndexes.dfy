/** Indexes over live mounts and rules, and handing observations to module records. */
module RuntimeIndexes {
  import opened Options

  // ---- mounts ----------------------------------------------------------------------------

  datatype Mount = Mount(id: nat, parent: nat)

  /** The first mount with an id. */
  function FirstFrom(mounts: seq<Mount>, id: nat, from: nat): (r: Option<nat>)
    requires from <= |mounts|
    ensures r.Some? ==> from <= r.value < |mounts| && mounts[r.value].id == id && forall k :: from <= k < r.value ==>
            mounts[k].id != id
    ensures r.None? ==> forall k :: from <= k < |mounts| ==> mounts[k].id != id
    decreases |mounts| - from
  {
    if from == |mounts| then None
    else if mounts[from].id == id then Some(from)
    else FirstFrom(mounts, id, from + 1)
  }

  function First(mounts: seq<Mount>, id: nat): Option<nat> { FirstFrom(mounts, id, 0) }

  /** The k-th mount of a parent chain; a parent is looked up by id. */
  function Chain(mounts: seq<Mount>, start: nat, k: nat): (r: Option<nat>)
    requires start < |mounts|
    ensures r.Some? ==> r.value < |mounts|
  {
    if k == 0 then Some(start) else Parent(mounts, Chain(mounts, start, k - 1))
  }

  function Parent(mounts: seq<Mount>, p: Option<nat>): (r: Option<nat>)
    requires p.Some? ==> p.value < |mounts|
    ensures r.Some? ==> p.Some? && r.value < |mounts|
  {
    if p.None? then None else First(mounts, mounts[p.value].parent)
  }

  ghost predicate OnChain(mounts: seq<Mount>, start: nat, id: nat)
    requires start < |mounts|
  {
    exists k: nat :: ChainHas(mounts, start, k, id)
  }

  predicate ChainHas(mounts: seq<Mount>, start: nat, k: nat, id: nat)
    requires start < |mounts|
  {
    Chain(mounts, start, k).Some? && mounts[Chain(mounts, start, k).value].id == id
  }

  lemma {:induction false} ChainShift(mounts: seq<Mount>, start: nat, i: nat, j: nat, m: nat)
    requires start < |mounts| && Chain(mounts, start, i) == Chain(mounts, start, j)
    ensures Chain(mounts, start, i + m) == Chain(mounts, start, j + m)
  {
    hide Parent;
    if m > 0 {
      ChainShift(mounts, start, i, j, m - 1);
    }
  }

  lemma {:induction false} ChainPrefix(mounts: seq<Mount>, start: nat, i: nat, k: nat)
    requires start < |mounts| && i <= k && Chain(mounts, start, k).Some?
    ensures Chain(mounts, start, i).Some?
    decreases k - i
  {
    if i < k {
      ChainPrefix(mounts, start, i, k - 1);
    }
  }

  /** More values than places: two are equal. */
  lemma {:induction false} Pigeonhole(s: seq<nat>, n: nat)
    requires |s| > n && forall i :: 0 <= i < |s| ==> s[i] < n
    ensures exists i, j :: 0 <= i < j < |s| && s[i] == s[j]
  {
    if forall i, j :: 0 <= i < j < |s| ==> s[i] != s[j] {
      DistinctBound(s, Below(n));
      assert false;
    }
  }

  function Below(n: nat): (r: set<nat>)
    ensures |r| == n && forall k: nat :: k in r <==> k < n
  {
    if n == 0 then {} else Below(n - 1) + {n - 1}
  }

  lemma {:induction false} DistinctBound(s: seq<nat>, places: set<nat>)
    requires (forall i, j :: 0 <= i < j < |s| ==> s[i] != s[j]) && forall i :: 0 <= i < |s| ==> s[i] in places
    ensures |s| <= |places|
  {
    if s != [] {
      DistinctBound(s[1..], places - {s[0]});
    }
  }

  /** Whatever is on a chain is among its first |mounts| members, cycles included. */
  lemma {:induction false} ChainRepeats(mounts: seq<Mount>, start: nat, k: nat) returns (early: nat)
    requires start < |mounts| && Chain(mounts, start, k).Some?
    ensures early < |mounts| && Chain(mounts, start, early) == Chain(mounts, start, k)
    decreases k
  {
    hide Chain;
    var n := |mounts|;
    if k < n {
      early := k;
    } else {
      forall i | 0 <= i <= n
        ensures Chain(mounts, start, i).Some?
      {
        ChainPrefix(mounts, start, i, k);
      }
      var s := seq(n + 1, i requires 0 <= i <= n => Chain(mounts, start, i).value);
      Pigeonhole(s, n);
      var i, j :| 0 <= i < j < |s| && s[i] == s[j];
      ChainShift(mounts, start, i, j, k - j);
      early := ChainRepeats(mounts, start, i + (k - j));
    }
  }

  /** Order of the table: by id, earlier mounts first. */
  predicate MountBefore(mounts: seq<Mount>, a: nat, b: nat)
    requires a < |mounts| && b < |mounts|
  {
    mounts[a].id < mounts[b].id || (mounts[a].id == mounts[b].id && a < b)
  }

  ghost predicate MountTable(mounts: seq<Mount>, entries: seq<nat>) {
    && (forall i :: 0 <= i < |entries| ==> entries[i] < |mounts|)
    && (forall i, j :: 0 <= i < j < |entries| ==> MountBefore(mounts, entries[i], entries[j]))
  }

  function InsertMount(mounts: seq<Mount>, x: nat, s: seq<nat>): (r: seq<nat>)
    requires x < |mounts| && MountTable(mounts, s)
    ensures |r| == |s| + 1 && forall y :: y in r <==> y == x || y in s
  {
    if s == [] || MountBefore(mounts, x, s[0]) then [x] + s else [s[0]] + InsertMount(mounts, x, s[1..])
  }

  lemma {:induction false} InsertMountSorted(mounts: seq<Mount>, x: nat, s: seq<nat>)
    requires x < |mounts| && MountTable(mounts, s) && x !in s
    ensures MountTable(mounts, InsertMount(mounts, x, s))
  {
    if s != [] && !MountBefore(mounts, x, s[0]) {
      InsertMountSorted(mounts, x, s[1..]);
      var r := InsertMount(mounts, x, s[1..]);
      forall j | 0 <= j < |r|
        ensures r[j] < |mounts| && MountBefore(mounts, s[0], r[j])
      {
        assert r[j] in r;
        if r[j] != x {
          var k :| 0 <= k < |s[1..]| && s[1..][k] == r[j];
          assert s[k + 1] == r[j];
        } else {
          assert s[0] != x;
        }
      }
    }
  }

  class MountIndex {
    const mounts: seq<Mount>
    var entries: seq<nat>

    ghost predicate Valid()
      reads this
    {
      MountTable(mounts, entries) && |entries| == |mounts| && forall k :: 0 <= k < |mounts| ==> k in entries
    }

    constructor (source: seq<Mount>)
      ensures Valid() && mounts == source
    {
      mounts := source;
      entries := [];
      new;
      var i: nat := 0;
      while i < |source|
        invariant i <= |source| && MountTable(source, entries) && |entries| == i
        invariant forall k :: k in entries <==> 0 <= k < i
      {
        InsertMountSorted(source, i, entries);
        entries := InsertMount(source, i, entries);
        i := i + 1;
      }
    }

    /** Binary search; the first of equal ids, as a scan of the mounts would find. */
    method Find(id: nat) returns (r: Option<nat>)
      requires Valid()
      ensures r == First(mounts, id)
    {
      var low, high := 0, |entries|;
      while low < high
        invariant 0 <= low <= high <= |entries|
        invariant forall k :: 0 <= k < low ==> mounts[entries[k]].id < id
        invariant forall k :: high <= k < |entries| ==> mounts[entries[k]].id >= id
      {
        var middle := low + (high - low) / 2;
        if mounts[entries[middle]].id < id {
          forall k | 0 <= k < middle
            ensures mounts[entries[k]].id < id
          {
            assert MountBefore(mounts, entries[k], entries[middle]);
          }
          low := middle + 1;
        } else {
          forall k | middle < k < |entries|
            ensures mounts[entries[k]].id >= id
          {
            assert MountBefore(mounts, entries[middle], entries[k]);
          }
          high := middle;
        }
      }
      FirstAtBound(mounts, entries, id, low);
      return if low < |entries| && mounts[entries[low]].id == id then Some(entries[low]) else None;
    }

    /** Is the id that of the mount or of one of its ancestors? At most one step per mount. */
    method HasAncestor(current: nat, id: nat) returns (found: bool)
      requires Valid() && current < |mounts|
      ensures found <==> OnChain(mounts, current, id)
    {
      var node := Some(current);
      var remaining: nat := |entries|;
      ghost var k: nat := 0;
      while node.Some? && remaining != 0
        invariant k + remaining == |mounts| && node == Chain(mounts, current, k)
        invariant forall i :: 0 <= i < k ==> !ChainHas(mounts, current, i, id)
        decreases remaining
      {
        if mounts[node.value].id == id {
          assert ChainHas(mounts, current, k, id);
          return true;
        }
        var parent := Find(mounts[node.value].parent);
        if parent == node {
          NotOnCycle(mounts, current, k, id);
          return false;
        }
        node := parent;
        k := k + 1;
        remaining := remaining - 1;
      }
      NotOnChain(mounts, current, k, id);
      return false;
    }
  }

  lemma FirstAtBound(mounts: seq<Mount>, entries: seq<nat>, id: nat, low: nat)
    requires MountTable(mounts, entries) && (forall k :: 0 <= k < |mounts| ==> k in entries) && low <= |entries|
    requires forall k :: 0 <= k < low ==> mounts[entries[k]].id < id
    requires forall k :: low <= k < |entries| ==> mounts[entries[k]].id >= id
    ensures First(mounts, id) == if low < |entries| && mounts[entries[low]].id == id then Some(entries[low]) else None
  {
    forall p | 0 <= p < |mounts| && mounts[p].id == id
      ensures low < |entries| && mounts[entries[low]].id == id && entries[low] <= p
    {
      assert p in entries;
      var k :| 0 <= k < |entries| && entries[k] == p;
      if low < k {
        assert MountBefore(mounts, entries[low], entries[k]);
      }
    }
  }

  lemma NotOnChain(mounts: seq<Mount>, start: nat, k: nat, id: nat)
    requires start < |mounts| && forall i :: 0 <= i < k ==> !ChainHas(mounts, start, i, id)
    requires Chain(mounts, start, k).None? || k == |mounts|
    ensures !OnChain(mounts, start, id)
  {
    forall m: nat
      ensures !ChainHas(mounts, start, m, id)
    {
      if Chain(mounts, start, m).Some? {
        if k == |mounts| {
          var early := ChainRepeats(mounts, start, m);
          assert !ChainHas(mounts, start, early, id);
        } else if m >= k {
          ChainPrefix(mounts, start, k, m);
        }
      }
    }
  }

  lemma NotOnCycle(mounts: seq<Mount>, start: nat, k: nat, id: nat)
    requires start < |mounts| && forall i :: 0 <= i <= k ==> !ChainHas(mounts, start, i, id)
    requires Chain(mounts, start, k + 1) == Chain(mounts, start, k)
    ensures !OnChain(mounts, start, id)
  {
    forall m: nat
      ensures !ChainHas(mounts, start, m, id)
    {
      if m > k {
        Constant(mounts, start, k, m);
        assert !ChainHas(mounts, start, k, id);
      }
    }
  }

  lemma {:induction false} Constant(mounts: seq<Mount>, start: nat, k: nat, m: nat)
    requires start < |mounts| && k <= m && Chain(mounts, start, k + 1) == Chain(mounts, start, k)
    ensures Chain(mounts, start, m) == Chain(mounts, start, k)
  {
    if k < m {
      Constant(mounts, start, k, m - 1);
    }
  }
}
