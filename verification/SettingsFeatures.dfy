/** Merging a configuration patch: the migration keeps the feature switches that are in effect. */
module SettingsFeatures {
  import opened Options
  import opened Powers
  import opened Reals
  import opened DecimalRounding
  import opened Ordering
  import opened Text
  import opened JsonGrammar
  import DecimalPrinter
  import opened DecimalScales
  import opened DecimalCached
  import opened JsonNumber
  import opened JsonTree
  import opened JsonPrint
  import opened JsonWrite
  import opened JsonDocument
  import JsonRoundTrip
  import opened SettingsInput
  import opened SettingsMerge
  import opened SettingsWriter

  // ---- reading a configuration -----------------------------------------------------------

  /** A boolean member, or the default when it is absent or of another type. */
  function BoolOr(root: seq<Member<Json>>, key: string, fallback: bool): bool {
    match Lookup<Json>(root, key)
    case Some(Bool(b)) => b
    case _ => fallback
  }

  const U32_MAX: nat := 0xFFFF_FFFF

  /** A number in the range of a 32-bit unsigned integer, fraction dropped. */
  function U32(bits: nat): Option<nat> {
    var s, e := DecimalPrinter.SignificandOf(bits), DecimalPrinter.ExponentOf(bits);
    if !DecimalPrinter.IsFinite(bits) || (DecimalPrinter.Negative(bits) && s > 0) then None
    else if e >= 0 then (if s * Pow(2, e) <= U32_MAX then Some(s * Pow(2, e)) else None)
    else if s <= U32_MAX * Pow(2, -e) && Pow(2, -e) > 0 then Some(s / Pow(2, -e))
    else None
  }

  /** That integer as a signed one; what is not an integer in range counts as zero. */
  function IntOf(bits: nat): int {
    match U32(bits)
    case Some(n) => if n < 0x8000_0000 then n else n - 0x1_0000_0000
    case None => 0
  }

  function IntOr(root: seq<Member<Json>>, key: string): int {
    match Lookup<Json>(root, key)
    case Some(Number(bits)) => IntOf(bits)
    case _ => 0
  }

  method ReadBool(r: Ref, ghost root: seq<Member<Json>>, key: string, fallback: bool) returns (b: bool)
    requires Denotes(r, Object(root))
    ensures b == BoolOr(root, key, fallback)
  {
    hide Denotes, Lookup;
    var found := FindMember(r, Object(root), key);
    b := BoolValue(found, Lookup(root, key), fallback);
  }

  method ReadInt(r: Ref, ghost root: seq<Member<Json>>, key: string) returns (n: int)
    requires Denotes(r, Object(root))
    ensures n == IntOr(root, key)
  {
    hide Denotes, Lookup, IntOf;
    var found := FindMember(r, Object(root), key);
    var bits := NumberValue(found, Lookup(root, key));
    n := if bits.Some? then IntOf(bits.value) else 0;
  }

  method Contains(r: Ref, ghost root: seq<Member<Json>>, key: string) returns (found: bool)
    requires Denotes(r, Object(root))
    ensures found <==> Has(root, key)
  {
    hide Denotes, Lookup;
    var member := FindMember(r, Object(root), key);
    found := member.Some?;
  }

  const VERSION: string := "kasumi_feature_config_version"
  const LEGACY: string := "enable_hidexattr"
  const SELINUX: string := "enable_selinux_fix"
  const STEALTH: string := "enable_stealth"

  /** The four switches that replaced the legacy one, then the two it implied. */
  const SPLIT: seq<string> :=
      ["enable_overlay_xattr_hide", "enable_mount_hide", "enable_maps_spoof", "enable_statfs_spoof"]
  const SWITCHES: seq<string> := SPLIT + [SELINUX, STEALTH]

  predicate Has(root: seq<Member<Json>>, key: string) { Lookup(root, key).Some? }

  /** Does the document carry the split switches? */
  predicate IsSplit(root: seq<Member<Json>>) {
    IntOr(root, VERSION) >= 2 || exists k :: k in SPLIT && Has(root, k)
  }

  /** What a switch is when the document does not set it. */
  function Default(key: string): bool { key == STEALTH }

  /** The value of a switch that a document puts in effect. */
  function Effective(root: seq<Member<Json>>, key: string): bool {
    if IsSplit(root) then BoolOr(root, key, Default(key))
    else
      var legacy := BoolOr(root, LEGACY, false);
      if key == SELINUX then legacy || BoolOr(root, SELINUX, false)
      else if key == STEALTH then BoolOr(root, STEALTH, true) || legacy
      else legacy
  }

  // ---- the keys, told literally ----------------------------------------------------------

  /** The member is there and is that truth value. */
  predicate IsTrue(root: seq<Member<Json>>, key: string) { Lookup(root, key) == Some(Bool(true)) }
  predicate IsFalse(root: seq<Member<Json>>, key: string) { Lookup(root, key) == Some(Bool(false)) }

  /** The version is a number from two up to the largest signed integer, fractions counting. */
  ghost predicate VersionFromTwo(root: seq<Member<Json>>) {
    match Lookup<Json>(root, "kasumi_feature_config_version")
    case Some(Number(bits)) =>
      && DecimalPrinter.IsFinite(bits) && !DecimalPrinter.Negative(bits)
      && 2.0 <= DecimalPrinter.MagnitudeOf(bits) < 2147483648.0
    case _ => false
  }

  /** One of the four switches is there, whatever its value, or the version is. */
  ghost predicate HasSplitKeys(root: seq<Member<Json>>) {
    || VersionFromTwo(root)
    || Lookup(root, "enable_overlay_xattr_hide").Some? || Lookup(root, "enable_mount_hide").Some?
    || Lookup(root, "enable_maps_spoof").Some? || Lookup(root, "enable_statfs_spoof").Some?
  }

  lemma TruthExactly(root: seq<Member<Json>>)
    ensures forall key :: BoolOr(root, key, false) == IsTrue(root, key)
    ensures forall key :: BoolOr(root, key, true) == !IsFalse(root, key)
  {
    hide Lookup;
  }

  lemma SplitKeysExactly(root: seq<Member<Json>>)
    ensures IsSplit(root) <==> HasSplitKeys(root)
  {
    hide Lookup, IntOf;
    var version := Lookup<Json>(root, "kasumi_feature_config_version");
    if version.Some? && version.value.Number? {
      VersionExactly(version.value.bits);
    }
    assert SPLIT[0] in SPLIT && SPLIT[1] in SPLIT && SPLIT[2] in SPLIT && SPLIT[3] in SPLIT;
    forall k | k in SPLIT
      ensures k == "enable_overlay_xattr_hide" || k == "enable_mount_hide" || k == "enable_maps_spoof"
              || k == "enable_statfs_spoof"
    {}
  }

  /** The conversion takes the whole part of a number that is not negative and not above the limit. */
  lemma U32Exactly(bits: nat, n: nat)
    ensures U32(bits) == Some(n) <==>
            && DecimalPrinter.IsFinite(bits)
            && (!DecimalPrinter.Negative(bits) || DecimalPrinter.SignificandOf(bits) == 0)
            && DecimalPrinter.MagnitudeOf(bits) <= 4294967295.0
            && n as real <= DecimalPrinter.MagnitudeOf(bits) < n as real + 1.0
  {
    hide Pow, DecimalPrinter.SignificandOf, DecimalPrinter.ExponentOf, DecimalPrinter.IsFinite;
    var s, e := DecimalPrinter.SignificandOf(bits), DecimalPrinter.ExponentOf(bits);
    if e >= 0 {
      ExpIsPow(2, e);
      RealOfProduct(s, Pow(2, e));
      assert DecimalPrinter.MagnitudeOf(bits) == (s * Pow(2, e)) as real;
    } else {
      FractionU32(s, e, n);
    }
  }

  lemma FractionU32(s: nat, e: int, n: nat)
    requires e < 0
    ensures Pow(2, -e) > 0
    ensures s <= U32_MAX * Pow(2, -e) && s / Pow(2, -e) == n <==>
            BinaryValue(s, e) <= 4294967295.0 && n as real <= BinaryValue(s, e) < n as real + 1.0
  {
    hide Pow;
    var p := Pow(2, -e);
    PowPositive(2, -e);
    QuotientAsProduct(s as real, p as real);
    FloorOfQuotient(s, p);
    BelowQuotient(s, p, U32_MAX);
  }

  lemma BelowQuotient(s: nat, p: nat, limit: nat)
    requires p > 0
    ensures s <= limit * p <==> s as real / p as real <= limit as real
  {
    RealOfProduct(limit, p);
    var q := s as real / p as real;
    assert q * p as real == s as real;
    RMulCompare(q, limit as real, p as real);
  }

  lemma VersionExactly(bits: nat)
    ensures IntOf(bits) >= 2 <==>
            && DecimalPrinter.IsFinite(bits) && !DecimalPrinter.Negative(bits)
            && 2.0 <= DecimalPrinter.MagnitudeOf(bits) < 2147483648.0
  {
    hide U32, DecimalPrinter.IsFinite, DecimalPrinter.Negative, BinaryValue;
    var v, r := DecimalPrinter.MagnitudeOf(bits), U32(bits);
    if r.Some? {
      U32Exactly(bits, r.value);
      ZeroMagnitude(bits);
    }
    if 2.0 <= v < 2147483648.0 {
      U32Exactly(bits, v.Floor);
    }
  }

  lemma ZeroMagnitude(bits: nat)
    ensures DecimalPrinter.SignificandOf(bits) == 0 ==> DecimalPrinter.MagnitudeOf(bits) == 0.0
  {}

  datatype Config = Config(
    enable_overlay_xattr_hide: bool,
    enable_mount_hide: bool,
    enable_maps_spoof: bool,
    enable_statfs_spoof: bool,
    enable_selinux_fix: bool,
    enable_stealth: bool)

  /** A configuration as it is assigned from a document, starting from the defaults. */
  method ApplyConfig(r: Ref, ghost root: seq<Member<Json>>) returns (config: Config)
    requires Denotes(r, Object(root))
    ensures config == Config(Effective(root, SPLIT[0]), Effective(root, SPLIT[1]), Effective(root, SPLIT[2]),
                             Effective(root, SPLIT[3]), Effective(root, SELINUX), Effective(root, STEALTH))
    ensures HasSplitKeys(root) ==>
              && config.enable_overlay_xattr_hide == IsTrue(root, "enable_overlay_xattr_hide")
              && config.enable_mount_hide == IsTrue(root, "enable_mount_hide")
              && config.enable_maps_spoof == IsTrue(root, "enable_maps_spoof")
              && config.enable_statfs_spoof == IsTrue(root, "enable_statfs_spoof")
              && config.enable_selinux_fix == IsTrue(root, "enable_selinux_fix")
              && config.enable_stealth == !IsFalse(root, "enable_stealth")
    ensures !HasSplitKeys(root) ==>
              var legacy := IsTrue(root, "enable_hidexattr");
              && config.enable_overlay_xattr_hide == legacy && config.enable_mount_hide == legacy
              && config.enable_maps_spoof == legacy && config.enable_statfs_spoof == legacy
              && config.enable_selinux_fix == (legacy || IsTrue(root, "enable_selinux_fix"))
              && config.enable_stealth == (legacy || !IsFalse(root, "enable_stealth"))
  {
    SplitKeysExactly(root);
    TruthExactly(root);
    hide Denotes, BoolOr, IsSplit, HasSplitKeys, IsTrue, IsFalse;
    var stealth := ReadBool(r, root, STEALTH, true);
    var split := HasSplit(r, root);
    if split {
      var xattr := ReadBool(r, root, SPLIT[0], false);
      var hide_ := ReadBool(r, root, SPLIT[1], false);
      var maps := ReadBool(r, root, SPLIT[2], false);
      var statfs := ReadBool(r, root, SPLIT[3], false);
      var selinux := ReadBool(r, root, SELINUX, false);
      return Config(xattr, hide_, maps, statfs, selinux, stealth);
    }
    var legacy := ReadBool(r, root, LEGACY, false);
    var selinux := ReadBool(r, root, SELINUX, false);
    return Config(legacy, legacy, legacy, legacy, legacy || selinux, stealth || legacy);
  }

  method HasSplit(r: Ref, ghost root: seq<Member<Json>>) returns (split: bool)
    requires Denotes(r, Object(root))
    ensures split <==> IsSplit(root)
  {
    hide Denotes, IntOr, Has;
    assert SPLIT[0] in SPLIT && SPLIT[1] in SPLIT && SPLIT[2] in SPLIT && SPLIT[3] in SPLIT;
    var version := ReadInt(r, root, VERSION);
    split := version >= 2;
    var i := 0;
    while i < |SPLIT| && !split
      invariant 0 <= i <= |SPLIT|
      invariant split <==> version >= 2 || exists k :: 0 <= k < i && Has(root, SPLIT[k])
    {
      split := Contains(r, root, SPLIT[i]);
      i := i + 1;
    }
  }

  // ---- merging a patch -------------------------------------------------------------------

  /** The bits of 3.0. */
  const THREE: nat := 0x4008_0000_0000_0000

  /** A patch that introduces the split switches into a legacy document. */
  predicate Migrates(root: seq<Member<Json>>, patch: seq<Member<Json>>) { !IsSplit(root) && IsSplit(patch) }

  function Enabled(root: seq<Member<Json>>, key: string): bool {
    BoolOr(root, LEGACY, false) || (key == SELINUX && BoolOr(root, key, false))
        || (key == STEALTH && BoolOr(root, key, true))
  }

  const REPORTED: seq<string> := ["kasumi_available", "tmpfs_xattr_supported"]

  /** The edit the merge makes to a key, if any. */
  function EditOf(root: seq<Member<Json>>, patch: seq<Member<Json>>, key: string): Option<Change> {
    if key == "mount_hide_mode" then Some(Removed)
    else if key in REPORTED then
      (if !Has(patch, key) then None else if Has(root, key) then Some(Set(Lookup(root, key).value)) else Some(Removed))
    else if !Migrates(root, patch) || Has(patch, key) then None
    else if key == VERSION then Some(Set(Number(THREE)))
    else if key == LEGACY then Some(Removed)
    else if key in SWITCHES then Some(Set(Bool(Enabled(root, key))))
    else None
  }

  /** Edits made so far: those of the listed keys. */
  ghost predicate Journals(journal: seq<Member<Change>>, root: seq<Member<Json>>, patch: seq<Member<Json>>,
          keys: set<string>)
  {
    forall k :: Lookup(journal, k) == if k in keys then EditOf(root, patch, k) else None
  }

  ghost predicate IsMerge(members: seq<Member<Json>>, root: seq<Member<Json>>, patch: seq<Member<Json>>) {
    forall k :: Lookup(members, k) == Select(Lookup(root, k), Lookup(patch, k), EditOf(root, patch, k))
  }

  /** Record every edit of the merge. The journal has room for all it can make. */
  method RecordEdits(merged: ObjectWriter, ghost root: seq<Member<Json>>, ghost patch: seq<Member<Json>>)
    requires merged.Valid() && merged.changes == [] && merged.size == 0 && merged.For(root, patch)
    modifies merged, merged.edits
    ensures merged.Valid() && forall k :: Lookup(merged.changes, k) == EditOf(root, patch, k)
  {
    hide Lookup, Sorted, IsSplit, EditOf, Denotes, AllMean;
    ghost var keys := MigrateAll(merged, root, patch);
    var i := 0;
    while i < |REPORTED|
      invariant 0 <= i <= |REPORTED| && merged.Valid() && merged.size <= 8 + i
      invariant keys == Migrated() + set k | k in REPORTED[..i]
      invariant Journals(merged.changes, root, patch, keys)
    {
      var key := REPORTED[i];
      assert REPORTED[..i + 1] == REPORTED[..i] + [key];
      ReportedEdit(root, patch, key);
      var patched := Contains(merged.overlay.value, patch, key);
      var kept := FindMember(merged.source, Object(root), key);
      ghost var change := if Has(root, key) then Set(Lookup(root, key).value) else Removed;
      EditKey(merged, root, patch, key, if kept.Some? then Copy(kept.value) else Delete, change, patched, keys);
      keys := keys + {key};
      i := i + 1;
    }
    assert REPORTED[..i] == REPORTED;
    ObsoleteEdit(root, patch);
    EditKey(merged, root, patch, "mount_hide_mode", Delete, Removed, true, keys);
    keys := keys + {"mount_hide_mode"};
    AllEdits(merged.changes, root, patch, keys);
  }

  /** The keys the migration looks at. */
  ghost function Migrated(): set<string> { {VERSION, LEGACY} + set k | k in SWITCHES }

  /** One edit, or none; there is room. */
  method EditKey(merged: ObjectWriter, ghost root: seq<Member<Json>>, ghost patch: seq<Member<Json>>, key: string,
          edit: Edit, ghost change: Change, apply: bool, ghost keys: set<string>)
    requires merged.Valid() && merged.size < JOURNAL_SIZE && key !in keys && Means(edit, change)
    requires EditOf(root, patch, key) == if apply then Some(change) else None
    requires Journals(merged.changes, root, patch, keys)
    modifies merged, merged.edits
    ensures merged.Valid() && merged.size <= old(merged.size) + 1
    ensures Journals(merged.changes, root, patch, keys + {key})
  {
    hide EditOf, Lookup, Put, Sorted, Means, AllMean, Denotes;
    if apply {
      ghost var before := merged.changes;
      var ok := merged.Replace(key, edit, change);
      forall k
        ensures Lookup(merged.changes, k) == if k in keys + {key} then EditOf(root, patch, k) else None
      {
        PutLookup(before, key, change, k);
      }
    }
  }

  /** Edits for the switches of a legacy document that gets its first split ones. */
  method MigrateAll(merged: ObjectWriter, ghost root: seq<Member<Json>>, ghost patch: seq<Member<Json>>)
    returns (ghost keys: set<string>)
    requires merged.Valid() && merged.changes == [] && merged.size == 0 && merged.For(root, patch)
    modifies merged, merged.edits
    ensures merged.Valid() && merged.size <= 8
    ensures keys == Migrated() && Journals(merged.changes, root, patch, keys)
  {
    hide Lookup, Sorted, IsSplit, EditOf, Denotes, AllMean, WellFormed, BoolOr;
    var source, overlay := merged.source, merged.overlay.value;
    NoEdits(root, patch);
    NamesDiffer();
    keys := {};
    var split := HasSplit(source, root);
    var patched := HasSplit(overlay, patch);
    if split || !patched {
      keys := Migrated();
      NotMigrated(root, patch);
      return;
    }
    var legacy := ReadBool(source, root, LEGACY, false);
    VersionEdits(root, patch);
    ScalarsFormed();
    var has := Contains(overlay, patch, VERSION);
    EditKey(merged, root, patch, VERSION, Scalar(Json.Number(THREE)), Set(Json.Number(THREE)), !has, keys);
    keys := keys + {VERSION};
    has := Contains(overlay, patch, LEGACY);
    EditKey(merged, root, patch, LEGACY, Delete, Removed, !has, keys);
    keys := keys + {LEGACY};
    MigrateSwitches(merged, root, patch, legacy);
    keys := Migrated();
  }

  /** Edits for the six switches. */
  method MigrateSwitches(merged: ObjectWriter, ghost root: seq<Member<Json>>, ghost patch: seq<Member<Json>>,
          legacy: bool)
    requires merged.Valid() && merged.size <= 2 && merged.For(root, patch) && Migrates(root, patch)
    requires legacy == BoolOr(root, LEGACY, false) && Journals(merged.changes, root, patch, {VERSION, LEGACY})
    modifies merged, merged.edits
    ensures merged.Valid() && merged.size <= 8 && Journals(merged.changes, root, patch, Migrated())
  {
    hide Lookup, Sorted, IsSplit, EditOf, Denotes, AllMean, WellFormed, BoolOr, Has, Journals, EditOf;
    ghost var keys := {VERSION, LEGACY};
    NamesDiffer();
    var i := 0;
    while i < |SWITCHES|
      invariant 0 <= i <= |SWITCHES| && merged.Valid() && merged.size <= 2 + i
      invariant keys == {VERSION, LEGACY} + set k | k in SWITCHES[..i]
      invariant Journals(merged.changes, root, patch, keys)
    {
      assert SWITCHES[..i + 1] == SWITCHES[..i] + [SWITCHES[i]];
      SwitchEdit(root, patch, i);
      MigrateSwitch(merged, root, patch, SWITCHES[i], legacy, keys);
      keys := keys + {SWITCHES[i]};
      i := i + 1;
    }
    assert SWITCHES[..i] == SWITCHES;
  }

  method MigrateSwitch(merged: ObjectWriter, ghost root: seq<Member<Json>>, ghost patch: seq<Member<Json>>, key: string,
          legacy: bool, ghost keys: set<string>)
    requires merged.Valid() && merged.size < JOURNAL_SIZE && merged.For(root, patch) && key !in keys
    requires legacy == BoolOr(root, LEGACY, false) && Journals(merged.changes, root, patch, keys)
    requires EditOf(root, patch, key) == if Has(patch, key) then None else Some(Set(Bool(Enabled(root, key))))
    modifies merged, merged.edits
    ensures merged.Valid() && merged.size <= old(merged.size) + 1 && Journals(merged.changes, root, patch, keys + {key})
  {
    hide Lookup, Sorted, IsSplit, EditOf, Denotes, AllMean, WellFormed, BoolOr, Has, Journals;
    var own := ReadBool(merged.source, root, key, key == STEALTH);
    var enabled := legacy || (key == SELINUX && own) || (key == STEALTH && own);
    var has := Contains(merged.overlay.value, patch, key);
    ScalarsFormed();
    EnabledIs(root, key);
    EditKey(merged, root, patch, key, Scalar(Bool(enabled)), Set(Bool(enabled)), !has, keys);
  }

  lemma EnabledIs(root: seq<Member<Json>>, key: string)
    ensures var own := BoolOr(root, key, key == STEALTH);
            Enabled(root, key) == (BoolOr(root, LEGACY, false) || (key == SELINUX && own) || (key == STEALTH && own))
  {
    hide BoolOr;
    NamesDiffer();
  }

  lemma ScalarsFormed()
    ensures WellFormed(Json.Number(THREE)) && forall b :: WellFormed(Bool(b))
  {
    Pow52();
    assert Pow(2, 52) == 2 * Pow(2, 51);
    assert Readable(THREE);
  }

  lemma NoEdits(root: seq<Member<Json>>, patch: seq<Member<Json>>)
    ensures Journals([], root, patch, {})
  {}

  lemma NamesDiffer()
    ensures |SWITCHES| == 6 && forall i, j :: 0 <= i < j < 6 ==> SWITCHES[i] != SWITCHES[j]
    ensures forall i :: 0 <= i < 6 ==>
            SWITCHES[i] != VERSION && SWITCHES[i] != LEGACY && SWITCHES[i] !in REPORTED
                && SWITCHES[i] != "mount_hide_mode"
    ensures VERSION != LEGACY && VERSION !in REPORTED && LEGACY !in REPORTED && VERSION != "mount_hide_mode"
            && LEGACY != "mount_hide_mode"
  {
    assert SWITCHES[1][8] == 'o' && SWITCHES[2][8] == 'a';
    assert LEGACY[0] == 'e' && REPORTED[0][0] == 'k';
  }

  lemma NotMigrated(root: seq<Member<Json>>, patch: seq<Member<Json>>)
    requires !Migrates(root, patch)
    ensures Journals([], root, patch, Migrated())
  {
    NamesDiffer();
    forall k | k in Migrated()
      ensures EditOf(root, patch, k).None?
    {}
  }

  lemma VersionEdits(root: seq<Member<Json>>, patch: seq<Member<Json>>)
    requires Migrates(root, patch)
    ensures EditOf(root, patch, VERSION) == if Has(patch, VERSION) then None else Some(Set(Json.Number(THREE)))
    ensures EditOf(root, patch, LEGACY) == if Has(patch, LEGACY) then None else Some(Removed)
  {
    hide IsSplit, Lookup;
    NamesDiffer();
  }

  lemma SwitchEdit(root: seq<Member<Json>>, patch: seq<Member<Json>>, i: nat)
    requires Migrates(root, patch) && i < |SWITCHES|
    ensures EditOf(root, patch, SWITCHES[i])
         == if Has(patch, SWITCHES[i]) then None else Some(Set(Bool(Enabled(root, SWITCHES[i]))))
    ensures SWITCHES[i] != VERSION && SWITCHES[i] != LEGACY && forall j :: 0 <= j < i ==> SWITCHES[j] != SWITCHES[i]
  {
    hide IsSplit, Lookup;
    NamesDiffer();
  }

  lemma ReportedEdit(root: seq<Member<Json>>, patch: seq<Member<Json>>, key: string)
    requires key in REPORTED
    ensures key !in Migrated()
    ensures EditOf(root, patch, key)
         == if Has(patch, key) then Some(if Has(root, key) then Set(Lookup(root, key).value) else Removed) else None
  {
    hide IsSplit, Lookup;
    NamesDiffer();
    ReportedNames();
  }

  lemma ReportedNames()
    ensures REPORTED[0] != REPORTED[1] && forall k :: k in REPORTED ==> k != "mount_hide_mode"
  {}

  lemma ObsoleteEdit(root: seq<Member<Json>>, patch: seq<Member<Json>>)
    ensures EditOf(root, patch, "mount_hide_mode") == Some(Removed)
    ensures "mount_hide_mode" !in Migrated() && "mount_hide_mode" !in REPORTED
  {
    NamesDiffer();
    ReportedNames();
  }

  lemma AllEdits(journal: seq<Member<Change>>, root: seq<Member<Json>>, patch: seq<Member<Json>>, keys: set<string>)
    requires Journals(journal, root, patch, keys) && keys == Migrated() + (set k | k in REPORTED) + {"mount_hide_mode"}
    ensures forall k :: Lookup(journal, k) == EditOf(root, patch, k)
  {
    hide Lookup, IsSplit;
    forall k
      ensures Lookup(journal, k) == EditOf(root, patch, k)
    {
      if k !in keys {
        assert k !in SWITCHES && k != VERSION && k != LEGACY && k !in REPORTED;
      }
    }
  }

  /** The merge key by key. The removed mode is gone; what the daemon reports stays as it was stored; a key of
    * the patch has the patch's value. In a document of before the split that gets its first split key, the
    * other switches are set to what the old flag made of them, with version three and without the flag.
    * Everything else stays. */
  lemma MergeMeans(root: seq<Member<Json>>, patch: seq<Member<Json>>, members: seq<Member<Json>>, key: string)
    requires IsMerge(members, root, patch)
    ensures var before, given, after := Lookup(root, key), Lookup(patch, key), Lookup(members, key);
            var migrates := !HasSplitKeys(root) && HasSplitKeys(patch);
            var legacy := IsTrue(root, "enable_hidexattr");
            after ==
              if key == "mount_hide_mode" then None
              else if key == "kasumi_available" || key == "tmpfs_xattr_supported" then before
              else if given.Some? then given
              else if !migrates then before
              else if key == "enable_hidexattr" then None
              else if key == "kasumi_feature_config_version" then Some(Json.Number(0x4008_0000_0000_0000))
              else if key == "enable_overlay_xattr_hide" || key == "enable_mount_hide" || key == "enable_maps_spoof"
                      || key == "enable_statfs_spoof" then Some(Bool(legacy))
              else if key == "enable_selinux_fix" then Some(Bool(legacy || IsTrue(root, "enable_selinux_fix")))
              else if key == "enable_stealth" then Some(Bool(legacy || !IsFalse(root, "enable_stealth")))
              else before
  {
    SplitKeysExactly(root);
    SplitKeysExactly(patch);
    TruthExactly(root);
    hide Lookup, IsSplit, HasSplitKeys, BoolOr, IsTrue, IsFalse;
    NamesDiffer();
    assert Lookup(members, key) == Select(Lookup(root, key), Lookup(patch, key), EditOf(root, patch, key));
    SwitchNames(key);
  }

  lemma SwitchNames(key: string)
    ensures key in SWITCHES <==>
            || key == "enable_overlay_xattr_hide" || key == "enable_mount_hide" || key == "enable_maps_spoof"
            || key == "enable_statfs_spoof" || key == "enable_selinux_fix" || key == "enable_stealth"
    ensures key in REPORTED <==> key == "kasumi_available" || key == "tmpfs_xattr_supported"
  {
    assert SWITCHES[0] in SWITCHES && SWITCHES[1] in SWITCHES && SWITCHES[2] in SWITCHES && SWITCHES[3] in SWITCHES;
    assert SWITCHES[4] in SWITCHES && SWITCHES[5] in SWITCHES && REPORTED[0] in REPORTED && REPORTED[1] in REPORTED;
  }

  // ---- saving the merge ------------------------------------------------------------------

  datatype Status = Accepted | BadInput | Obsolete | Protected | Full

  /** Patches that are refused whatever the document is. */
  function PatchStatus(patch: seq<Member<Json>>): Status {
    if Has(patch, "mount_hide_mode") then Obsolete else if Has(patch, "lkm_autoload") then Protected else Accepted
  }

  /** The saved text is taken as a document again, and its members are the merge of those of the two texts. */
  ghost predicate IsMergedText(read: Reader, current: string, updates: string, saved: string) {
    && Accepts(read, current) && Accepts(read, updates) && Accepts(read, saved)
    && IsMerge(MembersIn(read, saved), MembersIn(read, current), MembersIn(read, updates))
  }

  /** Merge an updating text into the current one and save the result. Beside the two texts and the
    * refused keys only room decides, and what is saved reads back as the merge. */
  method MergeConfigJson(current: array<char>, updates: array<char>, output: array<char>, read: Reader,
          scales: array<Wide>)
    returns (status: Status, size: nat, ghost text: string, ghost members: seq<Member<Json>>)
    requires IsReader(read) && IsScaleTable(scales) && output.Length == MAXIMUM_BYTES
    requires current != updates && current != output && updates != output
    modifies current, updates, output
    ensures var old0, new0 := old(current[..]), old(updates[..]);
            && (!Accepts(read, new0) ==> status == BadInput)
            && (Accepts(read, new0) && !PatchStatus(MembersIn(read, new0)).Accepted? ==>
               status == PatchStatus(MembersIn(read, new0)))
            && (Accepts(read, new0) && PatchStatus(MembersIn(read, new0)).Accepted? ==>
                  (status.Accepted? || status.Full? || status.BadInput?)
                      && (status.BadInput? <==> !Accepts(read, old0)))
    ensures Accepts(read, old(updates[..])) ==>
              var patch := MembersIn(read, old(updates[..]));
              && (status.Obsolete? <==> Lookup(patch, "mount_hide_mode").Some?)
              && (status.Protected? <==>
                  Lookup(patch, "mount_hide_mode").None? && Lookup(patch, "lkm_autoload").Some?)
    ensures status.Accepted? || status.Full? ==>
              Accepts(read, old(current[..])) && Accepts(read, old(updates[..])) && Sorted(members)
              && IsMerge(members, MembersIn(read, old(current[..])), MembersIn(read, old(updates[..])))
              && Prints(Object(members), 2, 1, text) && (status.Accepted? <==> |text| < MAXIMUM_BYTES)
    ensures status.Accepted? ==> size == |text| + 1 && output[..size] == text + "\n"
    ensures status.Accepted? ==> IsMergedText(read, old(current[..]), old(updates[..]), output[..size])
  {
    hide Denotes, IsReader, IsScaleTable, ParseText, IsMerge, Prints, Accepts, Lookup, Shallow;
    status, size, text, members := BadInput, 0, "", [];
    ghost var currentText, updatesText := current[..], updates[..];
    var overlay := LoadObject(updates, read);
    if overlay.None? {
      return;
    }
    ghost var patch := MembersIn(read, updatesText);
    status := CheckPatch(overlay.value, patch);
    if !status.Accepted? {
      return;
    }
    assert current[..] == currentText;
    var source := LoadObject(current, read);
    if source.None? {
      status := BadInput;
      return;
    }
    ghost var root := MembersIn(read, currentText);
    var sink := new Writer(output);
    var ok;
    ok, text, members := SaveMerge(source.value, overlay.value, root, patch, sink, scales);
    MergeIsShallow(read, currentText, updatesText, members);
    status, size := if ok then Accepted else Full, sink.size;
    if ok {
      assert output[..size] == text + "\n";
      SavedIsMerge(read, currentText, updatesText, members, text);
    }
  }

  /** The two documents fix the merge and its text, so whether it fits is a matter of the two texts alone. */
  lemma SavedTextUnique(root: seq<Member<Json>>, patch: seq<Member<Json>>, members: seq<Member<Json>>, text: string,
          others: seq<Member<Json>>, other: string)
    requires Sorted(members) && IsMerge(members, root, patch) && Prints(Object(members), 2, 1, text)
    requires Sorted(others) && IsMerge(others, root, patch) && Prints(Object(others), 2, 1, other)
    ensures members == others && text == other
  {
    hide Prints, Lookup, EditOf, Sorted;
    forall k
      ensures Lookup(members, k) == Lookup(others, k)
    {
      assert Lookup(members, k) == Select(Lookup(root, k), Lookup(patch, k), EditOf(root, patch, k));
    }
    SortedUnique(members, others);
    PrintsUnique(Object(members), 2, 1, text, other);
  }

  method CheckPatch(overlay: Ref, ghost patch: seq<Member<Json>>) returns (status: Status)
    requires Denotes(overlay, Object(patch))
    ensures status == PatchStatus(patch)
  {
    hide Denotes, Has;
    var obsolete := Contains(overlay, patch, "mount_hide_mode");
    if obsolete {
      return Obsolete;
    }
    var guarded := Contains(overlay, patch, "lkm_autoload");
    return if guarded then Protected else Accepted;
  }

  /** Write the merge and a final line break. */
  method SaveMerge(source: Ref, overlay: Ref, ghost root: seq<Member<Json>>, ghost patch: seq<Member<Json>>,
          sink: Writer, scales: array<Wide>)
    returns (ok: bool, ghost text: string, ghost members: seq<Member<Json>>)
    requires Denotes(source, Object(root)) && Denotes(overlay, Object(patch)) && sink.Valid() && IsScaleTable(scales)
    modifies sink, sink.data
    ensures sink.Valid() && Sorted(members) && IsMerge(members, root, patch) && WellFormed(Object(members))
    ensures Shallow(Object(members), 2, 1) ==>
              Prints(Object(members), 2, 1, text) && (ok <==> |text| < old(sink.Remaining()))
    ensures ok ==> sink.View() == old(sink.View()) + text + "\n"
  {
    hide Holds, WellFormed, IsScaleTable, IsMerge, Prints, Shallow, Sorted, Merged, Lookup, EditOf, AllMean;
    var merged := new ObjectWriter(source, Some(overlay), Object(root), Some(Object(patch)));
    RecordEdits(merged, root, patch);
    members := merged.Members();
    MembersAreMerge(merged.original, merged.patch, merged.edits[..merged.size], merged.changes, root, patch);
    ok, text := merged.WriteEach(sink, 2, scales);
    if ok {
      ok := sink.AppendChar('\n');
    }
  }

  lemma MembersAreMerge(original: Json, patched: Option<Json>, edits: seq<Member<Edit>>, changes: seq<Member<Change>>,
          root: seq<Member<Json>>, patch: seq<Member<Json>>)
    requires original == Object(root) && patched == Some(Object(patch)) && WellFormed(original)
             && WellFormed(patched.value)
    requires Sorted(changes) && AllMean(edits, changes) && forall k :: Lookup(changes, k) == EditOf(root, patch, k)
    ensures var members := Merged(MembersOf(Some(original)), MembersOf(patched), changes);
            Sorted(members) && IsMerge(members, root, patch) && WellFormed(Object(members))
  {
    hide Sorted, Merged, Lookup, EditOf, AllMean;
    MembersWellFormed(original, patched, edits, changes);
    MergedSorted(root, patch, changes);
    forall k
      ensures Lookup(Merged(root, patch, changes), k)
              == Select(Lookup(root, k), Lookup(patch, k), EditOf(root, patch, k))
    {
      MergedLookup(root, patch, changes, k);
    }
  }

  /** The merge of two accepted documents nests no deeper than they may. */
  lemma MergeIsShallow(read: Reader, current: string, updates: string, members: seq<Member<Json>>)
    requires IsReader(read) && Accepts(read, current) && Accepts(read, updates)
    requires Sorted(members) && IsMerge(members, MembersIn(read, current), MembersIn(read, updates))
    ensures Height(Object(members)) <= DEPTH_LIMIT && Shallow(Object(members), 2, 1)
  {
    hide IsReader, ParseText, Height, Lookup, EditOf, WellFormed, Less;
    var root, patch := MembersIn(read, current), MembersIn(read, updates);
    JsonRoundTrip.ParsedIsPrintable(read, current);
    JsonRoundTrip.ParsedIsPrintable(read, updates);
    var v := Object(members);
    forall k | 0 <= k < Size(v)
      ensures Height(Element(v, k)) < DEPTH_LIMIT
    {
      LookupAt(members, k);
      var key := members[k].key;
      assert Lookup(members, key) == Select(Lookup(root, key), Lookup(patch, key), EditOf(root, patch, key));
      FoundIsShallow(root, key);
      FoundIsShallow(patch, key);
      EditIsShallow(root, patch, key);
    }
    JsonRoundTrip.HighestWithin(v, Size(v), DEPTH_LIMIT - 1);
    HeightIs(v);
  }

  lemma FoundIsShallow(root: seq<Member<Json>>, key: string)
    requires Height(Object(root)) <= DEPTH_LIMIT
    ensures Has(root, key) ==> Height(Lookup(root, key).value) < DEPTH_LIMIT
  {
    hide Lookup, Height;
    if Has(root, key) {
      LookedUpIsMember(root, key);
      var i :| 0 <= i < |root| && root[i] == Member(key, Lookup(root, key).value);
      HighestCovers(Object(root), |root|, i);
      HeightIs(Object(root));
    }
  }

  lemma EditIsShallow(root: seq<Member<Json>>, patch: seq<Member<Json>>, key: string)
    requires Height(Object(root)) <= DEPTH_LIMIT
    ensures var e := EditOf(root, patch, key); e.Some? && e.value.Set? ==> Height(e.value.value) < DEPTH_LIMIT
  {
    hide Lookup, Highest, IsSplit;
    FoundIsShallow(root, key);
  }

  /** A saved print of the merge, with its line break, is accepted and reads as the merge. */
  lemma SavedIsMerge(read: Reader, current: string, updates: string, members: seq<Member<Json>>, text: string)
    requires IsReader(read) && Accepts(read, current) && Accepts(read, updates) && WellFormed(Object(members))
    requires Sorted(members) && IsMerge(members, MembersIn(read, current), MembersIn(read, updates))
    requires Prints(Object(members), 2, 1, text) && |text| < MAXIMUM_BYTES
    ensures IsMergedText(read, current, updates, text + "\n")
  {
    hide IsReader, ParseValue, Height, WellFormed, IsMerge, Prints;
    MergeIsShallow(read, current, updates, members);
    PrintParses(read, Object(members), 2, 1, text, "\n");
    BlankGoesOn("\n");
  }

  // ---- the switches after the merge ------------------------------------------------------

  /** The patch sets switches only to booleans. */
  predicate BooleanSwitches(patch: seq<Member<Json>>) {
    forall k :: k in SWITCHES && Has(patch, k) ==> Lookup(patch, k).value.Bool?
  }

  /** The switch that was in effect, overridden by the patch. */
  function Overridden(root: seq<Member<Json>>, patch: seq<Member<Json>>, key: string): bool {
    if Has(patch, key) then BoolOr(patch, key, false) else Effective(root, key)
  }

  /** A patch that carries split switches, or their version, changes exactly the switches it names,
    * whatever the document was before. */
  lemma SwitchesKept(root: seq<Member<Json>>, patch: seq<Member<Json>>, members: seq<Member<Json>>, key: string)
    requires IsMerge(members, root, patch) && IsSplit(patch) && BooleanSwitches(patch) && key in SWITCHES
    ensures IsSplit(members) && Effective(members, key) == Overridden(root, patch, key)
  {
    hide Lookup;
    NamesDiffer();
    MergedIsSplit(root, patch, members);
    hide IsSplit;
    assert Lookup(members, key) == Select(Lookup(root, key), Lookup(patch, key), EditOf(root, patch, key));
    SwitchEditOf(root, patch, key);
  }

  lemma SwitchEditOf(root: seq<Member<Json>>, patch: seq<Member<Json>>, key: string)
    requires key in SWITCHES
    ensures EditOf(root, patch, key)
         == if Migrates(root, patch) && !Has(patch, key) then Some(Set(Bool(Enabled(root, key)))) else None
  {
    hide Lookup, IsSplit;
    NamesDiffer();
  }

  lemma MergedIsSplit(root: seq<Member<Json>>, patch: seq<Member<Json>>, members: seq<Member<Json>>)
    requires IsMerge(members, root, patch) && IsSplit(patch)
    ensures IsSplit(members)
  {
    hide Lookup;
    NamesDiffer();
    SplitAreSwitches();
    if k :| k in SPLIT && Has(patch, k) {
      SwitchEditOf(root, patch, k);
      assert Has(members, k);
    } else {
      assert Lookup(members, VERSION)
          == Select(Lookup(root, VERSION), Lookup(patch, VERSION), EditOf(root, patch, VERSION));
      VersionKept(root, patch);
    }
  }

  lemma VersionKept(root: seq<Member<Json>>, patch: seq<Member<Json>>)
    requires Has(patch, VERSION)
    ensures EditOf(root, patch, VERSION).None?
  {
    hide Lookup, IsSplit;
    NamesDiffer();
  }

  lemma SplitAreSwitches()
    ensures forall k :: k in SPLIT ==> k in SWITCHES
  {}

  /** Without split switches in the patch the same holds as long as the merged document has some. */
  lemma SwitchesKeptWhileSplit(root: seq<Member<Json>>, patch: seq<Member<Json>>, members: seq<Member<Json>>,
          key: string)
    requires IsMerge(members, root, patch) && IsSplit(root) && IsSplit(members) && BooleanSwitches(patch)
             && key in SWITCHES
    ensures Effective(members, key) == Overridden(root, patch, key)
  {
    hide Lookup, IsSplit;
    assert Lookup(members, key) == Select(Lookup(root, key), Lookup(patch, key), EditOf(root, patch, key));
    SwitchEditOf(root, patch, key);
  }

  /** The merged document carries split switches, seen before the merge. */
  predicate MergeIsSplit(root: seq<Member<Json>>, patch: seq<Member<Json>>) {
    || IsSplit(patch)
    || (exists k :: k in SPLIT && Has(root, k))
    || (IntOr(root, VERSION) >= 2 && !Has(patch, VERSION))
  }

  lemma MergedSplitExactly(root: seq<Member<Json>>, patch: seq<Member<Json>>, members: seq<Member<Json>>)
    requires IsMerge(members, root, patch)
    ensures IsSplit(members) <==> MergeIsSplit(root, patch)
  {
    if IsSplit(patch) {
      MergedIsSplit(root, patch, members);
    } else {
      hide Lookup;
      NamesDiffer();
      SplitAreSwitches();
      assert Lookup(members, VERSION)
          == Select(Lookup(root, VERSION), Lookup(patch, VERSION), EditOf(root, patch, VERSION));
      forall k | k in SPLIT
        ensures Has(members, k) <==> Has(root, k)
      {
        SwitchEditOf(root, patch, k);
        assert !Has(patch, k);
        assert Lookup(members, k) == Select(Lookup(root, k), Lookup(patch, k), EditOf(root, patch, k));
      }
    }
  }

  /** The legacy flag in effect before the merge, and the one the merged document carries. */
  predicate LegacyBefore(root: seq<Member<Json>>) { !IsSplit(root) && BoolOr(root, LEGACY, false) }

  predicate LegacyAfter(root: seq<Member<Json>>, patch: seq<Member<Json>>) {
    if Has(patch, LEGACY) then BoolOr(patch, LEGACY, false) else BoolOr(root, LEGACY, false)
  }

  /** On for its own sake: a switch beside the four that the document itself, or its default, turns on. */
  predicate OwnOn(root: seq<Member<Json>>, key: string) { key !in SPLIT && BoolOr(root, key, Default(key)) }

  /** When a merge leaves a switch as it was in effect, overridden by the patch: when the merged document
    * is split, or else when the legacy flag does not get in the way. A patched switch must not be turned
    * off under that flag; any other is on for its own sake or sees the flag unchanged. */
  predicate KeepsSwitch(root: seq<Member<Json>>, patch: seq<Member<Json>>, key: string) {
    || MergeIsSplit(root, patch)
    || if Has(patch, key) then !LegacyAfter(root, patch) || BoolOr(patch, key, false)
       else OwnOn(root, key) || LegacyAfter(root, patch) == LegacyBefore(root)
  }

  /** For every document and every patch that sets switches to booleans only. */
  lemma SwitchesExactly(root: seq<Member<Json>>, patch: seq<Member<Json>>, members: seq<Member<Json>>, key: string)
    requires IsMerge(members, root, patch) && BooleanSwitches(patch) && key in SWITCHES
    ensures Effective(members, key) == Overridden(root, patch, key) <==> KeepsSwitch(root, patch, key)
  {
    MergedSplitExactly(root, patch, members);
    if IsSplit(patch) {
      SwitchesKept(root, patch, members, key);
    } else if IsSplit(members) {
      SplitBefore(root, patch);
      SwitchesKeptWhileSplit(root, patch, members, key);
    } else {
      LegacyExactly(root, patch, members, key);
    }
  }

  lemma SplitBefore(root: seq<Member<Json>>, patch: seq<Member<Json>>)
    requires MergeIsSplit(root, patch) && !IsSplit(patch)
    ensures IsSplit(root)
  {
    hide Lookup;
  }

  lemma LegacyExactly(root: seq<Member<Json>>, patch: seq<Member<Json>>, members: seq<Member<Json>>, key: string)
    requires IsMerge(members, root, patch) && BooleanSwitches(patch) && key in SWITCHES
    requires !IsSplit(members) && !MergeIsSplit(root, patch)
    ensures Effective(members, key) == Overridden(root, patch, key) <==> KeepsSwitch(root, patch, key)
  {
    hide Lookup;
    SwitchKinds(key);
    SwitchEditOf(root, patch, key);
    LegacyEditOf(root, patch);
    assert Lookup(members, key) == Select(Lookup(root, key), Lookup(patch, key), EditOf(root, patch, key));
    assert Lookup(members, LEGACY) == Select(Lookup(root, LEGACY), Lookup(patch, LEGACY), EditOf(root, patch, LEGACY));
    assert key in SPLIT ==> !Has(patch, key) && !Has(root, key);
  }

  lemma LegacyEditOf(root: seq<Member<Json>>, patch: seq<Member<Json>>)
    requires !IsSplit(patch)
    ensures EditOf(root, patch, LEGACY).None?
  {
    hide Lookup, IsSplit;
    NamesDiffer();
  }

  lemma SwitchKinds(key: string)
    requires key in SWITCHES
    ensures key in SPLIT || key == SELINUX || key == STEALTH
    ensures key in SPLIT ==> key != SELINUX && key != STEALTH
    ensures SELINUX != STEALTH
  {
    NamesDiffer();
  }

  /** The same for the texts: after a merge has been saved and read back, a switch is what it was,
    * overridden by the patch, exactly under that condition. */
  lemma SavedSwitches(read: Reader, current: string, updates: string, saved: string, key: string)
    requires IsMergedText(read, current, updates, saved) && BooleanSwitches(MembersIn(read, updates)) && key in SWITCHES
    ensures var root, patch := MembersIn(read, current), MembersIn(read, updates);
            Effective(MembersIn(read, saved), key) == Overridden(root, patch, key) <==> KeepsSwitch(root, patch, key)
  {
    hide Accepts, ParseText, IsMerge, Effective, Overridden, KeepsSwitch, BooleanSwitches;
    SwitchesExactly(MembersIn(read, current), MembersIn(read, updates), MembersIn(read, saved), key);
  }

  // ---- where it fails --------------------------------------------------------------------

  /** The bits of 1.0. */
  const ONE: nat := 0x3FF0_0000_0000_0000

  lemma SmallNumbers()
    ensures U32(THREE) == Some(3) && U32(ONE) == Some(1)
  {
    Pow52();
    assert Pow(2, 52) == 2 * Pow(2, 51);
    assert DecimalPrinter.SignificandOf(THREE) == 0x18_0000_0000_0000 && DecimalPrinter.ExponentOf(THREE) == -51;
    assert DecimalPrinter.SignificandOf(ONE) == 0x10_0000_0000_0000 && DecimalPrinter.ExponentOf(ONE) == -52;
  }

  /** A patch that lowers the version of a document whose switches are all left at their defaults turns
    * them on when an old legacy flag is still there, though it sets no switch. */
  lemma LoweredVersionTurnsOn(members: seq<Member<Json>>)
    requires IsMerge(members, [Member(LEGACY, Bool(true)), Member(VERSION, Json.Number(THREE))],
             [Member(VERSION, Json.Number(ONE))])
    ensures var root, patch :=
            [Member(LEGACY, Bool(true)), Member(VERSION, Json.Number(THREE))], [Member(VERSION, Json.Number(ONE))];
            forall key :: key in SPLIT ==> !Overridden(root, patch, key) && Effective(members, key)
  {
    var root := [Member(LEGACY, Bool(true)), Member(VERSION, Json.Number(THREE))];
    var patch := [Member(VERSION, Json.Number(ONE))];
    NamesDiffer();
    SmallNumbers();
    SplitAreSwitches();
    TwoLookups(LEGACY, Bool(true), VERSION, Json.Number(THREE));
    OneLookup(VERSION, Json.Number(ONE));
    hide Lookup, U32;
    MergedSplitExactly(root, patch, members);
    forall key | key in SPLIT
      ensures !Overridden(root, patch, key) && Effective(members, key)
    {
      assert !Has(patch, key) && !Has(root, key);
      SwitchesExactly(root, patch, members, key);
      SwitchKinds(key);
    }
  }

  /** A switch the legacy flag forces on cannot be turned off by a patch without split switches. */
  lemma LegacyForcesOn(members: seq<Member<Json>>)
    requires IsMerge(members, [Member(LEGACY, Bool(true))], [Member(SELINUX, Bool(false))])
    ensures var root, patch := [Member(LEGACY, Bool(true))], [Member(SELINUX, Bool(false))];
            !Overridden(root, patch, SELINUX) && Effective(members, SELINUX)
  {
    var root, patch := [Member(LEGACY, Bool(true))], [Member(SELINUX, Bool(false))];
    NamesDiffer();
    assert SWITCHES[4] == SELINUX;
    SplitAreSwitches();
    SwitchKinds(SELINUX);
    OneLookup(LEGACY, Bool(true));
    OneLookup(SELINUX, Bool(false));
    hide Lookup;
    SwitchesExactly(root, patch, members, SELINUX);
  }

  lemma OneLookup(a: string, v: Json)
    ensures forall k :: Lookup([Member(a, v)], k) == if k == a then Some(v) else None
  {}

  lemma TwoLookups(a: string, v: Json, b: string, w: Json)
    ensures forall k :: Lookup([Member(a, v), Member(b, w)], k)
                     == if k == a then Some(v) else if k == b then Some(w) else None
  {
    var s := [Member(a, v), Member(b, w)];
    assert s[1..] == [Member(b, w)];
    forall k
      ensures Lookup(s, k) == if k == a then Some(v) else if k == b then Some(w) else None
    {
      OneLookup(b, w);
      assert Lookup(s, k) == if k == a then Some(v) else Lookup(s[1..], k);
    }
  }
}
