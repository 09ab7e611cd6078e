/**
  `app/services/acord/direct_mapper.py`: routes raw PDF fields, through the
  `fieldMappings` table, either into a fixed nested coverage structure or
  into the "unmapped" dict handed to the organizer. The mapping file is not
  part of this model; the table is a parameter.
*/
module DirectMapper {
  import opened Wrappers
  import opened Strings
  import opened JsonValue
  import Dicts

  // ---------------------------------------------------------------------
  // Key normalisation
  // ---------------------------------------------------------------------

  /** Removes a trailing `[0]`, or else cuts a key ending in `]` at its last `[`. */
  function NormalizeKey(k: string): (r: string)
    ensures |r| <= |k| && r == k[..|r|]
    ensures !EndsWith(k, "]") ==> r == k
  {
    if EndsWith(k, "[0]") then k[..|k| - 3]
    else if EndsWith(k, "]") && '[' in k then k[..RFindChar(k, '[')]
    else k
  }

  /** Any bracketed index without an inner `[` is removed whole: `Name[3]` and `Name[0]` both give `Name`. */
  lemma NormalizeKeyIndex(name: string, index: string)
    requires '[' !in index
    ensures NormalizeKey(name + "[" + index + "]") == name
  {
    var k := name + "[" + index + "]";
    IndexedKeyShape(name, index);
    if EndsWith(k, "[0]") {
      assert k[|k| - 3] == '[';
      assert k[..|k| - 3] == name;
    } else {
      assert k[|k| - 1..] == "]";
      assert RFindChar(k, '[') == |name|;
      assert k[..|name|] == name;
    }
  }

  /** The one `[` of `name[index]` after `name` is the one that opens the index. */
  lemma IndexedKeyShape(name: string, index: string)
    requires '[' !in index
    ensures var k := name + "[" + index + "]";
      && k[|name|] == '[' && k[|k| - 1] == ']'
      && (forall i :: |name| < i < |k| ==> k[i] != '[')
      && (EndsWith(k, "[0]") ==> |k| - 3 == |name|)
  {
    var k := name + "[" + index + "]";
    forall i | |name| < i < |k|
      ensures k[i] != '['
    {
      if i < |k| - 1 {
        assert k[i] == index[i - |name| - 1];
      }
    }
    if EndsWith(k, "[0]") {
      assert k[|k| - 3] == '[';
    }
  }

  function NormalizedPairs(raw: Object): (r: Object)
    ensures |r| == |raw|
    ensures forall i :: 0 <= i < |raw| ==> r[i] == (NormalizeKey(raw[i].0), raw[i].1)
  {
    seq(|raw|, i requires 0 <= i < |raw| => (NormalizeKey(raw[i].0), raw[i].1))
  }

  /** `normalized_fields`: the raw fields under their normalised keys; on a collision the later one wins. */
  function NormalizeFields(raw: Object): (r: Object)
    ensures Dicts.DistinctKeys(r)
  {
    Dicts.FromPairs(NormalizedPairs(raw))
  }

  /** When two raw keys normalise to the same key, the later entry's value is kept. */
  lemma NormalizeFieldsLaterWins(raw: Object, i: nat)
    requires i < |raw|
    requires forall j :: i < j < |raw| ==> NormalizeKey(raw[j].0) != NormalizeKey(raw[i].0)
    ensures Dicts.Get(NormalizeFields(raw), NormalizeKey(raw[i].0)) == Some(raw[i].1)
  {
    Dicts.FromPairsLastWins(NormalizedPairs(raw), i);
  }

  // ---------------------------------------------------------------------
  // Coverage paths
  // ---------------------------------------------------------------------

  const CoveragePrefixes: seq<string> := [
    "issue_date",
    "certificate_number",
    "certificate_holder",
    "general_liability.",
    "auto_liability.",
    "umbrella.",
    "workers_comp.",
    "other.",
    "remarks",
    "authorized_representative"
  ]

  /** `prefix.rstrip('.')`. */
  function StripDots(s: string): (r: string)
    ensures |r| <= |s| && r == s[..|r|]
    ensures r == [] || r[|r| - 1] != '.'
  {
    if |s| > 0 && s[|s| - 1] == '.' then StripDots(s[..|s| - 1]) else s
  }

  /** `_is_coverage_path` over a list of prefixes: the loop returns on the first prefix that fits. */
  function AnyPrefixFits(prefixes: seq<string>, path: string): (r: bool)
    ensures r <==> exists i :: 0 <= i < |prefixes| && (StartsWith(path, prefixes[i]) || path == StripDots(prefixes[i]))
  {
    if |prefixes| == 0 then false
    else if StartsWith(path, prefixes[0]) || path == StripDots(prefixes[0]) then true
    else
      var r := AnyPrefixFits(prefixes[1..], path);
      assert forall i :: 1 <= i < |prefixes| ==> prefixes[i] == prefixes[1..][i - 1];
      r
  }

  predicate IsCoveragePath(path: string) {
    AnyPrefixFits(CoveragePrefixes, path)
  }

  /** Every `certificate_holder…` path counts as coverage, so the holder never reaches the organizer. */
  lemma CertificateHolderIsCoverage(rest: string)
    ensures IsCoveragePath("certificate_holder" + rest)
    ensures IsCoveragePath("general_liability." + rest)
    ensures IsCoveragePath("umbrella")
    ensures !IsCoveragePath("insured.name")
  {
    assert StartsWith("certificate_holder" + rest, CoveragePrefixes[2]);
    assert StartsWith("general_liability." + rest, CoveragePrefixes[3]);
    assert StripDots("umbrella.") == "umbrella";
    assert "umbrella" == StripDots(CoveragePrefixes[5]);
    InsuredNameNotCoverage();
  }

  /** No prefix fits `insured.name`: only `issue_date` shares its first letter, and not its second. */
  lemma InsuredNameNotCoverage()
    ensures !IsCoveragePath("insured.name")
  {
    forall i | 0 <= i < |CoveragePrefixes|
      ensures !StartsWith("insured.name", CoveragePrefixes[i]) && "insured.name" != StripDots(CoveragePrefixes[i])
    {
      var p := CoveragePrefixes[i];
      assert "insured.name"[..2] == "in";
      var q := StripDots(p);
      assert |q| > 1 ==> q[..2] == p[..2];
    }
  }

  // ---------------------------------------------------------------------
  // The coverage structure
  // ---------------------------------------------------------------------

  const HolderKeys: seq<string> := ["name", "address"]
  const GeneralLiabilityKeys: seq<string> := [
    "insurer_letter", "policy_number", "effective_date", "expiration_date",
    "general_liability_coverage_indicator", "claims_made", "occurrence",
    "custom_option_1", "custom_option_1_value", "custom_option_2", "custom_option_2_value",
    "general_aggregate_limit_applies_per_policy", "general_aggregate_limit_applies_per_project",
    "general_aggregate_limit_applies_per_location", "general_aggregate_limit_applies_per_other",
    "general_aggregate_limit_applies_per_other_value", "each_occurrence",
    "damage_to_rented_premises", "medical_expense", "personal_adv_injury",
    "general_aggregate", "products_comp_op_agg", "additional_insured", "subrogation_waived"
  ]
  const AutoLiabilityKeys: seq<string> := [
    "insurer_letter", "policy_number", "effective_date", "expiration_date",
    "any_auto", "owned_autos_only", "hired_autos_only", "scheduled_autos_only",
    "non_owned_autos_only", "custom_option_1", "custom_option_1_value",
    "custom_option_2", "custom_option_2_value", "combined_single_limit",
    "bodily_injury_per_person", "bodily_injury_per_accident", "property_damage",
    "additional_insured", "subrogation_waived"
  ]
  const UmbrellaKeys: seq<string> := [
    "insurer_letter", "policy_number", "effective_date", "expiration_date",
    "umbrella_liab", "excess_liab", "occurrence", "claims_made", "deductible",
    "retention", "retention_amount", "each_occurrence", "aggregate",
    "additional_insured", "subrogation_waived"
  ]
  const WorkersCompKeys: seq<string> := [
    "insurer_letter", "policy_number", "effective_date", "expiration_date",
    "per_statute", "other", "per_statute_other_limit", "each_accident",
    "disease_each_employee", "disease_policy_limit", "any_excluded",
    "additional_insured", "subrogation_waived"
  ]
  const OtherKeys: seq<string> := [
    "insurer_letter", "type_of_insurance", "addl", "subr", "policy_number",
    "effective_date", "expiration_date", "description", "first_policy_option",
    "first_policy_limit", "second_policy_option", "second_policy_limit",
    "third_policy_option", "third_policy_limit"
  ]

  /** A dict holding `None` under each of the keys. */
  function NullSection(keys: seq<string>): (r: Object)
    ensures Dicts.Keys(r) == keys
    ensures forall i :: 0 <= i < |r| ==> r[i].1 == JNull
  {
    seq(|keys|, i requires 0 <= i < |keys| => (keys[i], JNull))
  }

  /** `_init_coverage_structure`. */
  function InitCoverage(): (r: Object)
    ensures Dicts.DistinctKeys(r)
  {
    [
      ("issue_date", JNull),
      ("certificate_number", JNull),
      ("certificate_holder", JObj(NullSection(HolderKeys))),
      ("general_liability", JObj(NullSection(GeneralLiabilityKeys))),
      ("auto_liability", JObj(NullSection(AutoLiabilityKeys))),
      ("umbrella", JObj(NullSection(UmbrellaKeys))),
      ("workers_comp", JObj(NullSection(WorkersCompKeys))),
      ("other", JObj(NullSection(OtherKeys))),
      ("remarks", JNull),
      ("authorized_representative", JNull)
    ]
  }

  // ---------------------------------------------------------------------
  // Writing along a dot-path
  // ---------------------------------------------------------------------

  /** The value at the end of a key path, `None` where the path leaves the dicts. */
  function GetPath(d: Object, keys: seq<string>): Json
    requires |keys| >= 1
    decreases |keys|
  {
    if |keys| == 1 then Get(d, keys[0])
    else
      var child := Get(d, keys[0]);
      if child.JObj? then GetPath(child.fields, keys[1..]) else JNull
  }

  /** A string value is stripped before it is written. */
  function Cleaned(value: Json): (r: Json)
    ensures !value.JStr? ==> r == value
    ensures value.JStr? ==> r == JStr(Trim(value.s))
  {
    if value.JStr? then JStr(Trim(value.s)) else value
  }

  /** Whether a write to `address` over the existing value `existing` appends. */
  predicate Appends(key: string, existing: Json) {
    key == "address" && Truthy(existing)
  }

  /** The final assignment of `_set_nested_value`: an `address` already holding a value is extended, not overwritten. */
  function SetLeaf(d: Object, key: string, value: Json): (r: Object)
    ensures !Appends(key, Get(d, key)) ==> Get(r, key) == value
    ensures Appends(key, Get(d, key)) && Truthy(value) && !IsBlank(PyStr(value)) ==>
      Get(r, key) == JStr(PyStr(Get(d, key)) + ", " + PyStr(value))
    ensures Appends(key, Get(d, key)) && !(Truthy(value) && !IsBlank(PyStr(value))) ==> r == d
    ensures forall k :: k != key ==> Get(r, k) == Get(d, k)
    ensures Dicts.Keys(d) <= Dicts.Keys(r)
  {
    var existing := Get(d, key);
    var r :=
      if Appends(key, existing) then
        if Truthy(value) && !IsBlank(PyStr(value)) then Dicts.Put(d, key, JStr(PyStr(existing) + ", " + PyStr(value)))
        else d
      else Dicts.Put(d, key, value);
    assert forall k :: k != key ==> Get(r, k) == Get(d, k) by {
      forall k | k != key ensures Get(r, k) == Get(d, k) {
        if r != d {
          Dicts.PutOther(d, key, r[Dicts.IndexOf(r, key)].1, k);
        }
      }
    }
    r
  }

  /** The walk of `_set_nested_value` below the keys already consumed. */
  function SetPath(d: Object, keys: seq<string>, value: Json): (r: Object)
    requires |keys| >= 1
    ensures forall k :: k != keys[0] ==> Get(r, k) == Get(d, k)
    ensures Dicts.Keys(d) <= Dicts.Keys(r)
    decreases |keys|
  {
    if |keys| == 1 then SetLeaf(d, keys[0], value)
    else
      var child := Get(d, keys[0]);
      var sub := if child.JObj? then child.fields else [];
      var r := Dicts.Put(d, keys[0], JObj(SetPath(sub, keys[1..], value)));
      assert forall k :: k != keys[0] ==> Get(r, k) == Get(d, k) by {
        forall k | k != keys[0] ensures Get(r, k) == Get(d, k) {
          Dicts.PutOther(d, keys[0], JObj(SetPath(sub, keys[1..], value)), k);
        }
      }
      r
  }

  /** `path.split('.')`. */
  function PathKeys(path: string): (keys: seq<string>)
    ensures |keys| >= 1
  {
    SplitBy(path, c => c == '.')
  }

  /** `_set_nested_value(data, path, value)`. */
  function SetNested(data: Object, path: string, value: Json): (r: Object)
    ensures forall k :: k != PathKeys(path)[0] ==> Get(r, k) == Get(data, k)
    ensures Dicts.Keys(data) <= Dicts.Keys(r)
  {
    SetPath(data, PathKeys(path), Cleaned(value))
  }

  /**
    Read after write: unless the leaf is an `address` that already holds a
    value, the path afterwards holds exactly the value written; an
    `address` that holds a value is extended with ", " and the new value
    when that is not blank.
  */
  lemma {:induction false} SetPathGet(d: Object, keys: seq<string>, value: Json)
    requires |keys| >= 1
    ensures !Appends(keys[|keys| - 1], GetPath(d, keys)) ==> GetPath(SetPath(d, keys, value), keys) == value
    ensures Appends(keys[|keys| - 1], GetPath(d, keys)) && Truthy(value) && !IsBlank(PyStr(value)) ==>
      GetPath(SetPath(d, keys, value), keys) == JStr(PyStr(GetPath(d, keys)) + ", " + PyStr(value))
    ensures Appends(keys[|keys| - 1], GetPath(d, keys)) && !(Truthy(value) && !IsBlank(PyStr(value))) ==>
      GetPath(SetPath(d, keys, value), keys) == GetPath(d, keys)
    decreases |keys|
  {
    if |keys| > 1 {
      var child := Get(d, keys[0]);
      var sub := if child.JObj? then child.fields else [];
      SetPathGet(sub, keys[1..], value);
      assert GetPath(d, keys) == GetPath(sub, keys[1..]) by {
        if !child.JObj? {
          assert Get(sub, keys[1..][0]) == JNull;
          GetPathEmpty(keys[1..]);
        }
      }
    }
  }

  lemma {:induction false} GetPathEmpty(keys: seq<string>)
    requires |keys| >= 1
    ensures GetPath([], keys) == JNull
    decreases |keys|
  {
  }

  /** Two key paths part somewhere: neither is a prefix of the other. */
  predicate Diverge(a: seq<string>, b: seq<string>) {
    exists i :: 0 <= i < |a| && i < |b| && a[i] != b[i]
  }

  /** A write along one path leaves every path that parts from it as it was. */
  lemma {:induction false} SetPathOther(d: Object, keys: seq<string>, value: Json, other: seq<string>)
    requires |keys| >= 1 && |other| >= 1 && Diverge(keys, other)
    ensures GetPath(SetPath(d, keys, value), other) == GetPath(d, other)
    decreases |keys|
  {
    var r := SetPath(d, keys, value);
    if keys[0] != other[0] {
      assert Get(r, other[0]) == Get(d, other[0]);
    } else {
      var i :| 0 <= i < |keys| && i < |other| && keys[i] != other[i];
      assert i > 0 && |keys| > 1 && |other| > 1;
      assert keys[1..][i - 1] == keys[i] && other[1..][i - 1] == other[i];
      var child := Get(d, keys[0]);
      var sub := if child.JObj? then child.fields else [];
      SetPathOther(sub, keys[1..], value, other[1..]);
      assert Get(r, keys[0]) == JObj(SetPath(sub, keys[1..], value));
      if !child.JObj? {
        GetPathEmpty(other[1..]);
      }
    }
  }

  // ---------------------------------------------------------------------
  // Checkbox normalisation
  // ---------------------------------------------------------------------

  /** The keys whose non-dict values `_normalize_checkboxes` rewrites. */
  const CheckboxFields: seq<string> := [
    "claims_made", "occurrence", "custom_option_1", "custom_option_2",
    "general_aggregate_limit_applies_per_policy",
    "general_aggregate_limit_applies_per_project",
    "general_aggregate_limit_applies_per_location",
    "general_aggregate_limit_applies_per_other",
    "additional_insured", "subrogation_waived",
    "any_auto", "owned_autos_only", "hired_autos_only",
    "scheduled_autos_only", "non_owned_autos_only",
    "umbrella_liab", "excess_liab", "deductible", "retention",
    "per_statute", "other", "any_excluded",
    "addl", "subr"
  ]

  const YesWords: seq<string> := ["yes", "y", "true", "1", "/1", "/yes", "x", "checked", "on"]
  const NoWords: seq<string> := ["no", "n", "false", "0", "/0", "/no", "off", "unchecked"]

  const Yes := JStr("Yes")
  const No := JStr("No")

  lemma WordListsDisjoint(t: string)
    ensures !(t in YesWords && t in NoWords)
  {
  }

  /** `normalize_value`: None stays None, a bool or a recognised word becomes "Yes"/"No", anything else is kept. */
  function NormalizeValue(v: Json): (r: Json)
    ensures r == JNull <==> v == JNull
    ensures v.JBool? ==> r == (if v.b then Yes else No)
    ensures r == v || r == Yes || r == No
    ensures !v.JStr? && !v.JBool? ==> r == v
    ensures v.JStr? && Trim(Lower(v.s)) in YesWords ==> r == Yes
    ensures v.JStr? && Trim(Lower(v.s)) in NoWords ==> r == No
  {
    match v
    case JNull => JNull
    case JBool(b) => if b then Yes else No
    case JStr(s) =>
      var t := Trim(Lower(s));
      WordListsDisjoint(t);
      if t in YesWords then Yes else if t in NoWords then No else v
    case _ => v
  }

  /** "Yes" and "No" are fixed points, so normalising twice changes nothing. */
  lemma NormalizeValueIdempotent(v: Json)
    ensures NormalizeValue(NormalizeValue(v)) == NormalizeValue(v)
  {
    var r := NormalizeValue(v);
    if r == Yes {
      YesNoFixed();
    } else if r == No {
      YesNoFixed();
    }
  }

  lemma YesNoFixed()
    ensures NormalizeValue(Yes) == Yes && NormalizeValue(No) == No
  {
    CanonicalWords();
    assert YesWords[0] == "yes";
    assert NoWords[0] == "no";
  }

  lemma CanonicalWords()
    ensures Trim(Lower("Yes")) == "yes" && Trim(Lower("No")) == "no"
  {
    var y := Lower("Yes");
    assert y[0] == 'y' && y[1] == 'e' && y[2] == 's';
    assert y == "yes";
    var n := Lower("No");
    assert n[0] == 'n' && n[1] == 'o';
    assert n == "no";
    TrimWords();
  }

  lemma TrimWords()
    ensures Trim("yes") == "yes" && Trim("no") == "no"
  {
    NoSpaceTrim("yes");
    NoSpaceTrim("no");
  }

  /** `process_dict`: dict values are processed recursively, other values under a checkbox key are normalised. */
  function NormalizeCheckboxes(d: Object): (r: Object)
    ensures |r| == |d|
    ensures Dicts.Keys(r) == Dicts.Keys(d)
    ensures forall i :: 0 <= i < |d| ==> (r[i].1.JObj? <==> d[i].1.JObj?)
    ensures forall i :: 0 <= i < |d| && !d[i].1.JObj? && d[i].0 !in CheckboxFields ==> r[i].1 == d[i].1
    ensures forall i :: 0 <= i < |d| && !d[i].1.JObj? && d[i].0 in CheckboxFields ==> r[i].1 == NormalizeValue(d[i].1)
    decreases JObj(d)
  {
    seq(|d|, i requires 0 <= i < |d| =>
      (d[i].0,
        if d[i].1.JObj? then
          assert d[i] in d && d[i].1 == JObj(d[i].1.fields);
          JObj(NormalizeCheckboxes(d[i].1.fields))
        else if d[i].0 in CheckboxFields then NormalizeValue(d[i].1)
        else d[i].1))
  }

  /** The checkbox pass is idempotent. */
  lemma {:induction false} NormalizeCheckboxesIdempotent(d: Object)
    ensures NormalizeCheckboxes(NormalizeCheckboxes(d)) == NormalizeCheckboxes(d)
    decreases JObj(d)
  {
    var r := NormalizeCheckboxes(d);
    var rr := NormalizeCheckboxes(r);
    forall i | 0 <= i < |d| ensures rr[i] == r[i] {
      if d[i].1.JObj? {
        assert d[i] in d && d[i].1 == JObj(d[i].1.fields);
        NormalizeCheckboxesIdempotent(d[i].1.fields);
      } else if d[i].0 in CheckboxFields {
        NormalizeValueIdempotent(d[i].1);
      }
    }
  }

  /** What the checkbox pass makes of the value stored under `key`. */
  function CheckboxValue(key: string, v: Json): Json {
    if v.JObj? then JObj(NormalizeCheckboxes(v.fields))
    else if key in CheckboxFields then NormalizeValue(v)
    else v
  }

  /** Reading a key after the checkbox pass. */
  lemma NormalizeCheckboxesGet(d: Object, k: string)
    ensures Get(NormalizeCheckboxes(d), k) == CheckboxValue(k, Get(d, k))
  {
    var r := NormalizeCheckboxes(d);
    if k in Dicts.Keys(d) {
      var i := Dicts.IndexOf(d, k);
      Dicts.IndexOfSameKeys(d, r, k);
      if d[i].1.JObj? {
        assert d[i] in d && d[i].1 == JObj(d[i].1.fields);
        assert r[i].1 == JObj(NormalizeCheckboxes(d[i].1.fields));
      }
    }
  }

  /** Reading a key path after the checkbox pass: the value at its end is the pass's value for the last key. */
  lemma {:induction false} NormalizeCheckboxesGetPath(d: Object, keys: seq<string>)
    requires |keys| >= 1
    ensures GetPath(NormalizeCheckboxes(d), keys) == CheckboxValue(LastKey(keys), GetPath(d, keys))
    decreases |keys|
  {
    NormalizeCheckboxesGet(d, keys[0]);
    if |keys| > 1 {
      var child := Get(d, keys[0]);
      if child.JObj? {
        NormalizeCheckboxesGetPath(child.fields, keys[1..]);
      }
    }
  }

  // ---------------------------------------------------------------------
  // direct_map
  // ---------------------------------------------------------------------

  /** The `fieldMappings` table: PDF field name to dot-path in the schema. */
  type Table = seq<(string, string)>

  /** One table entry's effect on coverage: a present field with a coverage path is written along it. */
  function CoverageStep(entry: (string, string), fields: Object, coverage: Object): Object {
    if entry.0 in Dicts.Keys(fields) && IsCoveragePath(entry.1) then SetNested(coverage, entry.1, Get(fields, entry.0))
    else coverage
  }

  /** One table entry's effect on unmapped: a present field with any other path is put there. */
  function UnmappedStep(entry: (string, string), fields: Object, unmapped: Object): Object {
    if entry.0 in Dicts.Keys(fields) && !IsCoveragePath(entry.1) then Dicts.Put(unmapped, entry.0, Get(fields, entry.0))
    else unmapped
  }

  /** The first loop of `direct_map`: each table entry whose field is present is written to coverage or to unmapped. */
  function ApplyTable(table: Table, fields: Object, coverage: Object, unmapped: Object): (r: (Object, Object))
    ensures Dicts.Keys(coverage) <= Dicts.Keys(r.0)
    decreases |table|
  {
    if |table| == 0 then (coverage, unmapped)
    else ApplyTable(table[1..], fields, CoverageStep(table[0], fields, coverage), UnmappedStep(table[0], fields, unmapped))
  }

  /** The second loop: present fields the table does not name, unless their value is None. */
  function AddUnlisted(fields: Object, table: Table, unmapped: Object): (r: Object)
    decreases |fields|
  {
    if |fields| == 0 then unmapped
    else
      var (k, v) := fields[0];
      var next := if k !in Dicts.Keys(table) && v != JNull then Dicts.Put(unmapped, k, v) else unmapped;
      AddUnlisted(fields[1..], table, next)
  }

  /** A table entry routes its field to unmapped when the field is present and the path is not a coverage path. */
  predicate RoutedToUnmapped(table: Table, fields: Object, k: string)
    requires Dicts.DistinctKeys(table)
  {
    k in Dicts.Keys(table) && k in Dicts.Keys(fields) && !IsCoveragePath(Dicts.Get(table, k).value)
  }

  lemma {:induction false} ApplyTableUnmapped(table: Table, fields: Object, coverage: Object, unmapped: Object, k: string)
    requires Dicts.DistinctKeys(table)
    ensures Dicts.Get(ApplyTable(table, fields, coverage, unmapped).1, k) ==
      if RoutedToUnmapped(table, fields, k) then Some(Get(fields, k)) else Dicts.Get(unmapped, k)
    decreases |table|
  {
    if |table| > 0 {
      var field := table[0].0;
      var rest := table[1..];
      Dicts.DistinctUncons(table);
      Dicts.KeysUncons(table, k);
      var next := UnmappedStep(table[0], fields, unmapped);
      ApplyTableUnmapped(rest, fields, CoverageStep(table[0], fields, coverage), next, k);
      if k != field && next != unmapped {
        Dicts.PutOther(unmapped, field, Get(fields, field), k);
      }
    }
  }

  lemma {:induction false} AddUnlistedGet(fields: Object, table: Table, unmapped: Object, k: string)
    requires Dicts.DistinctKeys(fields)
    ensures Dicts.Get(AddUnlisted(fields, table, unmapped), k) ==
      if k in Dicts.Keys(fields) && k !in Dicts.Keys(table) && Get(fields, k) != JNull then Some(Get(fields, k))
      else Dicts.Get(unmapped, k)
    decreases |fields|
  {
    if |fields| > 0 {
      var (f, v) := fields[0];
      var rest := fields[1..];
      assert Dicts.DistinctKeys(rest);
      assert Dicts.Keys(fields) == [f] + Dicts.Keys(rest);
      assert f !in Dicts.Keys(rest) by {
        forall j | 0 <= j < |rest| ensures Dicts.Keys(rest)[j] != f {
          assert rest[j] == fields[j + 1];
        }
      }
      var next := if f !in Dicts.Keys(table) && v != JNull then Dicts.Put(unmapped, f, v) else unmapped;
      AddUnlistedGet(rest, table, next, k);
      if k != f && next != unmapped {
        Dicts.PutOther(unmapped, f, v, k);
      }
      if k in Dicts.Keys(rest) {
        assert Get(fields, k) == Get(rest, k);
      }
    }
  }

  /** `direct_map`: the coverage structure and the unmapped fields. */
  function DirectMap(raw: Object, table: Table): (r: (Object, Object))
    ensures |raw| == 0 ==> r == ([], [])
    ensures |raw| > 0 ==> Dicts.Keys(InitCoverage()) <= Dicts.Keys(r.0)
  {
    if |raw| == 0 then ([], [])
    else
      var fields := NormalizeFields(raw);
      var (coverage, unmapped) := ApplyTable(table, fields, InitCoverage(), []);
      (NormalizeCheckboxes(coverage), AddUnlisted(fields, table, unmapped))
  }

  /**
    Routing of every normalised key: one the table sends to a coverage path
    never appears in unmapped; one it sends elsewhere is in unmapped even
    when its value is None; one it does not list is in unmapped iff its
    value is not None; and nothing else is.
  */
  lemma DirectMapRouting(raw: Object, table: Table, k: string)
    requires |raw| > 0 && Dicts.DistinctKeys(table)
    ensures var fields := NormalizeFields(raw);
      Dicts.Get(DirectMap(raw, table).1, k) ==
        if k !in Dicts.Keys(fields) then None
        else if k in Dicts.Keys(table) then
          (if IsCoveragePath(Dicts.Get(table, k).value) then None else Some(Get(fields, k)))
        else if Get(fields, k) != JNull then Some(Get(fields, k))
        else None
  {
    var fields := NormalizeFields(raw);
    var (coverage, unmapped) := ApplyTable(table, fields, InitCoverage(), []);
    ApplyTableUnmapped(table, fields, InitCoverage(), [], k);
    AddUnlistedGet(fields, table, unmapped, k);
  }

  /** A table entry writes to coverage: its field is present and its path is a coverage path. */
  predicate WritesCoverage(entry: (string, string), fields: Object) {
    entry.0 in Dicts.Keys(fields) && IsCoveragePath(entry.1)
  }

  /** Every entry of `table` from `from` on that writes to coverage does so along a path that parts from `keys`. */
  predicate PartsFrom(table: Table, fields: Object, from: nat, keys: seq<string>) {
    forall j :: from <= j < |table| && WritesCoverage(table[j], fields) ==> Diverge(PathKeys(table[j].1), keys)
  }

  lemma PartsFromTail(table: Table, fields: Object, from: nat, keys: seq<string>)
    requires 0 < from && |table| > 0 && PartsFrom(table, fields, from, keys)
    ensures PartsFrom(table[1..], fields, from - 1, keys)
  {
    forall j | from - 1 <= j < |table| - 1 && WritesCoverage(table[1..][j], fields)
      ensures Diverge(PathKeys(table[1..][j].1), keys)
    {
      assert table[1..][j] == table[j + 1];
    }
  }

  /** Table entries whose paths all part from `keys` leave the value at `keys` alone. */
  lemma {:induction false} ApplyTableFrame(table: Table, fields: Object, coverage: Object, unmapped: Object, keys: seq<string>)
    requires |keys| >= 1 && PartsFrom(table, fields, 0, keys)
    ensures GetPath(ApplyTable(table, fields, coverage, unmapped).0, keys) == GetPath(coverage, keys)
    decreases |table|
  {
    if |table| > 0 {
      PartsFromTail(table, fields, 1, keys);
      var next := CoverageStep(table[0], fields, coverage);
      ApplyTableFrame(table[1..], fields, next, UnmappedStep(table[0], fields, unmapped), keys);
      if WritesCoverage(table[0], fields) {
        SetPathOther(coverage, PathKeys(table[0].1), Cleaned(Get(fields, table[0].0)), keys);
      }
    }
  }

  /**
    Entry `i` is the last write to its path: its field is present, its path
    is a coverage path whose leaf is not an `address`, and every later
    entry that writes to coverage does so along a path that parts from it.
  */
  predicate LastWriteAt(table: Table, fields: Object, i: nat) {
    i < |table| && WritesCoverage(table[i], fields) && LastKey(PathKeys(table[i].1)) != "address" &&
    PartsFrom(table, fields, i + 1, PathKeys(table[i].1))
  }

  function LastKey(keys: seq<string>): string
    requires |keys| >= 1
  {
    keys[|keys| - 1]
  }

  lemma LastWriteTail(table: Table, fields: Object, i: nat)
    requires 0 < i && LastWriteAt(table, fields, i)
    ensures LastWriteAt(table[1..], fields, i - 1)
  {
    assert table[1..][i - 1] == table[i];
    PartsFromTail(table, fields, i + 1, PathKeys(table[i].1));
  }

  lemma ApplyTableUnfold(table: Table, fields: Object, coverage: Object, unmapped: Object)
    requires |table| > 0
    ensures ApplyTable(table, fields, coverage, unmapped) ==
      ApplyTable(table[1..], fields, CoverageStep(table[0], fields, coverage), UnmappedStep(table[0], fields, unmapped))
  {
  }

  /** Writing a value that is not an `address` reads it back. */
  lemma SetPathReadBack(d: Object, keys: seq<string>, value: Json)
    requires |keys| >= 1 && LastKey(keys) != "address"
    ensures GetPath(SetPath(d, keys, value), keys) == value
  {
    SetPathGet(d, keys, value);
  }

  /** The entry at the head of the table is written, and the rest of the table parts from its path. */
  lemma ApplyTableHead(table: Table, fields: Object, coverage: Object, unmapped: Object, keys: seq<string>)
    requires LastWriteAt(table, fields, 0) && keys == PathKeys(table[0].1)
    ensures GetPath(ApplyTable(table, fields, coverage, unmapped).0, keys) == Cleaned(Get(fields, table[0].0))
  {
    var value := Cleaned(Get(fields, table[0].0));
    var written := SetPath(coverage, keys, value);
    assert CoverageStep(table[0], fields, coverage) == written;
    ApplyTableUnfold(table, fields, coverage, unmapped);
    SetPathReadBack(coverage, keys, value);
    PartsFromTail(table, fields, 1, keys);
    ApplyTableFrame(table[1..], fields, written, UnmappedStep(table[0], fields, unmapped), keys);
  }

  /**
    The first loop writes a present field whose path is a coverage path,
    stripped, to that path, when it is the last write to that path and the
    leaf is not an `address`.
  */
  lemma {:induction false} ApplyTableAt(table: Table, fields: Object, coverage: Object, unmapped: Object, i: nat)
    requires LastWriteAt(table, fields, i)
    ensures GetPath(ApplyTable(table, fields, coverage, unmapped).0, PathKeys(table[i].1)) == Cleaned(Get(fields, table[i].0))
    decreases |table|
  {
    if i == 0 {
      ApplyTableHead(table, fields, coverage, unmapped, PathKeys(table[0].1));
    } else {
      LastWriteTail(table, fields, i);
      ApplyTableAt(table[1..], fields, CoverageStep(table[0], fields, coverage), UnmappedStep(table[0], fields, unmapped), i - 1);
    }
  }

  /**
    Coverage side of `direct_map`: a present field the table sends to a
    coverage path ends up at that path, stripped and then passed through
    the checkbox normalisation of its leaf key, unless a later present
    entry writes along a path that does not part from it, or the leaf is
    an `address`.
  */
  lemma DirectMapCoverage(raw: Object, table: Table, i: nat)
    requires |raw| > 0 && LastWriteAt(table, NormalizeFields(raw), i)
    ensures GetPath(DirectMap(raw, table).0, PathKeys(table[i].1)) ==
      CheckboxValue(LastKey(PathKeys(table[i].1)), Cleaned(Get(NormalizeFields(raw), table[i].0)))
  {
    DirectMapFirst(raw, table);
    CoverageReadBack(table, NormalizeFields(raw), InitCoverage(), i);
  }

  lemma DirectMapFirst(raw: Object, table: Table)
    requires |raw| > 0
    ensures DirectMap(raw, table).0 == NormalizeCheckboxes(ApplyTable(table, NormalizeFields(raw), InitCoverage(), []).0)
  {
  }

  /** The last write to a path, read back after both coverage passes, from any starting coverage. */
  lemma CoverageReadBack(table: Table, fields: Object, start: Object, i: nat)
    requires LastWriteAt(table, fields, i)
    ensures GetPath(NormalizeCheckboxes(ApplyTable(table, fields, start, []).0), PathKeys(table[i].1)) ==
      CheckboxValue(LastKey(PathKeys(table[i].1)), Cleaned(Get(fields, table[i].0)))
  {
    var keys := PathKeys(table[i].1);
    var coverage := ApplyTable(table, fields, start, []).0;
    ApplyTableAt(table, fields, start, [], i);
    NormalizeCheckboxesGetPath(coverage, keys);
  }

  // ---------------------------------------------------------------------
  // The shape of the coverage structure
  // ---------------------------------------------------------------------

  /** No value of the dict is itself a dict. */
  predicate Flat(d: Object) {
    forall j :: 0 <= j < |d| ==> !d[j].1.JObj?
  }

  /**
    `d` has the two-level shape of `t`: the same keys in the same order;
    where `t` holds a dict, a dict with that dict's keys and no dict
    values; everywhere else, no dict.
  */
  predicate ShapeOf(d: Object, t: Object) {
    && |d| == |t| && Dicts.Keys(d) == Dicts.Keys(t)
    && forall i :: 0 <= i < |d| ==>
         if t[i].1.JObj? then
           d[i].1.JObj? && Dicts.Keys(d[i].1.fields) == Dicts.Keys(t[i].1.fields) && Flat(d[i].1.fields)
         else !d[i].1.JObj?
  }

  /** A key path naming a leaf of `t`: a top-level key that holds no dict, or a key of one of its dicts. */
  predicate LeafPath(t: Object, keys: seq<string>) {
    || (|keys| == 1 && keys[0] in Dicts.Keys(t) && !Get(t, keys[0]).JObj?)
    || (|keys| == 2 && Get(t, keys[0]).JObj? && keys[1] in Dicts.Keys(Get(t, keys[0]).fields))
  }

  /** Every coverage path of the table names a leaf of `t`. */
  predicate LeafTable(table: Table, t: Object) {
    forall j :: 0 <= j < |table| && IsCoveragePath(table[j].1) ==> LeafPath(t, PathKeys(table[j].1))
  }

  /** No field holds a dict. */
  ghost predicate ScalarFields(fields: Object) {
    forall k :: !Get(fields, k).JObj?
  }

  /** The initial structure has its own shape. */
  lemma InitShape()
    ensures ShapeOf(InitCoverage(), InitCoverage())
  {
    var t := InitCoverage();
    forall i | 0 <= i < |t| && t[i].1.JObj?
      ensures Flat(t[i].1.fields)
    {
    }
  }

  /** Writing a scalar to a key of the dict keeps every key in place and every other entry unchanged. */
  lemma SetLeafInPlace(d: Object, k: string, v: Json)
    requires k in Dicts.Keys(d) && !v.JObj?
    ensures var r := SetLeaf(d, k, v);
      |r| == |d| && forall j :: 0 <= j < |d| ==>
        r[j].0 == d[j].0 && (r[j].1 == d[j].1 || (j == Dicts.IndexOf(d, k) && !r[j].1.JObj?))
  {
    var existing := Get(d, k);
    var extend := Truthy(v) && !IsBlank(PyStr(v));
    if Appends(k, existing) && extend {
      var w := JStr(PyStr(existing) + ", " + PyStr(v));
      assert SetLeaf(d, k, v) == Dicts.Put(d, k, w);
      PutScalarInPlace(d, k, w);
    } else if !Appends(k, existing) {
      assert SetLeaf(d, k, v) == Dicts.Put(d, k, v);
      PutScalarInPlace(d, k, v);
    }
  }

  lemma PutScalarInPlace(d: Object, k: string, w: Json)
    requires k in Dicts.Keys(d) && !w.JObj?
    ensures var r := Dicts.Put(d, k, w);
      |r| == |d| && forall j :: 0 <= j < |d| ==>
        r[j].0 == d[j].0 && (r[j].1 == d[j].1 || (j == Dicts.IndexOf(d, k) && !r[j].1.JObj?))
  {
    Dicts.PutPresent(d, k, w);
  }

  /** The entries of `r` are those of `d`, except one scalar entry at `i` where `t` holds no dict. */
  predicate ScalarAt(r: Object, d: Object, t: Object, i: nat) {
    |r| == |d| && i < |t| && !t[i].1.JObj? &&
    forall j :: 0 <= j < |d| ==> r[j].0 == d[j].0 && (r[j].1 == d[j].1 || (j == i && !r[j].1.JObj?))
  }

  /** Replacing one entry where `t` holds no dict by a scalar keeps the shape of `t`. */
  lemma ShapeScalarAt(r: Object, d: Object, t: Object, i: nat)
    requires ShapeOf(d, t) && ScalarAt(r, d, t, i)
    ensures ShapeOf(r, t)
  {
    assert Dicts.Keys(r) == Dicts.Keys(d);
  }

  /** The entries of `r` are those of `d`, except the dict at `i`, replaced by a flat dict with the same keys. */
  predicate SectionAt(r: Object, d: Object, i: nat) {
    |r| == |d| && i < |d| && d[i].1.JObj? && r[i].1.JObj? && r[i].0 == d[i].0 &&
    Dicts.Keys(r[i].1.fields) == Dicts.Keys(d[i].1.fields) && Flat(r[i].1.fields) &&
    forall j :: 0 <= j < |d| && j != i ==> r[j] == d[j]
  }

  /** Replacing one dict by a flat dict with the same keys keeps the shape of `t`. */
  lemma ShapeSectionAt(r: Object, d: Object, t: Object, i: nat)
    requires ShapeOf(d, t) && SectionAt(r, d, i)
    ensures ShapeOf(r, t)
  {
    assert Dicts.Keys(r) == Dicts.Keys(d);
  }

  /** A scalar write to a top-level key where `t` holds no dict keeps the shape of `t`. */
  lemma ShapeSetTop(d: Object, t: Object, k: string, v: Json)
    requires ShapeOf(d, t) && k in Dicts.Keys(t) && !Get(t, k).JObj? && !v.JObj?
    ensures ShapeOf(SetPath(d, [k], v), t)
  {
    Dicts.IndexOfSameKeys(d, t, k);
    var i := Dicts.IndexOf(d, k);
    SetLeafInPlace(d, k, v);
    ShapeScalarAt(SetLeaf(d, k, v), d, t, i);
  }

  /** A two-key write into an existing dict replaces that dict by the one-key write into it. */
  lemma SetPathTwo(d: Object, keys: seq<string>, v: Json)
    requires |keys| == 2 && Get(d, keys[0]).JObj?
    ensures SetPath(d, keys, v) == Dicts.Put(d, keys[0], JObj(SetLeaf(Get(d, keys[0]).fields, keys[1], v)))
  {
    assert SetPath(Get(d, keys[0]).fields, keys[1..], v) == SetLeaf(Get(d, keys[0]).fields, keys[1], v);
  }

  /** A scalar write to a key of a flat dict keeps it flat, with the same keys. */
  lemma SetLeafFlat(sub: Object, k: string, v: Json)
    requires Flat(sub) && k in Dicts.Keys(sub) && !v.JObj?
    ensures Dicts.Keys(SetLeaf(sub, k, v)) == Dicts.Keys(sub) && Flat(SetLeaf(sub, k, v))
  {
    SetLeafInPlace(sub, k, v);
    assert Dicts.Keys(SetLeaf(sub, k, v)) == Dicts.Keys(sub);
  }

  /** Putting a flat dict with the right keys in place of one of the dicts of `t` keeps the shape of `t`. */
  lemma ShapePutSection(d: Object, t: Object, k: string, inner: Object)
    requires ShapeOf(d, t) && k in Dicts.Keys(d) && t[Dicts.IndexOf(d, k)].1.JObj?
    requires Dicts.Keys(inner) == Dicts.Keys(t[Dicts.IndexOf(d, k)].1.fields) && Flat(inner)
    ensures ShapeOf(Dicts.Put(d, k, JObj(inner)), t)
  {
    Dicts.PutPresent(d, k, JObj(inner));
    ShapeSectionAt(Dicts.Put(d, k, JObj(inner)), d, t, Dicts.IndexOf(d, k));
  }

  /** A scalar write to a key of one of the dicts of `t` keeps the shape of `t`. */
  lemma ShapeSetSection(d: Object, t: Object, keys: seq<string>, v: Json)
    requires ShapeOf(d, t) && |keys| == 2 && Get(t, keys[0]).JObj?
    requires keys[1] in Dicts.Keys(Get(t, keys[0]).fields) && !v.JObj?
    ensures ShapeOf(SetPath(d, keys, v), t)
  {
    var k := keys[0];
    Dicts.IndexOfSameKeys(d, t, k);
    var i := Dicts.IndexOf(d, k);
    var sub := d[i].1.fields;
    SetPathTwo(d, keys, v);
    SetLeafFlat(sub, keys[1], v);
    ShapePutSection(d, t, k, SetLeaf(sub, keys[1], v));
  }

  /** A scalar write along a leaf path of `t` keeps the shape of `t`. */
  lemma ShapeSetPath(d: Object, t: Object, keys: seq<string>, v: Json)
    requires ShapeOf(d, t) && LeafPath(t, keys) && !v.JObj?
    ensures ShapeOf(SetPath(d, keys, v), t)
  {
    if |keys| == 1 {
      assert keys == [keys[0]];
      ShapeSetTop(d, t, keys[0], v);
    } else {
      ShapeSetSection(d, t, keys, v);
    }
  }

  /** One table entry keeps the shape of `t`. */
  lemma ShapeStep(entry: (string, string), fields: Object, coverage: Object, t: Object)
    requires ShapeOf(coverage, t) && ScalarFields(fields)
    requires IsCoveragePath(entry.1) ==> LeafPath(t, PathKeys(entry.1))
    ensures ShapeOf(CoverageStep(entry, fields, coverage), t)
  {
    if entry.0 in Dicts.Keys(fields) && IsCoveragePath(entry.1) {
      assert !Get(fields, entry.0).JObj?;
      ShapeSetPath(coverage, t, PathKeys(entry.1), Cleaned(Get(fields, entry.0)));
    }
  }

  /** The table loop keeps the shape of `t` when every coverage path names a leaf of it. */
  lemma {:induction false} ShapeApplyTable(table: Table, fields: Object, coverage: Object, unmapped: Object, t: Object)
    requires ShapeOf(coverage, t) && ScalarFields(fields) && LeafTable(table, t)
    ensures ShapeOf(ApplyTable(table, fields, coverage, unmapped).0, t)
    decreases |table|
  {
    if |table| > 0 {
      ShapeStep(table[0], fields, coverage, t);
      assert LeafTable(table[1..], t) by {
        forall j | 0 <= j < |table[1..]| && IsCoveragePath(table[1..][j].1)
          ensures LeafPath(t, PathKeys(table[1..][j].1))
        {
          assert table[1..][j] == table[j + 1];
        }
      }
      ShapeApplyTable(table[1..], fields, CoverageStep(table[0], fields, coverage), UnmappedStep(table[0], fields, unmapped), t);
    }
  }

  /** The checkbox pass keeps the shape of `t`. */
  lemma ShapeNormalize(d: Object, t: Object)
    requires ShapeOf(d, t)
    ensures ShapeOf(NormalizeCheckboxes(d), t)
  {
    var r := NormalizeCheckboxes(d);
    forall i | 0 <= i < |d| && t[i].1.JObj?
      ensures r[i].1.JObj? && Dicts.Keys(r[i].1.fields) == Dicts.Keys(t[i].1.fields) && Flat(r[i].1.fields)
    {
      var f := d[i].1.fields;
      assert r[i].1 == JObj(NormalizeCheckboxes(f));
      var g := NormalizeCheckboxes(f);
      assert forall j :: 0 <= j < |g| ==> !g[j].1.JObj? by {
        forall j | 0 <= j < |g| ensures !g[j].1.JObj? {
          assert !f[j].1.JObj?;
        }
      }
    }
  }

  /** A normalised field holds the value of one of the raw fields. */
  lemma NormalizeFieldsValue(raw: Object, k: string)
    requires Flat(raw)
    ensures !Get(NormalizeFields(raw), k).JObj?
  {
    var ps := NormalizedPairs(raw);
    var g := Dicts.Get(Dicts.FromPairs(ps), k);
    Dicts.FromPairsFrom(ps, k);
    if g.Some? {
      var j :| 0 <= j < |ps| && ps[j] == (k, g.value);
      assert ps[j].1 == raw[j].1;
    }
  }

  /** The normalised fields hold only values of the raw fields. */
  lemma NormalizeFieldsScalar(raw: Object)
    requires Flat(raw)
    ensures ScalarFields(NormalizeFields(raw))
  {
    forall k ensures !Get(NormalizeFields(raw), k).JObj? {
      NormalizeFieldsValue(raw, k);
    }
  }

  /**
    For a non-empty input whose values are not dicts, and a table whose
    coverage paths all name leaves of the initial structure, the coverage
    has the initial structure's keys at both levels, in the same order.
  */
  lemma DirectMapShape(raw: Object, table: Table)
    requires |raw| > 0 && Flat(raw) && LeafTable(table, InitCoverage())
    ensures ShapeOf(DirectMap(raw, table).0, InitCoverage())
  {
    var fields := NormalizeFields(raw);
    DirectMapFirst(raw, table);
    InitShape();
    NormalizeFieldsScalar(raw);
    ShapeApplyTable(table, fields, InitCoverage(), [], InitCoverage());
    ShapeNormalize(ApplyTable(table, fields, InitCoverage(), []).0, InitCoverage());
  }
}
