/**
  `app/services/rules/rules_normalization.py`: validation of rule payloads
  before they reach the table. Every validator walks its list in order and
  raises for the first offending element; an exception is a `Failure`.
*/
module RulesNormalization {
  import opened Wrappers
  import opened Strings
  import opened JsonValue

  /** The exceptions the rule operations raise (ValueError or LookupError, by message). */
  datatype RuleError =
    | EmptyRequest              // "At least one rule (id) is required"
    | NonPositiveId             // "All rule ids must be positive integers"
    | BadId                     // `int(...)` of a value that is not a number
    | DuplicateId(id: int)      // "Duplicate rule id in request"
    | MissingCertificateType    // "certificate_type is required"
    | MissingProductName        // "product_name is required"
    | DuplicateInRequest        // "Duplicate rule in request"
    | AlreadyExists             // "A rule with the same certificate_type and product_name already exists"
    | RuleNotFound              // LookupError "Rule not found"
    | RulesNotFound(ids: seq<int>) // LookupError "Rule not found for id(s)"

  /** A validated rule payload: trimmed fields, `is_active` as a bool and, for updates, the id. */
  datatype Draft = Draft(id: Option<int>, certificateType: string, productName: string, isActive: bool)

  /** The case-insensitive identity of a rule, `(certificate_type.lower(), product_name.lower())`. */
  function PairKey(certificateType: string, productName: string): (string, string) {
    (Lower(certificateType), Lower(productName))
  }

  function DraftKey(d: Draft): (string, string) {
    PairKey(d.certificateType, d.productName)
  }

  // ---------------------------------------------------------------------
  // normalize_rule_ids
  // ---------------------------------------------------------------------

  /** The id loop of `normalize_rule_ids`, with `seen` the ids accepted so far. */
  function IdsFrom(ids: seq<int>, seen: set<int>): Result<seq<int>, RuleError>
    decreases |ids|
  {
    if |ids| == 0 then Success([])
    else if ids[0] <= 0 then Failure(NonPositiveId)
    else if ids[0] in seen then Failure(DuplicateId(ids[0]))
    else
      var rest :- IdsFrom(ids[1..], seen + {ids[0]});
      Success([ids[0]] + rest)
  }

  /** Positive ids, none seen before and no two equal. */
  predicate GoodIds(ids: seq<int>, seen: set<int>) {
    (forall i :: 0 <= i < |ids| ==> ids[i] > 0 && ids[i] !in seen) &&
    (forall i, j :: 0 <= i < j < |ids| ==> ids[i] != ids[j])
  }

  lemma GoodIdsUncons(ids: seq<int>, seen: set<int>)
    requires |ids| > 0
    ensures GoodIds(ids, seen) <==>
      ids[0] > 0 && ids[0] !in seen && GoodIds(ids[1..], seen + {ids[0]})
  {
    if ids[0] > 0 && ids[0] !in seen && GoodIds(ids[1..], seen + {ids[0]}) {
      forall i, j | 0 <= i < j < |ids| ensures ids[i] != ids[j] {
        assert ids[j] == ids[1..][j - 1];
        if i > 0 {
          assert ids[i] == ids[1..][i - 1];
        }
      }
    }
  }

  /** The loop accepts exactly the good id lists and returns them unchanged. */
  lemma {:induction false} IdsFromSpec(ids: seq<int>, seen: set<int>)
    ensures IdsFrom(ids, seen).Success? <==> GoodIds(ids, seen)
    ensures IdsFrom(ids, seen).Success? ==> IdsFrom(ids, seen).value == ids
    decreases |ids|
  {
    if |ids| > 0 {
      GoodIdsUncons(ids, seen);
      IdsFromSpec(ids[1..], seen + {ids[0]});
    }
  }

  /** `normalize_rule_ids(rule_ids)`. */
  function NormalizeRuleIds(ids: seq<int>): (r: Result<seq<int>, RuleError>)
    ensures ids == [] ==> r == Failure(EmptyRequest)
    ensures r.Success? ==> r.value == ids
  {
    IdsFromSpec(ids, {});
    if ids == [] then Failure(EmptyRequest) else IdsFrom(ids, {})
  }

  /** A non-empty id list is accepted iff its ids are positive and distinct, and it comes back as given. */
  lemma NormalizeRuleIdsSpec(ids: seq<int>)
    ensures NormalizeRuleIds(ids).Success? <==> ids != [] && GoodIds(ids, {})
    ensures NormalizeRuleIds(ids).Success? ==> NormalizeRuleIds(ids).value == ids
  {
    IdsFromSpec(ids, {});
  }

  /**
    A rejected id list is rejected for its first offending id: every id
    before `k` is fine, and `ids[k]` is non-positive or repeats an earlier one.
  */
  lemma {:induction false} IdsFromFirstOffender(ids: seq<int>, seen: set<int>) returns (k: nat)
    requires IdsFrom(ids, seen).Failure?
    ensures k < |ids| && GoodIds(ids[..k], seen)
    ensures ids[k] <= 0 ==> IdsFrom(ids, seen).error == NonPositiveId
    ensures ids[k] > 0 ==> (ids[k] in seen || ids[k] in ids[..k]) && IdsFrom(ids, seen).error == DuplicateId(ids[k])
    decreases |ids|
  {
    if ids[0] <= 0 || ids[0] in seen {
      k := 0;
    } else {
      var k' := IdsFromFirstOffender(ids[1..], seen + {ids[0]});
      k := k' + 1;
      assert ids[..k][1..] == ids[1..][..k'];
      GoodIdsUncons(ids[..k], seen);
      assert ids[k] == ids[1..][k'];
      if ids[k] > 0 && ids[k] == ids[0] {
        assert ids[k] in ids[..k] by { assert ids[..k][0] == ids[0]; }
      } else if ids[k] > 0 && ids[k] in ids[1..][..k'] {
        var m :| 0 <= m < k' && ids[1..][..k'][m] == ids[k];
        assert ids[..k][m + 1] == ids[k];
      }
    }
  }

  // ---------------------------------------------------------------------
  // normalize_bulk_create_rules / normalize_bulk_update_rules
  // ---------------------------------------------------------------------

  /**
    `int(v)` on a JSON value: an integer or a bool converts, a string
    converts when it spells a base-10 integer, and anything else raises.
  */
  function ReadId(v: Json): (r: Result<int, RuleError>)
    ensures v.JInt? ==> r == Success(v.i)
    ensures v.JBool? ==> r == Success(if v.b then 1 else 0)
    ensures v.JStr? && r.Success? ==> exists i :: 0 <= i < |v.s| && IsDigit(v.s[i])
    ensures !v.JInt? && !v.JBool? && !v.JStr? ==> r == Failure(BadId)
  {
    match v
    case JInt(i) => Success(i)
    case JBool(b) => Success(if b then 1 else 0)
    case JStr(s) =>
      var n := ParseInt(s);
      if n.Some? then
        ParseIntNeedsDigit(s);
        Success(n.value)
      else Failure(BadId)
    case _ => Failure(BadId)
  }

  /** An id sent as the string `str(i)`, with any whitespace around it, reads as `i`. */
  lemma ReadIdNumericString(i: int, pre: string, post: string)
    requires AllSpace(pre) && AllSpace(post)
    ensures ReadId(JStr(pre + IntToString(i) + post)) == Success(i)
  {
    ParseIntRoundTrip(i, pre, post);
  }

  /** A blank id string raises. */
  lemma ReadIdBlankString(s: string)
    requires IsBlank(s)
    ensures ReadId(JStr(s)) == Failure(BadId)
  {
  }

  /**
    The reads at the top of the loop body: `str(rule.get(k, "")).strip()`
    for both fields, `bool(rule.get("is_active", True))` and, for an update,
    `int(rule.get("id", 0))`.
  */
  function ReadDraft(rule: Object, withId: bool): (r: Result<Draft, RuleError>)
    ensures r.Success? ==> r.value.id.Some? == withId
    ensures r.Success? ==> r.value.isActive == Truthy(GetOr(rule, "is_active", JBool(true)))
    ensures !withId ==> r.Success?
  {
    var ct := Trim(PyStr(GetOr(rule, "certificate_type", JStr(""))));
    var pn := Trim(PyStr(GetOr(rule, "product_name", JStr(""))));
    var active := Truthy(GetOr(rule, "is_active", JBool(true)));
    if !withId then Success(Draft(None, ct, pn, active))
    else
      var id :- ReadId(GetOr(rule, "id", JInt(0)));
      Success(Draft(Some(id), ct, pn, active))
  }

  /** A missing `is_active` defaults to active. */
  lemma ReadDraftActiveDefault(rule: Object, withId: bool)
    requires "is_active" !in Dicts.Keys(rule)
    ensures ReadDraft(rule, withId).Success? ==> ReadDraft(rule, withId).value.isActive
  {
  }

  /** The checks of the loop body, in the source's order, against what the earlier elements added. */
  function Offense(d: Draft, seenIds: set<int>, seenPairs: set<(string, string)>): Option<RuleError> {
    if d.id.Some? && d.id.value <= 0 then Some(NonPositiveId)
    else if d.id.Some? && d.id.value in seenIds then Some(DuplicateId(d.id.value))
    else if d.certificateType == "" then Some(MissingCertificateType)
    else if d.productName == "" then Some(MissingProductName)
    else if DraftKey(d) in seenPairs then Some(DuplicateInRequest)
    else None
  }

  function AddId(seen: set<int>, d: Draft): set<int> {
    if d.id.Some? then seen + {d.id.value} else seen
  }

  /** The loop shared by both bulk validators; `read` converts one payload element. */
  function CheckBulk(rules: seq<Object>, read: Object -> Result<Draft, RuleError>,
                     seenIds: set<int>, seenPairs: set<(string, string)>): Result<seq<Draft>, RuleError>
    decreases |rules|
  {
    if |rules| == 0 then Success([])
    else
      var d :- read(rules[0]);
      var e := Offense(d, seenIds, seenPairs);
      if e.Some? then Failure(e.value)
      else
        var rest :- CheckBulk(rules[1..], read, AddId(seenIds, d), seenPairs + {DraftKey(d)});
        Success([d] + rest)
  }

  /** Non-blank fields and, when present, a positive id. */
  predicate WellFormed(d: Draft) {
    d.certificateType != "" && d.productName != "" && (d.id.Some? ==> d.id.value > 0)
  }

  /** A batch every check accepts: well-formed, new ids and pairs, and no two alike. */
  predicate GoodBatch(ds: seq<Draft>, seenIds: set<int>, seenPairs: set<(string, string)>) {
    (forall i :: 0 <= i < |ds| ==>
      WellFormed(ds[i]) && DraftKey(ds[i]) !in seenPairs && (ds[i].id.Some? ==> ds[i].id.value !in seenIds)) &&
    (forall i, j :: 0 <= i < j < |ds| ==>
      DraftKey(ds[i]) != DraftKey(ds[j]) && (ds[i].id.Some? && ds[j].id.Some? ==> ds[i].id.value != ds[j].id.value))
  }

  lemma GoodBatchUncons(ds: seq<Draft>, seenIds: set<int>, seenPairs: set<(string, string)>)
    requires |ds| > 0
    ensures GoodBatch(ds, seenIds, seenPairs) <==>
      Offense(ds[0], seenIds, seenPairs).None? &&
      GoodBatch(ds[1..], AddId(seenIds, ds[0]), seenPairs + {DraftKey(ds[0])})
  {
    var d := ds[0];
    var sI, sP := AddId(seenIds, d), seenPairs + {DraftKey(d)};
    if Offense(d, seenIds, seenPairs).None? && GoodBatch(ds[1..], sI, sP) {
      forall i, j | 0 <= i < j < |ds|
        ensures DraftKey(ds[i]) != DraftKey(ds[j]) && (ds[i].id.Some? && ds[j].id.Some? ==> ds[i].id.value != ds[j].id.value)
      {
        assert ds[j] == ds[1..][j - 1];
        if i > 0 {
          assert ds[i] == ds[1..][i - 1];
        }
      }
      forall i | 0 <= i < |ds|
        ensures WellFormed(ds[i]) && DraftKey(ds[i]) !in seenPairs && (ds[i].id.Some? ==> ds[i].id.value !in seenIds)
      {
        if i > 0 {
          assert ds[i] == ds[1..][i - 1];
        }
      }
    }
    if GoodBatch(ds, seenIds, seenPairs) {
      forall i | 0 <= i < |ds| - 1
        ensures DraftKey(ds[1..][i]) !in sP && (ds[1..][i].id.Some? ==> ds[1..][i].id.value !in sI)
      {
        assert ds[1..][i] == ds[i + 1];
      }
    }
  }

  /** The drafts the reads produce, when all of them succeed. */
  predicate AllRead(rules: seq<Object>, read: Object -> Result<Draft, RuleError>) {
    forall i :: 0 <= i < |rules| ==> read(rules[i]).Success?
  }

  function Drafts(rules: seq<Object>, read: Object -> Result<Draft, RuleError>): (ds: seq<Draft>)
    requires AllRead(rules, read)
    ensures |ds| == |rules| && forall i :: 0 <= i < |rules| ==> ds[i] == read(rules[i]).value
  {
    seq(|rules|, i requires 0 <= i < |rules| && AllRead(rules, read) => read(rules[i]).value)
  }

  /**
    The loop accepts a batch iff every element reads and the read batch is
    good; it then returns the drafts in input order.
  */
  lemma {:induction false} CheckBulkSpec(rules: seq<Object>, read: Object -> Result<Draft, RuleError>,
                                         seenIds: set<int>, seenPairs: set<(string, string)>)
    ensures CheckBulk(rules, read, seenIds, seenPairs).Success? <==>
      AllRead(rules, read) && GoodBatch(Drafts(rules, read), seenIds, seenPairs)
    ensures CheckBulk(rules, read, seenIds, seenPairs).Success? ==>
      AllRead(rules, read) && CheckBulk(rules, read, seenIds, seenPairs).value == Drafts(rules, read)
    decreases |rules|
  {
    if |rules| > 0 {
      var rest := rules[1..];
      assert forall i :: 0 <= i < |rest| ==> rest[i] == rules[i + 1];
      if read(rules[0]).Success? {
        var d := read(rules[0]).value;
        CheckBulkSpec(rest, read, AddId(seenIds, d), seenPairs + {DraftKey(d)});
        if AllRead(rules, read) {
          var ds := Drafts(rules, read);
          assert ds[1..] == Drafts(rest, read);
          GoodBatchUncons(ds, seenIds, seenPairs);
        }
        if AllRead(rest, read) {
          assert AllRead(rules, read) by {
            forall i | 0 <= i < |rules| ensures read(rules[i]).Success? {
              if i > 0 {
                assert read(rest[i - 1]).Success?;
              }
            }
          }
          assert Drafts(rules, read) == [d] + Drafts(rest, read);
        }
      } else {
        assert !AllRead(rules, read);
      }
    }
  }

  /**
    A rejected batch is rejected for its first offending element `k`: all
    elements before it read and form a good batch, and element `k` fails
    its read or the first failing check against what they added.
  */
  lemma {:induction false} CheckBulkFirstOffender(rules: seq<Object>, read: Object -> Result<Draft, RuleError>,
                                                  seenIds: set<int>, seenPairs: set<(string, string)>)
    returns (k: nat, sI: set<int>, sP: set<(string, string)>)
    requires CheckBulk(rules, read, seenIds, seenPairs).Failure?
    ensures k < |rules| && CheckBulk(rules[..k], read, seenIds, seenPairs).Success?
    ensures var e := CheckBulk(rules, read, seenIds, seenPairs).error;
      (read(rules[k]).Failure? && e == read(rules[k]).error) ||
      (read(rules[k]).Success? && Offense(read(rules[k]).value, sI, sP) == Some(e))
    decreases |rules|
  {
    var r := read(rules[0]);
    if r.Failure? || Offense(r.value, seenIds, seenPairs).Some? {
      k, sI, sP := 0, seenIds, seenPairs;
      assert rules[..0] == [];
    } else {
      var d := r.value;
      var k';
      k', sI, sP := CheckBulkFirstOffender(rules[1..], read, AddId(seenIds, d), seenPairs + {DraftKey(d)});
      k := k' + 1;
      assert rules[..k][0] == rules[0];
      assert rules[..k][1..] == rules[1..][..k'];
      assert rules[k] == rules[1..][k'];
    }
  }

  function ReadForCreate(rule: Object): Result<Draft, RuleError> {
    ReadDraft(rule, false)
  }

  function ReadForUpdate(rule: Object): Result<Draft, RuleError> {
    ReadDraft(rule, true)
  }

  /** `normalize_bulk_create_rules(rules)`. */
  function NormalizeBulkCreate(rules: seq<Object>): (r: Result<seq<Draft>, RuleError>)
    ensures rules == [] ==> r == Failure(EmptyRequest)
    ensures r.Success? ==> |r.value| == |rules| && forall i :: 0 <= i < |rules| ==> ReadForCreate(rules[i]) == Success(r.value[i])
    ensures r.Success? ==> GoodBatch(r.value, {}, {})
  {
    if rules == [] then Failure(EmptyRequest)
    else
      CheckBulkSpec(rules, ReadForCreate, {}, {});
      CheckBulk(rules, ReadForCreate, {}, {})
  }

  /** `normalize_bulk_update_rules(rules)`. */
  function NormalizeBulkUpdate(rules: seq<Object>): (r: Result<seq<Draft>, RuleError>)
    ensures rules == [] ==> r == Failure(EmptyRequest)
    ensures r.Success? ==> |r.value| == |rules| && forall i :: 0 <= i < |rules| ==> ReadForUpdate(rules[i]) == Success(r.value[i])
    ensures r.Success? ==> GoodBatch(r.value, {}, {})
    ensures r.Success? ==> forall i :: 0 <= i < |r.value| ==> r.value[i].id.Some?
  {
    if rules == [] then Failure(EmptyRequest)
    else
      CheckBulkSpec(rules, ReadForUpdate, {}, {});
      CheckBulk(rules, ReadForUpdate, {}, {})
  }

  /** A creation batch is accepted iff it is non-empty and its read drafts form a good batch. */
  lemma NormalizeBulkCreateComplete(rules: seq<Object>)
    ensures NormalizeBulkCreate(rules).Success? <==>
      rules != [] && AllRead(rules, ReadForCreate) && GoodBatch(Drafts(rules, ReadForCreate), {}, {})
  {
    CheckBulkSpec(rules, ReadForCreate, {}, {});
  }

  /** An update batch is accepted iff it is non-empty, every id reads, and the drafts form a good batch. */
  lemma NormalizeBulkUpdateComplete(rules: seq<Object>)
    ensures NormalizeBulkUpdate(rules).Success? <==>
      rules != [] && AllRead(rules, ReadForUpdate) && GoodBatch(Drafts(rules, ReadForUpdate), {}, {})
  {
    CheckBulkSpec(rules, ReadForUpdate, {}, {});
  }

  // ---------------------------------------------------------------------
  // normalize_rule_fields
  // ---------------------------------------------------------------------

  /** `normalize_rule_fields(certificate_type, product_name, is_active)`. */
  function NormalizeRuleFields(certificateType: string, productName: string, isActive: bool): (r: Result<Draft, RuleError>)
    ensures IsBlank(certificateType) ==> r == Failure(MissingCertificateType)
    ensures !IsBlank(certificateType) && IsBlank(productName) ==> r == Failure(MissingProductName)
    ensures !IsBlank(certificateType) && !IsBlank(productName) ==>
      r == Success(Draft(None, Trim(certificateType), Trim(productName), isActive))
  {
    var ct := Trim(certificateType);
    var pn := Trim(productName);
    if ct == "" then Failure(MissingCertificateType)
    else if pn == "" then Failure(MissingProductName)
    else Success(Draft(None, ct, pn, isActive))
  }

  /** Accepted fields are trimmed and non-blank, so normalizing them again changes nothing. */
  lemma NormalizeRuleFieldsIdempotent(certificateType: string, productName: string, isActive: bool)
    requires NormalizeRuleFields(certificateType, productName, isActive).Success?
    ensures var d := NormalizeRuleFields(certificateType, productName, isActive).value;
      WellFormed(d) && NormalizeRuleFields(d.certificateType, d.productName, d.isActive) == Success(d)
  {
    var ct, pn := Trim(certificateType), Trim(productName);
    assert !IsBlank(certificateType) && !IsBlank(productName);
    TrimTwice(certificateType);
    TrimTwice(productName);
    assert NormalizeRuleFields(ct, pn, isActive) == Success(Draft(None, ct, pn, isActive));
  }
}
