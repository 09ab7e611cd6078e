/**
  `app/services/acord/acord_formatter.py`: the projection of organized
  ACORD data onto the fixed tabbed layout, with checkbox and limit
  formatting and the name/address split of contact entries.
*/
module Formatter {
  import opened Wrappers
  import opened Strings
  import opened JsonValue
  import Dicts

  // ---------------------------------------------------------------------
  // Cell formatting
  // ---------------------------------------------------------------------

  /** The strings `format_checkbox` reads as ticked, after lower-casing and stripping. */
  const CheckedWords: seq<string> := ["yes", "y", "true", "1", "/1", "/yes", "x", "checked"]

  /** The boolean-looking strings `format_limit` blanks out. */
  const BoolWords: seq<string> := ["yes", "no", "true", "false", "y", "n"]

  /** `format_checkbox`. */
  function FormatCheckbox(v: Json): (r: string)
    ensures r == "Yes" || r == "No"
  {
    match v
    case JBool(b) => if b then "Yes" else "No"
    case JStr(s) => if Trim(Lower(s)) in CheckedWords then "Yes" else "No"
    case _ => "No"
  }

  /** "Yes" for True or a ticked word, "No" for everything else, None and numbers included. */
  lemma FormatCheckboxSpec(v: Json)
    ensures var r := FormatCheckbox(v);
      && (r == "Yes" || r == "No")
      && (v == JNull ==> r == "No")
      && (v.JBool? ==> (r == "Yes" <==> v.b))
      && (v.JStr? ==> (r == "Yes" <==> Trim(Lower(v.s)) in CheckedWords))
      && (!v.JBool? && !v.JStr? ==> r == "No")
  {
  }

  lemma YesWord()
    ensures Trim(Lower("Yes")) == "yes"
  {
    var l := Lower("Yes");
    assert l == "yes" by {
      assert l[0] == 'y' && l[1] == 'e' && l[2] == 's';
    }
    NoEdgeSpaceTrim("yes");
  }

  lemma NoWord()
    ensures Trim(Lower("No")) == "no"
  {
    var l := Lower("No");
    assert l == "no" by {
      assert l[0] == 'n' && l[1] == 'o';
    }
    NoEdgeSpaceTrim("no");
  }

  lemma CheckboxYes()
    ensures FormatCheckbox(JStr("Yes")) == "Yes"
  {
    YesWord();
    assert CheckedWords[0] == "yes";
  }

  lemma CheckboxNo()
    ensures FormatCheckbox(JStr("No")) == "No"
  {
    NoWord();
    assert "no" !in CheckedWords;
  }

  /** Formatting a formatted checkbox changes nothing. */
  lemma FormatCheckboxIdempotent(v: Json)
    ensures FormatCheckbox(JStr(FormatCheckbox(v))) == FormatCheckbox(v)
  {
    CheckboxYes();
    CheckboxNo();
  }

  /** "on" and numbers are not ticked: only the listed words are. */
  lemma FormatCheckboxOnIsNo()
    ensures FormatCheckbox(JStr("on")) == "No"
    ensures FormatCheckbox(JInt(1)) == "No"
    ensures FormatCheckbox(JStr("1")) == "Yes"
  {
    NoSpaceTrim("on");
    NoSpaceTrim("1");
    assert Lower("on") == "on";
    assert Lower("1") == "1";
  }

  /** `format_limit`. */
  function FormatLimit(v: Json): (r: string)
    ensures r == "" || r == PyStr(v)
  {
    if v == JNull then ""
    else if v.JStr? && Trim(Lower(v.s)) in BoolWords then ""
    else PyStr(v)
  }

  /** A limit is "" for None and for a boolean-looking string; anything else is its `str`, a string unchanged. */
  lemma FormatLimitSpec(v: Json)
    ensures v == JNull ==> FormatLimit(v) == ""
    ensures v.JStr? && Trim(Lower(v.s)) in BoolWords ==> FormatLimit(v) == ""
    ensures v.JStr? && Trim(Lower(v.s)) !in BoolWords ==> FormatLimit(v) == v.s
    ensures v != JNull && !v.JStr? ==> FormatLimit(v) == PyStr(v)
  {
  }

  // ---------------------------------------------------------------------
  // Names and addresses
  // ---------------------------------------------------------------------

  /** Python's `any(c.isdigit() for c in s)`, for ASCII digits. */
  predicate HasDigit(s: string) {
    exists i :: 0 <= i < |s| && IsDigit(s[i])
  }

  /**
    `_get_name_only`: a string is a name unless it holds a digit; a dict
    gives its `name` unless that is falsy, "null" in any case, or blank.
    None stands for the AttributeError raised when the name is truthy but
    not a string.
  */
  function NameOnly(data: Json): (r: Option<string>)
    ensures r.None? <==> data.JObj? && Truthy(Get(data.fields, "name")) && !Get(data.fields, "name").JStr?
    ensures data.JStr? ==> r == Some(if HasDigit(data.s) then "" else data.s)
    ensures data.JObj? && !Truthy(Get(data.fields, "name")) ==> r == Some("")
    ensures data.JObj? && Get(data.fields, "name").JStr? ==>
      r == Some(if Lower(Get(data.fields, "name").s) != "null" && !IsBlank(Get(data.fields, "name").s)
                then Get(data.fields, "name").s else "")
  {
    match data
    case JStr(s) => Some(if HasDigit(s) then "" else s)
    case JObj(f) =>
      var name := Get(f, "name");
      if !Truthy(name) then Some("")
      else if !name.JStr? then None
      else if Lower(name.s) != "null" && !IsBlank(name.s) then Some(name.s)
      else Some("")
    case _ => Some("")
  }

  /** `_get_address_only`: a string is an address iff it holds a digit; a dict gives its `address` or "". */
  function AddressOnly(data: Json): (r: Json)
    ensures data.JStr? ==> r == JStr(if HasDigit(data.s) then data.s else "")
    ensures !data.JStr? && !data.JObj? ==> r == JStr("")
    ensures data.JObj? && Truthy(GetOr(data.fields, "address", JStr(""))) ==> r == GetOr(data.fields, "address", JStr(""))
    ensures data.JObj? && !Truthy(GetOr(data.fields, "address", JStr(""))) ==> r == JStr("")
  {
    match data
    case JStr(s) => JStr(if HasDigit(s) then s else "")
    case JObj(f) =>
      var a := GetOr(f, "address", JStr(""));
      if Truthy(a) then a else JStr("")
    case _ => JStr("")
  }

  /** A non-empty string lands in exactly one of the name and the address. */
  lemma NameAddressSplit(s: string)
    requires s != ""
    ensures (NameOnly(JStr(s)) == Some(s)) != (AddressOnly(JStr(s)) == JStr(s))
  {
  }

  /** A dict whose name is "null" in any case, or blank, has no name. */
  lemma NullNameIsEmpty(f: Object)
    requires Get(f, "name").JStr? && (Lower(Get(f, "name").s) == "null" || IsBlank(Get(f, "name").s))
    ensures NameOnly(JObj(f)) == Some("")
  {
  }

  // ---------------------------------------------------------------------
  // The tabbed projection
  // ---------------------------------------------------------------------

  /** The top-level keys of the tabbed output. */
  const TabKeys: seq<string> := [
    "information", "general_liability", "automobile_liability", "umbrella_liability",
    "workers_comp", "other_coverage", "notes", "other_data"
  ]

  /** Everything `format_for_tabs` reads from its input, and nothing else. */
  datatype Inputs = Inputs(
    issueDate: Json, remarks: Json, certificateNumber: Json, authorizedRepresentative: Json,
    gl: Json, auto: Json, umbrella: Json, wc: Json, other: Json,
    certHolder: Json, insured: Json, producer: Json, insurers: Json)

  /** `d.get(key, {}) or {}`. */
  function OrEmpty(v: Json): (r: Json)
    ensures Truthy(v) ==> r == v
    ensures !Truthy(v) ==> r == JObj([])
  {
    if Truthy(v) then v else JObj([])
  }

  /** `d.get(key, []) or []`. */
  function OrEmptyList(v: Json): (r: Json)
    ensures Truthy(v) ==> r == v
    ensures !Truthy(v) ==> r == JArr([])
  {
    if Truthy(v) then v else JArr([])
  }

  /** The keys `format_for_tabs` reads, in the order of the fields of Inputs. */
  const ReadKeys: seq<string> := [
    "issue_date", "remarks", "certificate_number", "authorized_representative",
    "general_liability", "auto_liability", "umbrella", "workers_comp", "other",
    "certificate_holder", "insured", "producer", "insurers"
  ]

  /** The values stored under the keys read. */
  function ReadValues(org: Object): (vs: seq<Json>)
    ensures |vs| == |ReadKeys|
  {
    seq(|ReadKeys|, i requires 0 <= i < |ReadKeys| => Get(org, ReadKeys[i]))
  }

  function Read(org: Object): Inputs {
    var vs := ReadValues(org);
    Inputs(vs[0], vs[1], vs[2], vs[3],
      OrEmpty(vs[4]), OrEmpty(vs[5]), OrEmpty(vs[6]), OrEmpty(vs[7]), OrEmpty(vs[8]),
      OrEmpty(vs[9]), OrEmpty(vs[10]), OrEmpty(vs[11]), OrEmptyList(vs[12]))
  }

  /** Whether `.get` can be called on every coverage section and every name lookup succeeds. */
  predicate Formattable(inp: Inputs) {
    inp.gl.JObj? && inp.auto.JObj? && inp.umbrella.JObj? && inp.wc.JObj? && inp.other.JObj?
    && NameOnly(inp.certHolder).Some? && NameOnly(inp.insured).Some? && NameOnly(inp.producer).Some?
  }

  /** How a cell of the tabbed output is computed from the value it reads. */
  datatype CellKind = Copy | CheckboxCell | LimitCell | TypeCell

  /** One column of a block: output key, input key, and how the value is formatted. */
  type Column = (string, string, CellKind)

  /** A cell: the value as is, `format_checkbox`, `format_limit`, or the value defaulting to "Other". */
  function Cell(v: Json, kind: CellKind): Json {
    match kind
    case Copy => v
    case CheckboxCell => JStr(FormatCheckbox(v))
    case LimitCell => JStr(FormatLimit(v))
    case TypeCell => if Truthy(v) then v else JStr("Other")
  }

  /** A block of the output: one entry per column, in column order. */
  function Block(sec: Object, columns: seq<Column>): (r: Object)
    ensures |r| == |columns|
    ensures forall i :: 0 <= i < |columns| ==> r[i] == (columns[i].0, Cell(Get(sec, columns[i].1), columns[i].2))
  {
    seq(|columns|, i requires 0 <= i < |columns| => (columns[i].0, Cell(Get(sec, columns[i].1), columns[i].2)))
  }

  /** A block reads back, under a column's output key, that column's cell. */
  lemma BlockGet(sec: Object, columns: seq<Column>, i: nat)
    requires i < |columns|
    requires forall j :: 0 <= j < i ==> columns[j].0 != columns[i].0
    ensures Get(Block(sec, columns), columns[i].0) == Cell(Get(sec, columns[i].1), columns[i].2)
  {
    Dicts.GetAtFirst(Block(sec, columns), i);
  }

  /** The policy_information columns shared by the four coverage tabs. */
  const PolicyInformation: seq<Column> := [
    ("insurer_letter", "insurer_letter", Copy),
    ("policy_number", "policy_number", Copy),
    ("effective_date", "effective_date", Copy),
    ("expiration_date", "expiration_date", Copy),
    ("additional_insured", "additional_insured", CheckboxCell),
    ("subrogation_waived", "subrogation_waived", CheckboxCell)
  ]

  const GeneralLiabilityOptions: seq<Column> := [
    ("claims_made", "claims_made", CheckboxCell),
    ("occurrence", "occurrence", CheckboxCell),
    ("custom_option_1", "custom_option_1", CheckboxCell),
    ("custom_option_1_value", "custom_option_1_value", Copy),
    ("custom_option_2", "custom_option_2", CheckboxCell),
    ("custom_option_2_value", "custom_option_2_value", Copy),
    ("aggregate_applies_policy", "general_aggregate_limit_applies_per_policy", CheckboxCell),
    ("aggregate_applies_project", "general_aggregate_limit_applies_per_project", CheckboxCell),
    ("aggregate_applies_location", "general_aggregate_limit_applies_per_location", CheckboxCell),
    ("aggregate_applies_other", "general_aggregate_limit_applies_per_other", CheckboxCell),
    ("aggregate_applies_other_value", "general_aggregate_limit_applies_per_other_value", Copy)
  ]

  const GeneralLiabilityLimits: seq<Column> := [
    ("each_occurrence", "each_occurrence", LimitCell),
    ("damage_to_rented_premises", "damage_to_rented_premises", LimitCell),
    ("med_exp", "medical_expense", LimitCell),
    ("personal_adv_injury", "personal_adv_injury", LimitCell),
    ("general_aggregate", "general_aggregate", LimitCell),
    ("products_comp_op_agg", "products_comp_op_agg", LimitCell)
  ]

  const AutoOptions: seq<Column> := [
    ("any_auto", "any_auto", CheckboxCell),
    ("owned_autos_only", "owned_autos_only", CheckboxCell),
    ("hired_autos_only", "hired_autos_only", CheckboxCell),
    ("scheduled_autos_only", "scheduled_autos_only", CheckboxCell),
    ("non_owned_autos_only", "non_owned_autos_only", CheckboxCell),
    ("custom_option_1", "custom_option_1", CheckboxCell),
    ("custom_option_1_value", "custom_option_1_value", Copy),
    ("custom_option_2", "custom_option_2", CheckboxCell),
    ("custom_option_2_value", "custom_option_2_value", Copy)
  ]

  /** The automobile limits; the "ea accident" limit reads the combined single limit again. */
  const AutoLimits: seq<Column> := [
    ("combined_single_limit", "combined_single_limit", LimitCell),
    ("combined_single_limit_ea_accident", "combined_single_limit", LimitCell),
    ("bodily_injury_person", "bodily_injury_per_person", LimitCell),
    ("bodily_injury_accident", "bodily_injury_per_accident", LimitCell),
    ("property_damage", "property_damage", LimitCell)
  ]

  const UmbrellaOptions: seq<Column> := [
    ("umbrella_liability", "umbrella_liab", CheckboxCell),
    ("excess_liability", "excess_liab", CheckboxCell),
    ("occurrence", "occurrence", CheckboxCell),
    ("claims_made", "claims_made", CheckboxCell),
    ("deductible", "deductible", CheckboxCell),
    ("retention_checkbox", "retention", CheckboxCell),
    ("retention", "retention_amount", LimitCell)
  ]

  const UmbrellaLimits: seq<Column> := [
    ("each_occurrence", "each_occurrence", LimitCell),
    ("aggregate", "aggregate", LimitCell)
  ]

  const WorkersCompOptions: seq<Column> := [
    ("per_statute", "per_statute", CheckboxCell),
    ("other", "other", CheckboxCell),
    ("any_officers_excluded", "any_excluded", CheckboxCell)
  ]

  const WorkersCompLimits: seq<Column> := [
    ("per_statute_other_limit", "per_statute_other_limit", LimitCell),
    ("each_accident", "each_accident", LimitCell),
    ("each_employee", "disease_each_employee", LimitCell),
    ("disease_policy_limit", "disease_policy_limit", LimitCell)
  ]

  const OtherInformation: seq<Column> := [
    ("insurer_letter", "insurer_letter", Copy),
    ("type_of_insurance", "type_of_insurance", TypeCell),
    ("policy_number", "policy_number", Copy),
    ("effective_date", "effective_date", Copy),
    ("expiration_date", "expiration_date", Copy),
    ("additional_insured", "addl", CheckboxCell),
    ("subrogation_waived", "subr", CheckboxCell),
    ("description", "description", Copy)
  ]

  /** The (option, limit) keys of the three other-coverage rows. */
  const OtherRows: seq<(string, string)> := [
    ("first_policy_option", "first_policy_limit"),
    ("second_policy_option", "second_policy_limit"),
    ("third_policy_option", "third_policy_limit")
  ]

  function Tab(sec: Object, options: seq<Column>, limits: seq<Column>): Json {
    JObj([
      ("policy_information", JObj(Block(sec, PolicyInformation))),
      ("policy_options", JObj(Block(sec, options))),
      ("policy_limits", JObj(Block(sec, limits)))])
  }

  /** One row of the other-coverage limits. */
  function OptionRow(other: Object, row: (string, string)): Json {
    JObj([("policy_option", Get(other, row.0)), ("policy_limit", JStr(FormatLimit(Get(other, row.1))))])
  }

  /** The other-coverage tab: its information block and always exactly three limit rows, first to third. */
  function OtherCoverageTab(other: Object): (r: Object)
    ensures |r| == 2 && r[0] == ("policy_information", JObj(Block(other, OtherInformation)))
    ensures r[1].0 == "policy_limits" && r[1].1.JArr? && |r[1].1.items| == 3
    ensures forall i :: 0 <= i < 3 ==> r[1].1.items[i] == OptionRow(other, OtherRows[i])
  {
    [
      ("policy_information", JObj(Block(other, OtherInformation))),
      ("policy_limits", JArr(seq(3, i requires 0 <= i < 3 => OptionRow(other, OtherRows[i]))))
    ]
  }

  /** `remarks if remarks else None`. */
  function Notes(remarks: Json): (r: Json)
    ensures Truthy(remarks) ==> r == remarks
    ensures !Truthy(remarks) ==> r == JNull
  {
    if Truthy(remarks) then remarks else JNull
  }

  /** `x.get(key) if isinstance(x, dict) else None`. */
  function DictGet(x: Json, key: string): Json {
    if x.JObj? then Get(x.fields, key) else JNull
  }

  function Contact(data: Json, name: string): Json {
    JObj([("name", JStr(name)), ("address", AddressOnly(data))])
  }

  function InformationTab(inp: Inputs): Json
    requires Formattable(inp)
  {
    JObj([
      ("certificate_date", inp.issueDate),
      ("description_of_operations", inp.remarks),
      ("certificate_holder", JStr(NameOnly(inp.certHolder).value))])
  }

  function OtherDataTab(inp: Inputs): Json
    requires Formattable(inp)
  {
    JObj([
      ("insured", Contact(inp.insured, NameOnly(inp.insured).value)),
      ("producer", JObj([
        ("name", JStr(NameOnly(inp.producer).value)),
        ("address", AddressOnly(inp.producer)),
        ("contact", DictGet(inp.producer, "contact")),
        ("phone", DictGet(inp.producer, "phone")),
        ("fax", DictGet(inp.producer, "fax")),
        ("email", DictGet(inp.producer, "email"))])),
      ("certificate_holder", Contact(inp.certHolder, NameOnly(inp.certHolder).value)),
      ("certificate_number", inp.certificateNumber),
      ("authorized_representative", inp.authorizedRepresentative),
      ("insurers", inp.insurers)])
  }

  /** The value of each tab, in the order of TabKeys. */
  function TabValue(inp: Inputs, i: nat): Json
    requires Formattable(inp) && i < 8
  {
    match i
    case 0 => InformationTab(inp)
    case 1 => Tab(inp.gl.fields, GeneralLiabilityOptions, GeneralLiabilityLimits)
    case 2 => Tab(inp.auto.fields, AutoOptions, AutoLimits)
    case 3 => Tab(inp.umbrella.fields, UmbrellaOptions, UmbrellaLimits)
    case 4 => Tab(inp.wc.fields, WorkersCompOptions, WorkersCompLimits)
    case 5 => JObj(OtherCoverageTab(inp.other.fields))
    case 6 => Notes(inp.remarks)
    case _ => OtherDataTab(inp)
  }

  /** No tab key is repeated. */
  lemma TabKeysDistinct()
    ensures forall i, j :: 0 <= i < j < |TabKeys| ==> TabKeys[i] != TabKeys[j]
  {
  }

  /** The projection once the inputs are known to be formattable. */
  function Project(inp: Inputs): (r: Object)
    requires Formattable(inp)
    ensures |r| == 8 && Dicts.Keys(r) == TabKeys && Dicts.DistinctKeys(r)
  {
    var r := seq(8, i requires 0 <= i < 8 => (TabKeys[i], TabValue(inp, i)));
    TabKeysDistinct();
    r
  }

  /** Looking up a tab by its key finds the value at its position. */
  lemma ProjectGet(inp: Inputs, i: nat)
    requires Formattable(inp) && i < 8
    ensures Get(Project(inp), TabKeys[i]) == TabValue(inp, i)
  {
    var r := Project(inp);
    forall j | 0 <= j < i ensures r[j].0 != r[i].0 {
      assert r[j].0 == TabKeys[j];
    }
    Dicts.GetAtFirst(r, i);
  }

  /**
    `format_for_tabs`. Failure stands for the AttributeError raised when a
    coverage section is a truthy non-dict or a contact's name is a truthy
    non-string.
  */
  function FormatForTabs(org: Object): (r: Result<Object, string>)
    ensures r.Success? <==> Formattable(Read(org))
    ensures r.Success? ==> Dicts.Keys(r.value) == TabKeys
  {
    var inp := Read(org);
    if Formattable(inp) then Success(Project(inp)) else Failure("AttributeError")
  }

  /** The notes tab holds the remarks when they are truthy, else None. */
  lemma FormatNotes(org: Object)
    requires FormatForTabs(org).Success?
    ensures Get(FormatForTabs(org).value, "notes") == Notes(Get(org, "remarks"))
  {
    ProjectGet(Read(org), 6);
  }

  /**
    The other-coverage tab of any successful projection has its information
    block, whose type of insurance is always truthy, and exactly three limit rows.
  */
  lemma FormatOtherCoverage(org: Object)
    requires FormatForTabs(org).Success?
    ensures var oc := Get(FormatForTabs(org).value, "other_coverage");
      oc.JObj? && |oc.fields| == 2 && oc.fields[1].0 == "policy_limits" &&
      oc.fields[1].1.JArr? && |oc.fields[1].1.items| == 3
    ensures var oc := Get(FormatForTabs(org).value, "other_coverage");
      oc.JObj? && |oc.fields| == 2 && oc.fields[0].0 == "policy_information" && oc.fields[0].1.JObj? &&
      Truthy(Get(oc.fields[0].1.fields, "type_of_insurance"))
  {
    var inp := Read(org);
    ProjectGet(inp, 5);
    TypeOfInsuranceTruthy(inp.other.fields);
  }

  /** The information block of the other-coverage tab always shows a truthy type of insurance. */
  lemma TypeOfInsuranceTruthy(other: Object)
    ensures Truthy(Get(Block(other, OtherInformation), "type_of_insurance"))
  {
    var c := OtherInformation;
    assert c[1] == ("type_of_insurance", "type_of_insurance", TypeCell);
    assert c[0].0 != c[1].0 by { assert c[0].0[0] == 'i'; }
    BlockGet(other, c, 1);
  }

  /** The "ea accident" limit always equals the combined single limit. */
  lemma CombinedSingleLimitTwice(sec: Object)
    ensures var b := Block(sec, AutoLimits);
      Get(b, "combined_single_limit") == Get(b, "combined_single_limit_ea_accident")
  {
    var b := Block(sec, AutoLimits);
    Dicts.GetAtFirst(b, 0);
    Dicts.GetAtFirst(b, 1);
  }

  /** A falsy type of insurance is shown as "Other". */
  lemma TypeOfInsuranceDefault(other: Object)
    requires !Truthy(Get(other, "type_of_insurance"))
    ensures Get(Block(other, OtherInformation), "type_of_insurance") == JStr("Other")
  {
    var c := OtherInformation;
    assert c[1] == ("type_of_insurance", "type_of_insurance", TypeCell);
    assert c[0].0 != c[1].0 by { assert c[0].0[0] == 'i'; }
    BlockGet(other, c, 1);
  }

  /** Every checkbox cell of every block is "Yes" or "No". */
  lemma CheckboxCellsYesNo(sec: Object, columns: seq<Column>, i: nat)
    requires i < |columns| && columns[i].2 == CheckboxCell
    ensures Block(sec, columns)[i].1 == JStr("Yes") || Block(sec, columns)[i].1 == JStr("No")
  {
    FormatCheckboxSpec(Get(sec, columns[i].1));
  }

  /** The tabbed output never depends on a key outside the ones read. */
  lemma FormatIgnoresOtherKeys(org: Object, k: string, v: Json)
    requires k !in ReadKeys
    ensures FormatForTabs(Dicts.Put(org, k, v)) == FormatForTabs(org)
  {
    var org' := Dicts.Put(org, k, v);
    forall i | 0 <= i < |ReadKeys| ensures ReadValues(org')[i] == ReadValues(org)[i] {
      Dicts.PutOther(org, k, v, ReadKeys[i]);
    }
    assert ReadValues(org') == ReadValues(org);
  }

  /** In particular the `unformatted_data` key the pipeline adds is never read. */
  lemma UnformattedDataIgnored(org: Object, v: Json)
    ensures FormatForTabs(Dicts.Put(org, "unformatted_data", v)) == FormatForTabs(org)
  {
    FormatIgnoresOtherKeys(org, "unformatted_data", v);
  }
}
