/**
  The form-field extractors of `app/services/pypdf_extractor.py` and
  `backend/services/pypdf_extractor.py`. The PDF reader is left out: the
  extractors start from the field dictionary `reader.get_fields()` returns.
  The two files share the per-field loop and differ in how they clean field
  names and decode checkboxes, so `Variant` selects between them.
*/
module PdfFields {
  import opened Wrappers
  import opened Strings
  import Dicts
  import Sorting

  datatype Variant = App | Backend

  /**
    A pypdf field value: `str(v)`, whether it is an indirect reference
    (it has `get_object`), and `str(v.get_object())` in that case.
  */
  datatype PdfValue = PdfValue(text: string, indirect: bool, resolved: string)

  /** One entry of `get_fields()`: not a dict, or a field dict with its /FT, /V, /AS and /Ff entries. */
  datatype FieldData =
    | NotADict
    | FieldDict(fieldType: Option<string>, value: Option<PdfValue>, appearance: Option<PdfValue>, flags: Option<int>)

  /** What opening the PDF gives: a missing file, a reader exception, or the fields (`None` is the empty list). */
  datatype PdfSource =
    | FileMissing(path: string)
    | ReadError(message: string)
    | Fields(entries: seq<(string, FieldData)>)

  /** The dict `extract_form_fields` returns. */
  datatype Extraction = Extraction(
    success: bool,
    fieldCount: nat,
    fields: seq<(string, Option<string>)>,
    checkboxes: seq<(string, bool)>,
    rawNames: seq<string>,
    error: Option<string>)

  /** The dict `_prepare_for_openai` / `extract_for_llama` return. */
  datatype Prepared =
    | PrepFailed(error: string)
    | PrepOk(fieldCount: nat, data: seq<(string, string)>)

  const LongPrefix := "F[0].P1[0]."
  const ShortPrefix := "F[0]."
  const IndexSuffix := "[0]"

  /** The markers whose presence anywhere in a name keeps its `[0]` in the backend variant. */
  const InstanceMarkers: seq<string> := ["_A", "_B", "_C", "_D", "_E", "_F"]

  const TrueTokens: set<string> := {"/1", "/Yes", "/On", "1", "Yes", "On", "true", "True"}
  const FalseTokens: set<string> := {"/0", "/No", "/Off", "0", "No", "Off", "false", "False"}
  const EmptyTokens: set<string> := {"", "None", "null"}

  const NoFieldsError := "PDF has no form fields or fields could not be extracted"
  const DefaultPrepError := "Extraction failed"

  // ---------------------------------------------------------------------
  // Field names
  // ---------------------------------------------------------------------

  /** The ACORD prefix removal both variants share: the long prefix if present, else the short one. */
  function StripPrefix(name: string): string {
    if StartsWith(name, LongPrefix) then name[11..]
    else if StartsWith(name, ShortPrefix) then name[5..]
    else name
  }

  predicate HasInstanceMarker(s: string) {
    exists m :: m in InstanceMarkers && Contains(s, m)
  }

  /** The `[0]` removal: the app variant always drops one trailing `[0]`, the backend one only from names without an instance marker. */
  function DropIndex(variant: Variant, c: string): string {
    if EndsWith(c, IndexSuffix) && (variant == App || !HasInstanceMarker(c)) then c[..|c| - 3] else c
  }

  /** `_clean_field_name` of either variant. */
  function CleanName(variant: Variant, name: string): (r: string)
    ensures |r| <= |name|
  {
    DropIndex(variant, StripPrefix(name))
  }

  /** A cleaned name is the raw name less at most one known prefix and at most one `[0]`. */
  lemma CleanNameShape(variant: Variant, name: string)
    ensures exists pre, suf :: pre in [LongPrefix, ShortPrefix, ""] && suf in [IndexSuffix, ""] && name == pre + CleanName(variant, name) + suf
  {
    var c := StripPrefix(name);
    var r := CleanName(variant, name);
    var suf := if r == c then "" else IndexSuffix;
    var pre := if StartsWith(name, LongPrefix) then LongPrefix else if StartsWith(name, ShortPrefix) then ShortPrefix else "";
    assert name == pre + c;
    assert c == r + suf;
    assert name == pre + r + suf;
    assert pre in [LongPrefix, ShortPrefix, ""] && suf in [IndexSuffix, ""];
  }

  /** The long prefix comes off whole, whatever follows it. */
  lemma StripLongPrefix(n: string)
    ensures StripPrefix(LongPrefix + n) == n
  {
    assert (LongPrefix + n)[..11] == LongPrefix;
  }

  /** The short prefix comes off alone unless the rest continues the long prefix; so two short prefixes lose only one. */
  lemma StripShortPrefix(n: string)
    requires !StartsWith(n, "P1[0].")
    ensures StripPrefix(ShortPrefix + n) == n
    ensures StripPrefix(ShortPrefix + ShortPrefix + n) == ShortPrefix + n
  {
    var t := ShortPrefix + n;
    assert t[..5] == ShortPrefix;
    var u := ShortPrefix + ShortPrefix + n;
    assert u[..5] == ShortPrefix;
    assert u[5] == 'F';
    assert u[5..] == t;
  }

  /** A name without either prefix keeps its front. */
  lemma StripNoPrefix(n: string)
    requires !StartsWith(n, ShortPrefix)
    ensures StripPrefix(n) == n
  {
  }

  /** The app variant removes exactly one `[0]`: `X[0][0]` becomes `X[0]`. */
  lemma DropOneIndex(c: string)
    ensures DropIndex(App, c + IndexSuffix) == c
  {
    assert (c + IndexSuffix)[|c|..] == IndexSuffix;
  }

  /** The backend variant keeps the `[0]` of any name with a marker anywhere in it, not only at the end. */
  lemma BackendKeepsMarkedIndex(c: string)
    requires HasInstanceMarker(c)
    ensures DropIndex(Backend, c) == c
  {
  }

  lemma PolicyAmountMarked()
    ensures HasInstanceMarker("Policy_Amount[0]")
  {
    var c := "Policy_Amount[0]";
    assert c[6..8] == "_A" by {
      assert c[6] == '_' && c[7] == 'A';
    }
    assert OccursAt(c, "_A", 6);
    assert Contains(c, "_A");
    assert InstanceMarkers[0] == "_A";
  }

  lemma PolicyAmountStripped()
    ensures StripPrefix("F[0].Policy_Amount[0]") == "Policy_Amount[0]"
  {
    var name := "F[0].Policy_Amount[0]";
    assert name[..11] != LongPrefix by {
      assert name[..11][6] == 'o' && LongPrefix[6] == '1';
    }
    assert name[..5] == ShortPrefix;
    assert name[5..] == "Policy_Amount[0]";
  }

  /** "Policy_Amount[0]" keeps its index in the backend variant, because "_A" occurs inside "_Amount". */
  lemma BackendMarkerInsideWord()
    ensures CleanName(Backend, "F[0].Policy_Amount[0]") == "Policy_Amount[0]"
    ensures CleanName(App, "F[0].Policy_Amount[0]") == "Policy_Amount"
  {
    PolicyAmountStripped();
    PolicyAmountMarked();
    BackendKeepsMarkedIndex("Policy_Amount[0]");
    assert "Policy_Amount[0]" == "Policy_Amount" + IndexSuffix;
    DropOneIndex("Policy_Amount");
  }

  /** Where the variants differ: on a name whose stripped form holds no marker they agree. */
  lemma CleanNameVariantsAgree(name: string)
    requires !HasInstanceMarker(StripPrefix(name))
    ensures CleanName(Backend, name) == CleanName(App, name)
  {
  }

  // ---------------------------------------------------------------------
  // Checkboxes
  // ---------------------------------------------------------------------

  lemma TokensDisjoint(s: string)
    ensures !(s in TrueTokens && s in FalseTokens)
    ensures !(s in TrueTokens && s in EmptyTokens)
  {
  }

  /** The app decoder's verdict on a stripped token: the true and false lists decide, an empty token is unchecked, any other name is checked. */
  predicate TokenChecked(token: string) {
    if token in TrueTokens then true
    else if token in FalseTokens then false
    else token !in EmptyTokens
  }

  /** App variant `_is_checkbox_checked(/V, /AS)`: /V unless it is None, then the stripped name against the token lists. */
  function AppChecked(value: Option<PdfValue>, appearance: Option<PdfValue>): (r: bool)
    ensures value.None? && appearance.None? ==> !r
    ensures value.Some? && Trim(value.value.text) in TrueTokens ==> r
    ensures value.Some? && Trim(value.value.text) in FalseTokens ==> !r
  {
    var raw := if value.Some? then value else appearance;
    if raw.None? then false
    else
      TokensDisjoint(Trim(raw.value.text));
      TokenChecked(Trim(raw.value.text))
  }

  /**
    The app decoder fails open: a box reads as unchecked only when the
    chosen value is missing or names one of the false or empty tokens.
  */
  lemma AppCheckedFailOpen(value: Option<PdfValue>, appearance: Option<PdfValue>)
    ensures AppChecked(value, appearance) <==>
      var raw := if value.Some? then value else appearance;
      raw.Some? && Trim(raw.value.text) !in FalseTokens + EmptyTokens
  {
    var raw := if value.Some? then value else appearance;
    if raw.Some? {
      TokensDisjoint(Trim(raw.value.text));
    }
  }

  /** A name with no whitespace at its ends is read as itself, from /V or, when /V is None, from /AS. */
  lemma AppCheckedToken(t: string)
    requires t != [] && !IsSpace(t[0]) && !IsSpace(t[|t| - 1])
    ensures AppChecked(Some(PdfValue(t, false, "")), None) == TokenChecked(t)
    ensures AppChecked(None, Some(PdfValue(t, false, ""))) == TokenChecked(t)
  {
    NoEdgeSpaceTrim(t);
  }

  lemma LowerOffChecked()
    ensures AppChecked(Some(PdfValue("/off", false, "")), None)
  {
    AppCheckedToken("/off");
    assert TokenChecked("/off");
  }

  lemma OffUnchecked()
    ensures !AppChecked(Some(PdfValue("/Off", false, "")), None)
  {
    AppCheckedToken("/Off");
    assert !TokenChecked("/Off");
  }

  lemma AppearanceYesChecked()
    ensures AppChecked(None, Some(PdfValue("/Yes", false, "")))
  {
    AppCheckedToken("/Yes");
    assert TokenChecked("/Yes");
  }

  /** Matching is case-sensitive and unknown names read as checked: "/off" is checked, "/Off" is not. */
  lemma AppCheckedCaseSensitive()
    ensures AppChecked(Some(PdfValue("/off", false, "")), None)
    ensures !AppChecked(Some(PdfValue("/Off", false, "")), None)
    ensures AppChecked(None, Some(PdfValue("/Yes", false, "")))
  {
    LowerOffChecked();
    OffUnchecked();
    AppearanceYesChecked();
  }

  /** Backend `/Btn` decoding: checked iff /V is present and its text is exactly a true token. */
  function BackendChecked(value: Option<PdfValue>): (r: bool)
    ensures r ==> value.Some?
    ensures value.Some? && value.value.text in FalseTokens + EmptyTokens ==> !r
  {
    value.Some? && value.value.text in TrueTokens
  }

  lemma TrimTrueToken(t: string)
    requires t in TrueTokens
    ensures Trim(t) == t
  {
    assert forall i :: 0 <= i < |t| ==> !IsSpace(t[i]);
    NoSpaceTrim(t);
  }

  /** Whatever the backend decoder reads as checked, the app decoder reads as checked too. */
  lemma BackendCheckedImpliesApp(value: Option<PdfValue>, appearance: Option<PdfValue>)
    ensures BackendChecked(value) ==> AppChecked(value, appearance)
  {
    if BackendChecked(value) {
      TrimTrueToken(value.value.text);
    }
  }

  lemma ChoiceChecked()
    ensures AppChecked(Some(PdfValue("/Choice1", false, "")), None)
  {
    AppCheckedToken("/Choice1");
    assert TokenChecked("/Choice1");
  }

  lemma ChoiceNotBackend()
    ensures !BackendChecked(Some(PdfValue("/Choice1", false, "")))
  {
    assert "/Choice1" !in TrueTokens;
  }

  /** The converse fails: the app decoder also reads /AS and accepts unknown names. */
  lemma AppCheckedNotBackend()
    ensures !BackendChecked(Some(PdfValue("/Choice1", false, ""))) && AppChecked(Some(PdfValue("/Choice1", false, "")), None)
  {
    ChoiceChecked();
    ChoiceNotBackend();
  }

  /** A name outside every token list, once stripped, reads as checked in the app variant only. */
  lemma UnknownTokenChecked(t: string)
    requires Trim(t) !in TrueTokens + FalseTokens + EmptyTokens && t !in TrueTokens
    ensures !BackendChecked(Some(PdfValue(t, false, ""))) && AppChecked(Some(PdfValue(t, false, "")), None)
  {
  }

  /** The checkbox decoder of a variant applied to a field dict. */
  function Checked(variant: Variant, d: FieldData): bool
    requires d.FieldDict?
  {
    if variant == App then AppChecked(d.value, d.appearance) else BackendChecked(d.value)
  }

  // ---------------------------------------------------------------------
  // The per-field loop
  // ---------------------------------------------------------------------

  predicate IsButton(d: FieldData) {
    d.FieldDict? && d.fieldType == Some("/Btn")
  }

  /** A text field's stored value: the resolved object, or the stripped text; None when absent or empty. */
  function TextValue(value: Option<PdfValue>): (r: Option<string>)
    ensures r.Some? ==> value.Some? && r.value != ""
    ensures value.Some? && !value.value.indirect ==> r == (if IsBlank(value.value.text) then None else Some(Trim(value.value.text)))
  {
    if value.None? then None
    else
      var s := if value.value.indirect then value.value.resolved else Trim(value.value.text);
      if s != "" then Some(s) else None
  }

  /** What one loop iteration writes: nothing, a text field or a checkbox, under the cleaned name. */
  datatype Slot = Skip | TextSlot(name: string, text: Option<string>) | BoxSlot(name: string, checked: bool)

  function Classify(variant: Variant, entry: (string, FieldData)): (r: Slot)
    ensures r.Skip? <==> entry.1.NotADict?
    ensures r.BoxSlot? <==> IsButton(entry.1)
    ensures !r.Skip? ==> r.name == CleanName(variant, entry.0)
    ensures r.TextSlot? ==> r.text == TextValue(entry.1.value)
    ensures r.BoxSlot? ==> entry.1.FieldDict? && r.checked == Checked(variant, entry.1)
  {
    var (name, d) := entry;
    if d.NotADict? then Skip
    else if IsButton(d) then BoxSlot(CleanName(variant, name), Checked(variant, d))
    else TextSlot(CleanName(variant, name), TextValue(d.value))
  }

  function ClassifyAll(variant: Variant, entries: seq<(string, FieldData)>): (r: seq<Slot>)
    ensures |r| == |entries|
    ensures forall i :: 0 <= i < |entries| ==> r[i] == Classify(variant, entries[i])
  {
    seq(|entries|, i requires 0 <= i < |entries| => Classify(variant, entries[i]))
  }

  /** The dicts `text_fields` and `checkboxes` after the loop has written `slots`. */
  function Collect(slots: seq<Slot>): (r: (seq<(string, Option<string>)>, seq<(string, bool)>))
    ensures Dicts.DistinctKeys(r.0) && Dicts.DistinctKeys(r.1)
    decreases |slots|
  {
    if |slots| == 0 then ([], [])
    else
      var acc := Collect(slots[..|slots| - 1]);
      match slots[|slots| - 1]
      case Skip => acc
      case BoxSlot(name, b) =>
        Dicts.PutDistinct(acc.1, name, b);
        (acc.0, Dicts.Put(acc.1, name, b))
      case TextSlot(name, t) =>
        Dicts.PutDistinct(acc.0, name, t);
        (Dicts.Put(acc.0, name, t), acc.1)
  }

  /** The slot writes the name `k`: as a checkbox when `box`, as a text field otherwise. */
  predicate WritesTo(s: Slot, k: string, box: bool) {
    !s.Skip? && s.BoxSlot? == box && s.name == k
  }

  lemma WritesToSnoc(slots: seq<Slot>, init: seq<Slot>, k: string, box: bool)
    requires |slots| > 0 && init == slots[..|slots| - 1]
    ensures (exists i :: 0 <= i < |slots| && WritesTo(slots[i], k, box)) <==>
      (exists i :: 0 <= i < |init| && WritesTo(init[i], k, box)) || WritesTo(slots[|slots| - 1], k, box)
  {
    if exists i :: 0 <= i < |slots| && WritesTo(slots[i], k, box) {
      var i :| 0 <= i < |slots| && WritesTo(slots[i], k, box);
      if i < |init| {
        assert init[i] == slots[i];
      }
    }
    if exists i :: 0 <= i < |init| && WritesTo(init[i], k, box) {
      var i :| 0 <= i < |init| && WritesTo(init[i], k, box);
      assert slots[i] == init[i];
    }
  }

  /** A text field exists under a name iff some non-button dict entry was written under it. */
  lemma {:induction false} CollectTextKeys(slots: seq<Slot>, k: string)
    ensures k in Dicts.Keys(Collect(slots).0) <==> exists i :: 0 <= i < |slots| && WritesTo(slots[i], k, false)
    decreases |slots|
  {
    if |slots| > 0 {
      var init := slots[..|slots| - 1];
      CollectTextKeys(init, k);
      WritesToSnoc(slots, init, k, false);
      var last := slots[|slots| - 1];
      if last.TextSlot? {
        Dicts.PutKeys(Collect(init).0, last.name, last.text, k);
      }
    }
  }

  /** A checkbox exists under a name iff some `/Btn` entry was written under it. */
  lemma {:induction false} CollectBoxKeys(slots: seq<Slot>, k: string)
    ensures k in Dicts.Keys(Collect(slots).1) <==> exists i :: 0 <= i < |slots| && WritesTo(slots[i], k, true)
    decreases |slots|
  {
    if |slots| > 0 {
      var init := slots[..|slots| - 1];
      CollectBoxKeys(init, k);
      WritesToSnoc(slots, init, k, true);
      var last := slots[|slots| - 1];
      if last.BoxSlot? {
        Dicts.PutKeys(Collect(init).1, last.name, last.checked, k);
      }
    }
  }

  /** The last entry written under a name decides that name's value. */
  lemma {:induction false} CollectLastWins(slots: seq<Slot>, i: nat)
    requires i < |slots| && !slots[i].Skip?
    requires forall j :: i < j < |slots| && !slots[j].Skip? ==> slots[j].name != slots[i].name
    ensures slots[i].BoxSlot? ==> Dicts.Get(Collect(slots).1, slots[i].name) == Some(slots[i].checked)
    ensures slots[i].TextSlot? ==> Dicts.Get(Collect(slots).0, slots[i].name) == Some(slots[i].text)
    decreases |slots|
  {
    if i < |slots| - 1 {
      var init := slots[..|slots| - 1];
      assert init[i] == slots[i];
      CollectLastWins(init, i);
      var acc := Collect(init);
      match slots[|slots| - 1]
      case Skip =>
      case BoxSlot(name, b) => Dicts.PutOther(acc.1, name, b, slots[i].name);
      case TextSlot(name, t) => Dicts.PutOther(acc.0, name, t, slots[i].name);
    }
  }

  /** `extract_form_fields` over what the reader produced. */
  function Extract(variant: Variant, src: PdfSource): (r: Extraction)
    ensures r.success <==> src.Fields? && |src.entries| > 0
    ensures !r.success ==> r.fieldCount == 0 && r.fields == [] && r.checkboxes == [] && r.error.Some?
    ensures r.success ==> r.fieldCount == |r.fields| + |r.checkboxes| && r.error.None?
    ensures r.success ==> r.rawNames == Dicts.Keys(src.entries)
    ensures r.success ==> (r.fields, r.checkboxes) == Collect(ClassifyAll(variant, src.entries))
  {
    match src
    case FileMissing(path) => Failed("PDF file not found: " + path)
    case ReadError(message) => Failed(message)
    case Fields(entries) =>
      if |entries| == 0 then Failed(NoFieldsError)
      else
        var (fields, checkboxes) := Collect(ClassifyAll(variant, entries));
        Extraction(true, |fields| + |checkboxes|, fields, checkboxes, Dicts.Keys(entries), None)
  }

  function Failed(message: string): Extraction {
    Extraction(false, 0, [], [], [], Some(message))
  }

  lemma InsuredCleaned()
    ensures CleanName(App, "F[0].Insured") == "Insured"
    ensures CleanName(App, "Insured") == "Insured"
  {
    var name := "F[0].Insured";
    assert name[..11] != LongPrefix by {
      assert name[..11][5] == 'I' && LongPrefix[5] == 'P';
    }
    assert name[..5] == ShortPrefix;
    assert name[5..] == "Insured";
    var bare := "Insured";
    assert bare[..5] != ShortPrefix by {
      assert bare[..5][0] == 'I';
    }
    assert bare[4..] != IndexSuffix by {
      assert bare[4..][2] == 'd';
    }
  }

  /** Two raw names that clean to the same name are counted once. */
  lemma CollidingNamesCountOnce()
    ensures Extract(App, Fields([("F[0].Insured", FieldDict(None, None, None, None)), ("Insured", FieldDict(None, None, None, None))])).fieldCount == 1
  {
    var d := FieldDict(None, None, None, None);
    var entries := [("F[0].Insured", d), ("Insured", d)];
    InsuredCleaned();
    var slots := ClassifyAll(App, entries);
    assert slots == [TextSlot("Insured", None), TextSlot("Insured", None)];
    assert slots[..1] == [TextSlot("Insured", None)];
    assert Collect(slots[..1]) == ([("Insured", None)], []);
  }

  // ---------------------------------------------------------------------
  // Combining for the LLM
  // ---------------------------------------------------------------------

  function YesNo(b: bool): string {
    if b then "Yes" else "No"
  }

  /** The text fields that hold a value. */
  function PresentFields(fields: seq<(string, Option<string>)>): (r: seq<(string, string)>)
    ensures Dicts.DistinctKeys(fields) ==> Dicts.DistinctKeys(r)
    ensures forall i :: 0 <= i < |r| ==> r[i].0 in Dicts.Keys(fields)
    ensures forall k :: Dicts.DistinctKeys(fields) ==> Dicts.Get(r, k) == (if Dicts.Get(fields, k).Some? then Dicts.Get(fields, k).value else None)
  {
    if |fields| == 0 then []
    else
      var rest := PresentFields(fields[1..]);
      assert Dicts.DistinctKeys(fields) ==> Dicts.DistinctKeys(fields[1..]);
      assert Dicts.DistinctKeys(fields) ==> fields[0].0 !in Dicts.Keys(fields[1..]) by {
        if Dicts.DistinctKeys(fields) {
          forall j | 0 <= j < |fields[1..]| ensures Dicts.Keys(fields[1..])[j] != fields[0].0 {
            assert fields[1..][j] == fields[j + 1];
          }
        }
      }
      assert Dicts.DistinctKeys(fields) ==> fields[0].0 !in Dicts.Keys(rest);
      if fields[0].1.Some? then [(fields[0].0, fields[0].1.value)] + rest else rest
  }

  /** The checkboxes rendered "Yes"/"No". */
  function CheckboxWords(checkboxes: seq<(string, bool)>): (r: seq<(string, string)>)
    ensures Dicts.Keys(r) == Dicts.Keys(checkboxes)
    ensures forall i :: 0 <= i < |r| ==> r[i].1 == YesNo(checkboxes[i].1)
  {
    seq(|checkboxes|, i requires 0 <= i < |checkboxes| => (checkboxes[i].0, YesNo(checkboxes[i].1)))
  }

  /** `_prepare_for_openai` (app) and `extract_for_llama` (backend), which share one body. */
  function Combine(x: Extraction): (r: Prepared)
    ensures !x.success ==> r == PrepFailed(x.error.GetOr(DefaultPrepError))
    ensures r.PrepOk? ==> r.fieldCount == |r.data|
  {
    if !x.success then PrepFailed(x.error.GetOr(DefaultPrepError))
    else
      var data := Dicts.PutAll(Dicts.PutAll([], PresentFields(x.fields)), CheckboxWords(x.checkboxes));
      PrepOk(|data|, data)
  }

  /**
    The combined data: a checkbox name maps to "Yes"/"No" even when a text
    field has the same name; any other name maps to its text value, and
    names whose text value is None are absent.
  */
  lemma {:induction false} CombineGet(x: Extraction, k: string)
    requires x.success && Dicts.DistinctKeys(x.fields) && Dicts.DistinctKeys(x.checkboxes)
    ensures Combine(x).PrepOk?
    ensures Dicts.Get(Combine(x).data, k) ==
      if Dicts.Get(x.checkboxes, k).Some? then Some(YesNo(Dicts.Get(x.checkboxes, k).value))
      else if Dicts.Get(x.fields, k).Some? then Dicts.Get(x.fields, k).value
      else None
  {
    var present := PresentFields(x.fields);
    var words := CheckboxWords(x.checkboxes);
    assert Dicts.DistinctKeys(words) by {
      assert Dicts.Keys(words) == Dicts.Keys(x.checkboxes);
      forall i, j | 0 <= i < j < |words| ensures words[i].0 != words[j].0 {
        assert Dicts.Keys(words)[i] == words[i].0 && Dicts.Keys(words)[j] == words[j].0;
        assert Dicts.Keys(x.checkboxes)[i] == x.checkboxes[i].0;
      }
    }
    Dicts.PutAllGet([], present, k);
    Dicts.PutAllGet(Dicts.PutAll([], present), words, k);
    if Dicts.Get(x.checkboxes, k).Some? {
      CheckboxWordsGet(x.checkboxes, k);
    }
  }

  lemma {:induction false} CheckboxWordsGet(checkboxes: seq<(string, bool)>, k: string)
    requires Dicts.Get(checkboxes, k).Some?
    ensures Dicts.Get(CheckboxWords(checkboxes), k) == Some(YesNo(Dicts.Get(checkboxes, k).value))
  {
    if checkboxes[0].0 != k {
      CheckboxWordsGet(checkboxes[1..], k);
      assert CheckboxWords(checkboxes)[1..] == CheckboxWords(checkboxes[1..]);
    }
  }

  /** `get_all_field_names`: the text-field and checkbox names, sorted; empty when extraction failed. */
  function AllFieldNames(src: PdfSource): (r: seq<string>)
    ensures Sorting.Sorted(r)
    ensures Extract(Backend, src).success ==>
      multiset(r) == multiset(Dicts.Keys(Extract(Backend, src).fields) + Dicts.Keys(Extract(Backend, src).checkboxes))
    ensures !Extract(Backend, src).success ==> r == []
  {
    var x := Extract(Backend, src);
    if x.success then Sorting.Sort(Dicts.Keys(x.fields) + Dicts.Keys(x.checkboxes)) else []
  }

  // ---------------------------------------------------------------------
  // has_extractable_text
  // ---------------------------------------------------------------------

  /** One page's `extract_text()`: its answer, or an exception. */
  datatype PageRead = PageOk(text: Option<string>) | PageRaises

  /** `page.extract_text() or ""`. */
  function PageText(p: PageRead): string {
    match p
    case PageOk(t) => t.GetOr("")
    case PageRaises => ""
  }

  /** The concatenated text of the given pages. */
  function PagesText(pages: seq<PageRead>): string
    decreases |pages|
  {
    if |pages| == 0 then "" else PagesText(pages[..|pages| - 1]) + PageText(pages[|pages| - 1])
  }

  lemma {:induction false} PagesTextPrefix(pages: seq<PageRead>, i: nat)
    requires i <= |pages|
    ensures |PagesText(pages[..i])| <= |PagesText(pages)|
    decreases |pages|
  {
    if i < |pages| {
      assert pages[..|pages| - 1][..i] == pages[..i];
      PagesTextPrefix(pages[..|pages| - 1], i);
    } else {
      assert pages[..i] == pages;
    }
  }

  /** The position of the first page whose read raises, or the number of pages when none does. */
  function FirstRaise(pages: seq<PageRead>): (j: nat)
    ensures j <= |pages|
    ensures forall i :: 0 <= i < j ==> pages[i].PageOk?
    ensures j < |pages| ==> pages[j].PageRaises?
    decreases |pages|
  {
    if |pages| == 0 || pages[0].PageRaises? then 0 else 1 + FirstRaise(pages[1..])
  }

  const PagesChecked := 3

  /** The pages `reader.pages[:3]` visits. */
  function FirstPages(pages: seq<PageRead>): (r: seq<PageRead>)
    ensures |r| <= PagesChecked && |r| <= |pages| && r == pages[..|r|]
    ensures |pages| >= PagesChecked ==> |r| == PagesChecked
  {
    pages[..if |pages| < PagesChecked then |pages| else PagesChecked]
  }

  /**
    `has_extractable_text` over the page reads (`None` when opening the
    reader raised). A raising page ends the loop with false unless an
    earlier page already reached `min_chars`; with no raising page the
    early return and the final stripped comparison together amount to
    comparing the length of the first three pages' text.
  */
  method HasExtractableText(pages: Option<seq<PageRead>>, minChars: int) returns (r: bool)
    ensures pages.None? ==> !r
    ensures pages.Some? ==>
      var first := FirstPages(pages.value);
      var j := FirstRaise(first);
      (r <==> |PagesText(first[..j])| >= minChars && (j == |first| || j > 0))
  {
    if pages.None? {
      return false;
    }
    var first := FirstPages(pages.value);
    var n := |first|;
    var j := FirstRaise(first);
    var total := "";
    var i := 0;
    while i < n
      invariant 0 <= i <= n && i <= j
      invariant total == PagesText(first[..i])
      invariant i > 0 ==> |total| < minChars
    {
      if first[i].PageRaises? {
        return false;
      }
      assert first[..i + 1][..i] == first[..i];
      total := total + PageText(first[i]);
      if |total| >= minChars {
        assert j >= i + 1;
        assert first[..j][..i + 1] == first[..i + 1];
        PagesTextPrefix(first[..j], i + 1);
        return true;
      }
      i := i + 1;
    }
    assert first[..i] == first;
    r := |Trim(total)| >= minChars;
  }
}
