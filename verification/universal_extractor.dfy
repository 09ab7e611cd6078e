/**
  `app/modules/universal/universal_extractor.py`: classification of a PDF's
  form fields by type, and the sequential decisions of `extract_pdf`: which
  text to use, when to give up, the context handed to the AI service, the
  fallback when it fails and the shape of the result. The PDF reader, the
  OCR engine and the AI service are inputs.
*/
module UniversalExtractor {
  import opened Wrappers
  import opened Strings
  import opened JsonValue
  import Dicts

  /** The "Radio" field flag: bit position 16 of `/Ff` (section 12.7.4.2.4 of ISO 32000-1). */
  const RadioFlag: int := 0x8000

  /** The direct text is used only when its stripped length exceeds this. */
  const MinDirectText: nat := 50

  // ---------------------------------------------------------------------
  // _extract_form_fields
  // ---------------------------------------------------------------------

  /** `flags & 0x8000` is non-zero, on Python's unbounded two's-complement integers. */
  predicate IsRadio(flags: int) {
    (flags / RadioFlag) % 2 == 1
  }

  /**
    The bit test looks at bit 16 and nothing else: every integer is some
    multiple of 0x10000, plus 0x8000 when the flag is set, plus lower bits.
  */
  lemma RadioBit(high: int, low: int)
    requires 0 <= low < RadioFlag
    ensures IsRadio(high * 0x10000 + RadioFlag + low)
    ensures !IsRadio(high * 0x10000 + low)
  {
    assert high * 0x10000 + RadioFlag + low == (2 * high + 1) * RadioFlag + low;
    assert (high * 0x10000 + RadioFlag + low) / RadioFlag == 2 * high + 1;
    assert high * 0x10000 + low == (2 * high) * RadioFlag + low;
    assert (high * 0x10000 + low) / RadioFlag == 2 * high;
  }

  datatype Kind = TextKind | ChoiceKind | RadioKind | CheckKind | Dropped

  /** `field.get("/Ff", 0)` as an integer, or None when `&` on it would raise. */
  function ReadFlags(field: Object): Option<int> {
    match GetOr(field, "/Ff", JInt(0))
    case JInt(i) => Some(i)
    case JBool(b) => Some(if b then 1 else 0)
    case _ => None
  }

  /** Where the loop puts one field, by its `/FT` and, for buttons, its radio flag; None when it raises. */
  function KindOf(field: Object): (r: Option<Kind>)
    ensures Get(field, "/FT") == JStr("/Tx") ==> r == Some(TextKind)
    ensures Get(field, "/FT") == JStr("/Ch") ==> r == Some(ChoiceKind)
    ensures Get(field, "/FT") == JStr("/Btn") && ReadFlags(field).Some? ==>
      r == Some(if IsRadio(ReadFlags(field).value) then RadioKind else CheckKind)
    ensures r == Some(Dropped) <==> Get(field, "/FT") !in [JStr("/Tx"), JStr("/Ch"), JStr("/Btn")]
    ensures r == None <==> Get(field, "/FT") == JStr("/Btn") && ReadFlags(field).None?
  {
    var ft := Get(field, "/FT");
    if ft == JStr("/Tx") then Some(TextKind)
    else if ft == JStr("/Ch") then Some(ChoiceKind)
    else if ft == JStr("/Btn") then
      match ReadFlags(field)
      case None => None
      case Some(f) => Some(if IsRadio(f) then RadioKind else CheckKind)
    else Some(Dropped)
  }

  /** `field_value or ""`. */
  function ValueOr(v: Json): (r: Json)
    ensures Truthy(r) ==> r == v
    ensures !Truthy(v) ==> r == JStr("")
  {
    if Truthy(v) then v else JStr("")
  }

  /**
    `bool(field_value and field_value != "Off")` as written. The reader
    gives a checkbox's `/V` as a PDF name, with its slash, so an unchecked
    box holds "/Off" and this test reads it as checked.
  */
  predicate CheckedAsWritten(v: Json) {
    Truthy(v) && v != JStr("Off")
  }

  /** The test as intended: a present value other than the off state, with or without the slash. */
  predicate Checked(v: Json) {
    Truthy(v) && v != JStr("Off") && v != JStr("/Off")
  }

  /** An unchecked box, `/V` = "/Off", reads as checked as written and as unchecked as intended. */
  lemma OffNameReadsChecked()
    ensures CheckedAsWritten(JStr("/Off"))
    ensures !Checked(JStr("/Off"))
  {
  }

  /** The two tests differ on the off name alone; missing, empty and "Off" values are unchecked under both. */
  lemma CheckedDiffersOnlyOnOffName(v: Json)
    ensures v != JStr("/Off") ==> (Checked(v) <==> CheckedAsWritten(v))
    ensures !Truthy(v) || v == JStr("Off") ==> !Checked(v) && !CheckedAsWritten(v)
    ensures Checked(v) ==> CheckedAsWritten(v)
  {
  }

  /** One field's pair in a group: its name and `val` of its `/V` entry. */
  function Entry<V>(e: (string, Object), val: Json -> V): (string, V) {
    (e.0, val(Get(e.1, "/V")))
  }

  /** The fields of one kind, in field order, each with `val` of its value. */
  function Pick<V>(entries: seq<(string, Object)>, kind: Kind, val: Json -> V): (r: seq<(string, V)>)
    ensures |r| <= |entries|
    decreases |entries|
  {
    if |entries| == 0 then []
    else if KindOf(entries[0].1) == Some(kind) then [Entry(entries[0], val)] + Pick(entries[1..], kind, val)
    else Pick(entries[1..], kind, val)
  }

  /** A group only holds names of fields. */
  lemma {:induction false} PickKeysFrom<V>(entries: seq<(string, Object)>, kind: Kind, val: Json -> V, k: string)
    ensures k in Dicts.Keys(Pick(entries, kind, val)) ==> k in Dicts.Keys(entries)
    decreases |entries|
  {
    if |entries| > 0 {
      PickKeysFrom(entries[1..], kind, val, k);
      Dicts.KeysUncons(entries, k);
      var rest := Pick(entries[1..], kind, val);
      if KindOf(entries[0].1) == Some(kind) {
        var d := [Entry(entries[0], val)] + rest;
        assert d[1..] == rest;
        Dicts.KeysUncons(d, k);
      }
    }
  }

  /**
    With distinct names, a field of the kind is in the group under its
    name with `val` of its value, and a field of another kind is absent.
  */
  lemma {:induction false} PickAt<V>(entries: seq<(string, Object)>, kind: Kind, val: Json -> V, i: nat)
    requires Dicts.DistinctKeys(entries) && i < |entries|
    ensures Dicts.Get(Pick(entries, kind, val), entries[i].0) ==
      if KindOf(entries[i].1) == Some(kind) then Some(val(Get(entries[i].1, "/V"))) else None
    decreases |entries|
  {
    var rest := entries[1..];
    var name := entries[i].0;
    Dicts.DistinctUncons(entries);
    var pr := Pick(rest, kind, val);
    if i == 0 {
      PickKeysFrom(rest, kind, val, name);
    } else {
      assert entries[i] == rest[i - 1];
      PickAt(rest, kind, val, i - 1);
      assert entries[0].0 != name;
      if KindOf(entries[0].1) == Some(kind) {
        var d := [Entry(entries[0], val)] + pr;
        assert d[1..] == pr;
      }
    }
  }

  /** With distinct field names, every group has distinct names too. */
  lemma {:induction false} PickDistinct<V>(entries: seq<(string, Object)>, kind: Kind, val: Json -> V)
    requires Dicts.DistinctKeys(entries)
    ensures Dicts.DistinctKeys(Pick(entries, kind, val))
    decreases |entries|
  {
    if |entries| > 0 {
      var rest := entries[1..];
      Dicts.DistinctUncons(entries);
      PickDistinct(rest, kind, val);
      PickKeysFrom(rest, kind, val, entries[0].0);
      var pr := Pick(rest, kind, val);
      if KindOf(entries[0].1) == Some(kind) {
        var d := [Entry(entries[0], val)] + pr;
        forall a, b | 0 <= a < b < |d| ensures d[a].0 != d[b].0 {
          if a == 0 {
            assert d[b] == pr[b - 1] && Dicts.Keys(pr)[b - 1] == pr[b - 1].0;
          } else {
            assert d[a] == pr[a - 1] && d[b] == pr[b - 1];
          }
        }
      }
    }
  }

  /** The four groups `_extract_form_fields` returns. */
  datatype Groups = Groups(
    textFields: seq<(string, Json)>,
    checkboxes: seq<(string, bool)>,
    radioButtons: seq<(string, Json)>,
    dropdowns: seq<(string, Json)>)

  /** Reading some field raises inside the loop. */
  predicate Raises(entries: seq<(string, Object)>) {
    exists i :: 0 <= i < |entries| && KindOf(entries[i].1) == None
  }

  /** The kinds exclude each other, so the four groups hold at most one entry per field. */
  lemma {:induction false} GroupsSize(entries: seq<(string, Object)>, check: Json -> bool)
    ensures |Pick(entries, TextKind, ValueOr)| + |Pick(entries, CheckKind, check)| +
            |Pick(entries, RadioKind, ValueOr)| + |Pick(entries, ChoiceKind, ValueOr)| <= |entries|
    decreases |entries|
  {
    if |entries| > 0 {
      GroupsSize(entries[1..], check);
    }
  }

  /** The four groups, with `check` deciding whether a checkbox is ticked. */
  function GroupsWith(entries: seq<(string, Object)>, check: Json -> bool): (r: Groups)
    ensures |r.textFields| + |r.checkboxes| + |r.radioButtons| + |r.dropdowns| <= |entries|
  {
    GroupsSize(entries, check);
    Groups(
      Pick(entries, TextKind, ValueOr),
      Pick(entries, CheckKind, check),
      Pick(entries, RadioKind, ValueOr),
      Pick(entries, ChoiceKind, ValueOr))
  }

  /**
    `_extract_form_fields` over the reader's fields, a dict from name to
    field, with the checkbox test as written: None stands for the `{}`
    returned when there are no fields or the loop raises.
  */
  function ExtractFields(entries: seq<(string, Object)>): (r: Option<Groups>)
    ensures r == None <==> entries == [] || Raises(entries)
    ensures r.Some? ==> |r.value.textFields| + |r.value.checkboxes| + |r.value.radioButtons| + |r.value.dropdowns| <= |entries|
  {
    if entries == [] || Raises(entries) then None
    else Some(GroupsWith(entries, CheckedAsWritten))
  }

  /** `_extract_form_fields` with the checkbox test as intended. */
  function ExtractFieldsIntended(entries: seq<(string, Object)>): (r: Option<Groups>)
    ensures r == None <==> entries == [] || Raises(entries)
    ensures r.Some? ==> |r.value.textFields| + |r.value.checkboxes| + |r.value.radioButtons| + |r.value.dropdowns| <= |entries|
  {
    if entries == [] || Raises(entries) then None
    else Some(GroupsWith(entries, Checked))
  }

  /**
    Every field lands in exactly the group its `/FT` and radio flag
    select, under its own name, with `field_value or ""` (for checkboxes,
    the test as written) as its value; and the groups are dicts.
  */
  lemma ExtractFieldsRoutes(entries: seq<(string, Object)>, i: nat)
    requires Dicts.DistinctKeys(entries) && i < |entries|
    requires ExtractFields(entries).Some?
    ensures var g := ExtractFields(entries).value;
      var (name, field) := entries[i];
      var v := Get(field, "/V");
      Dicts.Get(g.textFields, name) == (if KindOf(field) == Some(TextKind) then Some(ValueOr(v)) else None) &&
      Dicts.Get(g.checkboxes, name) == (if KindOf(field) == Some(CheckKind) then Some(CheckedAsWritten(v)) else None) &&
      Dicts.Get(g.radioButtons, name) == (if KindOf(field) == Some(RadioKind) then Some(ValueOr(v)) else None) &&
      Dicts.Get(g.dropdowns, name) == (if KindOf(field) == Some(ChoiceKind) then Some(ValueOr(v)) else None)
    ensures var g := ExtractFields(entries).value;
      Dicts.DistinctKeys(g.textFields) && Dicts.DistinctKeys(g.checkboxes) &&
      Dicts.DistinctKeys(g.radioButtons) && Dicts.DistinctKeys(g.dropdowns)
  {
    PickAt(entries, TextKind, ValueOr, i);
    PickAt(entries, CheckKind, CheckedAsWritten, i);
    PickAt(entries, RadioKind, ValueOr, i);
    PickAt(entries, ChoiceKind, ValueOr, i);
    PickDistinct(entries, TextKind, ValueOr);
    PickDistinct(entries, CheckKind, CheckedAsWritten);
    PickDistinct(entries, RadioKind, ValueOr);
    PickDistinct(entries, ChoiceKind, ValueOr);
  }

  /**
    The corrected extraction differs from the one as written only in the
    checkbox group, and there only for a box whose `/V` is "/Off": it
    reads unchecked where the code as written reads checked.
  */
  lemma ExtractFieldsIntendedDiffers(entries: seq<(string, Object)>, i: nat)
    requires Dicts.DistinctKeys(entries) && i < |entries|
    requires ExtractFields(entries).Some?
    ensures ExtractFieldsIntended(entries).Some?
    ensures var (g, h) := (ExtractFields(entries).value, ExtractFieldsIntended(entries).value);
      h.textFields == g.textFields && h.radioButtons == g.radioButtons && h.dropdowns == g.dropdowns &&
      Dicts.Keys(h.checkboxes) == Dicts.Keys(g.checkboxes)
    ensures var (g, h) := (ExtractFields(entries).value, ExtractFieldsIntended(entries).value);
      var (name, field) := entries[i];
      if KindOf(field) == Some(CheckKind) && Get(field, "/V") == JStr("/Off") then
        Dicts.Get(g.checkboxes, name) == Some(true) && Dicts.Get(h.checkboxes, name) == Some(false)
      else
        Dicts.Get(h.checkboxes, name) == Dicts.Get(g.checkboxes, name)
  {
    var g := GroupsWith(entries, CheckedAsWritten);
    var h := GroupsWith(entries, Checked);
    assert ExtractFields(entries) == Some(g);
    assert ExtractFieldsIntended(entries) == Some(h);
    PickAt(entries, CheckKind, CheckedAsWritten, i);
    PickAt(entries, CheckKind, Checked, i);
    PickSameKeys(entries, CheckKind, CheckedAsWritten, Checked);
    var v := Get(entries[i].1, "/V");
    if v == JStr("/Off") {
      OffNameReadsChecked();
    } else {
      assert CheckedAsWritten(v) == Checked(v);
    }
  }

  /** The names in a group do not depend on the value function. */
  lemma {:induction false} PickSameKeys<V>(entries: seq<(string, Object)>, kind: Kind, f: Json -> V, g: Json -> V)
    ensures Dicts.Keys(Pick(entries, kind, f)) == Dicts.Keys(Pick(entries, kind, g))
    decreases |entries|
  {
    if |entries| > 0 {
      PickSameKeys(entries[1..], kind, f, g);
      var a := Pick(entries[1..], kind, f);
      var b := Pick(entries[1..], kind, g);
      if KindOf(entries[0].1) == Some(kind) {
        Dicts.KeysCons(Entry(entries[0], f), a);
        Dicts.KeysCons(Entry(entries[0], g), b);
      }
    }
  }

  // ---------------------------------------------------------------------
  // extract_pdf
  // ---------------------------------------------------------------------

  /**
    The text choice: the reader's text when it is non-empty and its
    stripped length exceeds 50, otherwise the OCR text; each with its page count.
  */
  function ChooseText(direct: string, directPages: nat, ocrText: string, ocrPages: nat): (r: (string, nat))
    ensures r == (direct, directPages) || r == (ocrText, ocrPages)
    ensures direct != "" && |Trim(direct)| > MinDirectText ==> r == (direct, directPages)
    ensures !(direct != "" && |Trim(direct)| > MinDirectText) ==> r == (ocrText, ocrPages)
  {
    if direct != "" && |Trim(direct)| > MinDirectText then (direct, directPages) else (ocrText, ocrPages)
  }

  /** `name.replace('[', '').replace(']', '').replace('.', ' ')`. */
  function CleanLabel(name: string): (r: string)
    ensures '[' !in r && ']' !in r && '.' !in r
  {
    ReplaceChar(ReplaceChar(ReplaceChar(name, '[', ""), ']', ""), '.', " ")
  }

  /** The same cleaning, one character at a time. */
  function CleanChar(c: char): string {
    if c == '[' || c == ']' then "" else if c == '.' then " " else [c]
  }

  function CleanChars(s: string): string {
    if |s| == 0 then "" else CleanChar(s[0]) + CleanChars(s[1..])
  }

  /** The chained replacements clean each character on its own: brackets vanish, dots become spaces. */
  lemma {:induction false} CleanLabelPointwise(s: string)
    ensures CleanLabel(s) == CleanChars(s)
    decreases |s|
  {
    if |s| > 0 {
      var h, t := [s[0]], s[1..];
      assert s == h + t;
      CleanLabelPointwise(t);
      ReplaceCharAppend(h, t, '[', "");
      ReplaceCharAppend(ReplaceChar(h, '[', ""), ReplaceChar(t, '[', ""), ']', "");
      ReplaceCharAppend(ReplaceChar(ReplaceChar(h, '[', ""), ']', ""), ReplaceChar(ReplaceChar(t, '[', ""), ']', ""), '.', " ");
      assert CleanLabel(h) == CleanChar(s[0]);
    }
  }

  /** One `name: value` line of the form-field block. */
  function FieldLine(entry: (string, Json)): string {
    CleanLabel(entry.0) + ": " + PyStr(entry.1) + "\n"
  }

  function CheckWord(checked: bool): string {
    if checked then "CHECKED" else "UNCHECKED"
  }

  /** One `name: CHECKED|UNCHECKED` line of the checkbox block. */
  function BoxLine(entry: (string, bool)): string {
    CleanLabel(entry.0) + ": " + CheckWord(entry.1) + "\n"
  }

  function FieldLines(entries: seq<(string, Json)>): string {
    ConcatMap(entries, FieldLine)
  }

  function BoxLines(entries: seq<(string, bool)>): string {
    ConcatMap(entries, BoxLine)
  }

  const TextHeader := "=== DOCUMENT TEXT ===\n"
  const FieldHeader := "=== FORM FIELD VALUES ===\n"
  const BoxHeader := "=== CHECKBOX VALUES ===\n"

  function TextBlock(text: string): string {
    if !IsBlank(text) then TextHeader + text + "\n\n" else ""
  }

  function FieldBlock(fields: Option<Groups>): string {
    if fields.Some? && fields.value.textFields != [] then FieldHeader + FieldLines(fields.value.textFields) + "\n" else ""
  }

  function BoxBlock(fields: Option<Groups>): string {
    if fields.Some? && fields.value.checkboxes != [] then BoxHeader + BoxLines(fields.value.checkboxes) + "\n" else ""
  }

  /** The context sent to the AI service: text, then text fields, then checkboxes; each block only when it has content. */
  function Context(text: string, fields: Option<Groups>): (r: string)
    ensures IsBlank(text) ==> r == FieldBlock(fields) + BoxBlock(fields)
    ensures fields.None? ==> r == TextBlock(text)
  {
    var rest := FieldBlock(fields) + BoxBlock(fields);
    if IsBlank(text) then rest else TextHeader + text + "\n\n" + rest
  }

  /** A text with content opens the context, under its header and followed by a blank line. */
  lemma ContextOpensWithText(text: string, fields: Option<Groups>)
    requires !IsBlank(text)
    ensures StartsWith(Context(text, fields), TextHeader + text + "\n\n")
  {
    StartsWithConcat(TextHeader + text + "\n\n", FieldBlock(fields) + BoxBlock(fields));
  }

  /** Every checkbox has its own line in the checkbox block, reading CHECKED exactly when it is checked. */
  lemma BoxLineAt(entries: seq<(string, bool)>, i: nat) returns (at: nat)
    requires i < |entries|
    ensures OccursAt(BoxLines(entries), BoxLine(entries[i]), at)
  {
    at := ConcatMapAt(entries, BoxLine, i);
  }

  /** Likewise every text field has its own `name: value` line in the form-field block. */
  lemma FieldLineAt(entries: seq<(string, Json)>, i: nat) returns (at: nat)
    requires i < |entries|
    ensures OccursAt(FieldLines(entries), FieldLine(entries[i]), at)
  {
    at := ConcatMapAt(entries, FieldLine, i);
  }

  /** The outcomes of `extract_pdf`. */
  datatype Outcome =
    | Failed(problem: Problem)              // `success: False` with the problem's message
    | AiFailure(result: Object)             // the AI service's own unsuccessful result, returned as it is
    | FieldsOnly(formFields: Groups)        // "form_fields_only": the raw form fields as the data
    | Extracted(formatted: Json, documentType: Json, tokensUsed: Json, pageCount: nat)  // "universal_ai"

  /** Why extraction answers `success: False`. */
  datatype Problem = FileNotFound | NothingToRead | Raised(message: string)

  /** The `error` text of each problem. */
  function ErrorMessage(p: Problem): string {
    match p
    case FileNotFound => "PDF file not found"
    case NothingToRead => "No text could be extracted. Document may be image-only without readable text."
    case Raised(message) => "PDF extraction failed: " + message
  }

  /** The keys of an AI result dict that are not data. */
  predicate MetaKey(k: string) {
    k == "document_type" || k == "success" || k == "error"
  }

  /** `{k: v for k, v in ai_data.items() if k not in [...]}`. */
  function DropMeta(o: Object): (r: Object)
    ensures forall j :: 0 <= j < |r| ==> !MetaKey(r[j].0) && r[j] in o
    ensures forall j :: 0 <= j < |o| && !MetaKey(o[j].0) ==> o[j] in r
    ensures |r| <= |o|
  {
    if |o| == 0 then []
    else
      var rest := DropMeta(o[1..]);
      assert forall j :: 1 <= j < |o| ==> o[j] == o[1..][j - 1];
      if MetaKey(o[0].0) then rest else [o[0]] + rest
  }

  /** `formatted_data` and `document_type` from the AI's `data`. */
  function Shape(data: Json): (r: (Json, Json))
    ensures data.JObj? && Truthy(GetOr(data.fields, "sections", JObj([]))) ==> r.0 == GetOr(data.fields, "sections", JObj([]))
    ensures data.JObj? && data.fields != [] && !Truthy(GetOr(data.fields, "sections", JObj([]))) ==> r.0 == JObj(DropMeta(data.fields))
    ensures data.JObj? ==> r.1 == GetOr(data.fields, "document_type", JStr("Document"))
    ensures !data.JObj? ==> r == (if Truthy(data) then data else JObj([]), JStr("Document"))
  {
    if data.JObj? then
      var sections := GetOr(data.fields, "sections", JObj([]));
      var documentType := GetOr(data.fields, "document_type", JStr("Document"));
      if !Truthy(sections) && data.fields != [] then (JObj(DropMeta(data.fields)), documentType)
      else (sections, documentType)
    else (if Truthy(data) then data else JObj([]), JStr("Document"))
  }

  /**
    The steps of `extract_pdf` after the reads: the empty check, the AI
    call (an exception is a `Failure`), the fallback and the shaping.
  */
  function Extract(fields: Option<Groups>, text: string, pages: nat, ai: string -> Result<Object, string>): (r: Outcome)
    ensures r == Failed(NothingToRead) <==> text == "" && fields.None?
    ensures r.AiFailure? ==> fields.None? && !Truthy(Get(r.result, "success"))
    ensures r.FieldsOnly? ==> fields == Some(r.formFields)
    ensures r.Extracted? ==> r.pageCount == pages
  {
    if text == "" && fields.None? then Failed(NothingToRead)
    else
      match ai(Context(text, fields))
      case Failure(message) => Failed(Raised(message))
      case Success(result) =>
        if !Truthy(Get(result, "success")) then
          if fields.Some? then FieldsOnly(fields.value) else AiFailure(result)
        else
          var (formatted, documentType) := Shape(GetOr(result, "data", JObj([])));
          Extracted(formatted, documentType, GetOr(result, "usage", JObj([])), pages)
  }

  /** An exception from the AI service becomes the extraction-failed message. */
  lemma ExtractAiRaises(fields: Option<Groups>, text: string, pages: nat, ai: string -> Result<Object, string>)
    requires !(text == "" && fields.None?)
    requires ai(Context(text, fields)).Failure?
    ensures Extract(fields, text, pages, ai) == Failed(Raised(ai(Context(text, fields)).error))
  {
  }

  /**
    When the AI service answers without success, the raw form fields are
    the result if the PDF had any, and the service's answer otherwise.
  */
  lemma ExtractFallback(fields: Option<Groups>, text: string, pages: nat, ai: string -> Result<Object, string>)
    requires !(text == "" && fields.None?)
    requires ai(Context(text, fields)).Success? && !Truthy(Get(ai(Context(text, fields)).value, "success"))
    ensures fields.Some? ==> Extract(fields, text, pages, ai) == FieldsOnly(fields.value)
    ensures fields.None? ==> Extract(fields, text, pages, ai) == AiFailure(ai(Context(text, fields)).value)
  {
  }

  /** A successful answer becomes a "universal_ai" result with the answer's usage and the shaped data. */
  lemma ExtractSucceeds(fields: Option<Groups>, text: string, pages: nat, ai: string -> Result<Object, string>)
    requires !(text == "" && fields.None?)
    requires ai(Context(text, fields)).Success? && Truthy(Get(ai(Context(text, fields)).value, "success"))
    ensures var answer := ai(Context(text, fields)).value;
      var r := Extract(fields, text, pages, ai);
      r.Extracted? && r.pageCount == pages && r.tokensUsed == GetOr(answer, "usage", JObj([])) &&
      (r.formatted, r.documentType) == Shape(GetOr(answer, "data", JObj([])))
  {
  }

  /**
    `extract_pdf`: `fileExists` is the file check, `entries` the reader's
    fields, `direct`/`directPages` the reader's text and page count (1 when
    counting raises), `ocrText`/`ocrPages` the OCR result (pages 0 when it
    is not a pair) and `ai` the AI service.
  */
  function ExtractPdf(fileExists: bool, entries: seq<(string, Object)>, direct: string, directPages: nat,
                      ocrText: string, ocrPages: nat, ai: string -> Result<Object, string>): (r: Outcome)
    ensures !fileExists ==> r == Failed(FileNotFound)
    ensures fileExists ==> r == Extract(ExtractFields(entries), ChooseText(direct, directPages, ocrText, ocrPages).0,
                                        ChooseText(direct, directPages, ocrText, ocrPages).1, ai)
  {
    if !fileExists then Failed(FileNotFound)
    else
      var (text, pages) := ChooseText(direct, directPages, ocrText, ocrPages);
      Extract(ExtractFields(entries), text, pages, ai)
  }

  /** A PDF whose direct text is long enough is never sent to OCR: its text and page count are the reader's. */
  lemma ExtractPdfPrefersDirect(entries: seq<(string, Object)>, direct: string, directPages: nat,
                                ocrText: string, ocrPages: nat, ai: string -> Result<Object, string>)
    requires |Trim(direct)| > MinDirectText
    ensures ExtractPdf(true, entries, direct, directPages, ocrText, ocrPages, ai) ==
      Extract(ExtractFields(entries), direct, directPages, ai)
  {
  }
}
