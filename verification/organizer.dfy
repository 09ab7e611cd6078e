/**
  The two organizer variants, `app/services/acord/acord_organizer.py`
  (`organize_unformatted`) and `backend/services/acord/acord_organizer.py`
  (`organize`). The chat-completion service is a parameter: it receives the
  variable part of the prompt and either returns a reply or raises.
*/
module Organizer {
  import opened Wrappers
  import opened Strings
  import opened JsonValue
  import opened ResponseParsing
  import Seqs

  /** A chat-completion reply: `{success, error?, content?, usage?}`. */
  datatype Reply = Reply(success: bool, error: Option<string>, content: string, usage: Option<Json>)

  /** A service call: the reply, or `Failure(str(e))` when it raises. */
  type Call<!P> = P -> Result<Reply, string>

  /** What either organizer returns; `data` is `unformatted_data` or `organized_data`. */
  datatype Organized = Organized(success: bool, error: Option<string>, data: Json, tokensUsed: Option<Json>)

  const ApiFailed := "API call failed"
  const NoFields := "No fields to organize"

  /** A prompt keeps an entry whose value is not None and not blank once converted with `str`. */
  predicate Kept(v: Json) {
    v != JNull && !IsBlank(PyStr(v))
  }

  predicate KeptEntry(e: (string, Json)) {
    Kept(e.1)
  }

  /** The entries a prompt lists, in input order. */
  function KeptEntries(d: Object): (r: Object)
    ensures |r| <= |d|
  {
    Seqs.Filter(d, KeptEntry)
  }

  /** An entry is listed iff it is in the dict and kept. */
  lemma KeptEntriesMember(d: Object, e: (string, Json))
    ensures e in KeptEntries(d) <==> e in d && Kept(e.1)
  {
    Seqs.FilterMember(d, KeptEntry, e);
  }

  /** Listing preserves order: the entries of a concatenation are the entries of each part in turn. */
  lemma KeptEntriesAppend(a: Object, b: Object)
    ensures KeptEntries(a + b) == KeptEntries(a) + KeptEntries(b)
  {
    Seqs.FilterAppend(a, b, KeptEntry);
  }

  // ---------------------------------------------------------------------
  // app: organize_unformatted
  // ---------------------------------------------------------------------

  /** One `"key": "value"` item of the INPUT line, the value stripped. */
  function GuidanceItem(e: (string, Json)): string {
    "\"" + e.0 + "\": \"" + Trim(PyStr(e.1)) + "\""
  }

  /** The INPUT of `_build_guidance_prompt`: `{` + the items joined with ", " + `}`. */
  function GuidanceInput(d: Object): string {
    var entries := KeptEntries(d);
    "{" + Join(", ", seq(|entries|, i requires 0 <= i < |entries| => GuidanceItem(entries[i]))) + "}"
  }

  /** `organize_unformatted`: empty input short-circuits; a failed or raising call gives `{}`. */
  function OrganizeUnformatted(unmapped: Object, call: Call<string>, parse: Parser): (r: Organized)
    ensures |unmapped| == 0 ==> r == Organized(true, None, EmptyObject, None)
    ensures !r.success ==> r.data == EmptyObject && r.error.Some? && r.tokensUsed.None?
    ensures r.success && |unmapped| > 0 ==>
      var reply := call(GuidanceInput(unmapped));
      reply.Success? && reply.value.success &&
      r.data == ParseResponse(reply.value.content, parse) &&
      r.tokensUsed == Some(reply.value.usage.GetOr(EmptyObject))
  {
    if |unmapped| == 0 then Organized(true, None, EmptyObject, None)
    else
      match call(GuidanceInput(unmapped))
      case Failure(e) => Organized(false, Some(e), EmptyObject, None)
      case Success(reply) =>
        if !reply.success then Organized(false, Some(reply.error.GetOr(ApiFailed)), EmptyObject, None)
        else Organized(true, None, ParseResponse(reply.content, parse), Some(reply.usage.GetOr(EmptyObject)))
  }

  /** Empty input never reaches the service: the outcome does not depend on it. */
  lemma EmptyInputNoCall(call1: Call<string>, call2: Call<string>, parse: Parser)
    ensures OrganizeUnformatted([], call1, parse) == OrganizeUnformatted([], call2, parse)
  {
  }

  /** Entries the prompt leaves out do not affect the outcome: appending a None or blank entry changes nothing. */
  lemma UnkeptEntryIgnored(d: Object, k: string, v: Json, call: Call<string>, parse: Parser)
    requires |d| > 0 && !Kept(v)
    ensures OrganizeUnformatted(d + [(k, v)], call, parse) == OrganizeUnformatted(d, call, parse)
  {
    KeptEntriesAppend(d, [(k, v)]);
    assert KeptEntries([(k, v)]) == [];
    assert KeptEntries(d + [(k, v)]) == KeptEntries(d);
  }

  // ---------------------------------------------------------------------
  // backend: organize
  // ---------------------------------------------------------------------

  /** One line `  pdf_field → schema_path` of the mappings block. */
  function MappingLine(m: (string, string)): string {
    "  " + m.0 + " → " + m.1
  }

  function MappingLines(table: seq<(string, string)>): (r: seq<string>)
    ensures |r| == |table|
  {
    seq(|table|, i requires 0 <= i < |table| => MappingLine(table[i]))
  }

  /** The mappings block: the lines joined with newlines. */
  function MappingsText(table: seq<(string, string)>): string {
    Join("\n", MappingLines(table))
  }

  /**
    The mappings block has one line per table entry, in order: when no
    field name or path holds a newline, splitting the block at newlines
    gives back exactly the lines.
  */
  lemma MappingsTextLines(table: seq<(string, string)>)
    requires |table| >= 1
    requires forall i :: 0 <= i < |table| ==> '\n' !in table[i].0 && '\n' !in table[i].1
    ensures SplitBy(MappingsText(table), c => c == '\n') == MappingLines(table)
  {
    var lines := MappingLines(table);
    forall i | 0 <= i < |lines| ensures '\n' !in lines[i] {
      assert lines[i] == "  " + table[i].0 + " → " + table[i].1;
    }
    JoinSplitBy('\n', lines);
  }

  /** One `  "key": "value"` item of the raw-data block; the value is not stripped. */
  function RawDataItem(e: (string, Json)): string {
    "  \"" + e.0 + "\": \"" + PyStr(e.1) + "\""
  }

  /** The raw-data block: `{`, the kept items one per line, `}`. */
  function RawDataText(d: Object): string {
    var entries := KeptEntries(d);
    "{\n" + Join(",\n", seq(|entries|, i requires 0 <= i < |entries| => RawDataItem(entries[i]))) + "\n}"
  }

  /** `organize`: unlike the app variant, empty input is a failure; a failed or raising call gives `{}`. */
  function Organize(raw: Object, table: seq<(string, string)>, call: Call<(string, string)>, parse: Parser): (r: Organized)
    ensures |raw| == 0 ==> r == Organized(false, Some(NoFields), EmptyObject, None)
    ensures !r.success ==> r.data == EmptyObject && r.error.Some?
    ensures r.tokensUsed.None?
    ensures r.success ==>
      var reply := call((MappingsText(table), RawDataText(raw)));
      |raw| > 0 && reply.Success? && reply.value.success && r.data == ParseResponse(reply.value.content, parse)
  {
    if |raw| == 0 then Organized(false, Some(NoFields), EmptyObject, None)
    else
      match call((MappingsText(table), RawDataText(raw)))
      case Failure(e) => Organized(false, Some(e), EmptyObject, None)
      case Success(reply) =>
        if !reply.success then Organized(false, Some(reply.error.GetOr(ApiFailed)), EmptyObject, None)
        else Organized(true, None, ParseResponse(reply.content, parse), None)
  }

  /** The two variants differ on empty input: the app succeeds with `{}`, the backend fails. */
  lemma EmptyInputVariants(call1: Call<string>, call2: Call<(string, string)>, table: seq<(string, string)>, parse: Parser)
    ensures OrganizeUnformatted([], call1, parse).success
    ensures !Organize([], table, call2, parse).success
  {
  }

  /** Entries the raw-data block leaves out do not affect the backend outcome either. */
  lemma UnkeptEntryIgnoredBackend(d: Object, k: string, v: Json, table: seq<(string, string)>, call: Call<(string, string)>, parse: Parser)
    requires |d| > 0 && !Kept(v)
    ensures Organize(d + [(k, v)], table, call, parse) == Organize(d, table, call, parse)
  {
    KeptEntriesAppend(d, [(k, v)]);
    assert KeptEntries([(k, v)]) == [];
    assert KeptEntries(d + [(k, v)]) == KeptEntries(d);
  }
}
