/**
  `app/modules/vectorize/vectorize_service.py`: the by-id vectorization
  flow. It validates the table and column names, collects the texts of
  the returned rows, splits the requested ids into found and missing, and
  builds one index action per found id. The database answer, the
  embedding service and the bulk indexer are inputs.
*/
module Vectorize {
  import opened Wrappers
  import opened Strings
  import opened JsonValue
  import Dicts

  type Vector = seq<real>

  // ---------------------------------------------------------------------
  // _validate_identifier
  // ---------------------------------------------------------------------

  predicate IdentStart(c: char) {
    ('A' <= c <= 'Z') || ('a' <= c <= 'z') || c == '_'
  }

  predicate IdentChar(c: char) {
    IdentStart(c) || ('0' <= c <= '9')
  }

  /** The whole string matches `[A-Za-z_][A-Za-z0-9_]*`. */
  predicate IsIdentifier(s: string) {
    |s| > 0 && IdentStart(s[0]) && forall i :: 1 <= i < |s| ==> IdentChar(s[i])
  }

  /** `re.fullmatch` of the identifier pattern, scanning left to right and stopping at the first character it rejects. */
  method FullMatch(s: string) returns (ok: bool)
    ensures ok <==> IsIdentifier(s)
  {
    if |s| == 0 || !IdentStart(s[0]) {
      return false;
    }
    var i := 1;
    while i < |s| && IdentChar(s[i])
      invariant 1 <= i <= |s|
      invariant forall j :: 1 <= j < i ==> IdentChar(s[j])
    {
      i := i + 1;
    }
    ok := i == |s|;
  }

  /** A name that passes validation holds none of the characters that could end or extend an SQL identifier. */
  lemma IdentifierIsInert(s: string)
    requires IsIdentifier(s)
    ensures ' ' !in s && ';' !in s && '\'' !in s && '"' !in s && '-' !in s && ',' !in s && '(' !in s
  {
    forall c | c in s ensures IdentChar(c) {
      var i :| 0 <= i < |s| && s[i] == c;
    }
  }

  datatype ConfigError =
    | InvalidName(field: string)    // ValueError "Invalid <field>: <value>"
    | NotAString(field: string)     // the TypeError `re.fullmatch` raises on a non-string
    | NoConnection                  // "db.connection_string is required"

  /** `_validate_identifier`: the name itself when it is a string matching the pattern. */
  method ValidateIdentifier(v: Json, field: string) returns (r: Result<string, ConfigError>)
    ensures r.Success? <==> v.JStr? && IsIdentifier(v.s)
    ensures r.Success? ==> r.value == v.s
    ensures !Truthy(v) ==> r == Failure(InvalidName(field))
    ensures Truthy(v) && !v.JStr? ==> r == Failure(NotAString(field))
    ensures v.JStr? && !IsIdentifier(v.s) ==> r == Failure(InvalidName(field))
  {
    if !Truthy(v) {
      return Failure(InvalidName(field));
    }
    if !v.JStr? {
      return Failure(NotAString(field));
    }
    var ok := FullMatch(v.s);
    if !ok {
      return Failure(InvalidName(field));
    }
    return Success(v.s);
  }

  // ---------------------------------------------------------------------
  // _fetch_texts_by_ids
  // ---------------------------------------------------------------------

  /** One row of the query's answer: `doc_id` and `text_value`. */
  datatype Row = Row(docId: Json, textValue: Json)

  /** `str(row.get('doc_id'))`. */
  function DocId(row: Row): string {
    PyStr(row.docId)
  }

  /** `str(text_value).strip()`. */
  function TextOf(row: Row): (r: string)
    ensures r == "" || (!IsSpace(r[0]) && !IsSpace(r[|r| - 1]))
  {
    Trim(PyStr(row.textValue))
  }

  /** A row the loop keeps: its text is not None and not blank. */
  predicate Usable(row: Row) {
    row.textValue != JNull && TextOf(row) != ""
  }

  /** The text the collected map holds for `k`: that of the last usable row with that id. */
  function LastText(rows: seq<Row>, k: string): Option<string>
  {
    if |rows| == 0 then None
    else if Usable(rows[|rows| - 1]) && DocId(rows[|rows| - 1]) == k then Some(TextOf(rows[|rows| - 1]))
    else LastText(rows[..|rows| - 1], k)
  }

  /** The loop over the rows: later rows overwrite earlier ones with the same id. */
  method CollectTexts(rows: seq<Row>) returns (texts: seq<(string, string)>)
    ensures Dicts.DistinctKeys(texts)
    ensures forall k :: Dicts.Get(texts, k) == LastText(rows, k)
  {
    texts := [];
    for i := 0 to |rows|
      invariant Dicts.DistinctKeys(texts)
      invariant forall k :: Dicts.Get(texts, k) == LastText(rows[..i], k)
    {
      assert rows[..i + 1][..i] == rows[..i];
      var row := rows[i];
      if Usable(row) {
        Dicts.PutDistinct(texts, DocId(row), TextOf(row));
        forall k | k != DocId(row)
          ensures Dicts.Get(Dicts.Put(texts, DocId(row), TextOf(row)), k) == Dicts.Get(texts, k)
        {
          Dicts.PutOther(texts, DocId(row), TextOf(row), k);
        }
        texts := Dicts.Put(texts, DocId(row), TextOf(row));
      }
    }
    assert rows[..|rows|] == rows;
  }

  /**
    `_fetch_texts_by_ids` on the database's answer `rows`: the three names
    are validated, in order, before the connection string is looked at.
    A missing `db_config` is the empty object.
  */
  method FetchTexts(db: Object, rows: seq<Row>) returns (r: Result<seq<(string, string)>, ConfigError>)
    ensures r.Success? ==> Truthy(Get(db, "connection_string"))
    ensures r.Success? ==> Dicts.DistinctKeys(r.value) && forall k :: Dicts.Get(r.value, k) == LastText(rows, k)
    ensures r.Failure? && r.error == NoConnection ==> !Truthy(Get(db, "connection_string"))
    ensures GetOr(db, "table_name", JStr("")) == JStr("") ==> r == Failure(InvalidName("table_name"))
  {
    var connection := Get(db, "connection_string");
    var table :- ValidateIdentifier(GetOr(db, "table_name", JStr("")), "table_name");
    var idColumn :- ValidateIdentifier(GetOr(db, "id_column", JStr("id")), "id_column");
    var textColumn :- ValidateIdentifier(GetOr(db, "text_column", JStr("text")), "text_column");
    if !Truthy(connection) {
      return Failure(NoConnection);
    }
    var texts := CollectTexts(rows);
    return Success(texts);
  }

  // ---------------------------------------------------------------------
  // vectorize_by_ids
  // ---------------------------------------------------------------------

  /** `[str(value) for value in ids]`. */
  function Ids(ids: seq<Json>): (r: seq<string>)
    ensures |r| == |ids| && forall i :: 0 <= i < |ids| ==> r[i] == PyStr(ids[i])
  {
    seq(|ids|, i requires 0 <= i < |ids| => PyStr(ids[i]))
  }

  /** The ids the rows give a text for. */
  function Known(rows: seq<Row>): string -> bool {
    k => LastText(rows, k).Some?
  }

  /** The requested ids with a text, in request order, repeats kept. */
  function Found(ids: seq<string>, has: string -> bool): (r: seq<string>)
    ensures forall x :: x in r <==> x in ids && has(x)
    ensures |r| <= |ids|
  {
    if |ids| == 0 then []
    else (if has(ids[0]) then [ids[0]] else []) + Found(ids[1..], has)
  }

  /** The requested ids without a text, in request order, repeats kept. */
  function Missing(ids: seq<string>, has: string -> bool): (r: seq<string>)
    ensures forall x :: x in r <==> x in ids && !has(x)
    ensures |r| <= |ids|
  {
    if |ids| == 0 then []
    else (if !has(ids[0]) then [ids[0]] else []) + Missing(ids[1..], has)
  }

  /** Every requested id, repeats included, is either found or missing, never both. */
  lemma {:induction false} FoundMissingPartition(ids: seq<string>, has: string -> bool)
    ensures |Found(ids, has)| + |Missing(ids, has)| == |ids|
    ensures multiset(Found(ids, has)) + multiset(Missing(ids, has)) == multiset(ids)
    decreases |ids|
  {
    if |ids| > 0 {
      FoundMissingPartition(ids[1..], has);
      assert ids == [ids[0]] + ids[1..];
    }
  }

  /** The split depends only on which ids have a text. */
  lemma {:induction false} SplitAgrees(ids: seq<string>, has: string -> bool, has': string -> bool)
    requires forall k :: has(k) == has'(k)
    ensures Found(ids, has) == Found(ids, has') && Missing(ids, has) == Missing(ids, has')
    decreases |ids|
  {
    if |ids| > 0 {
      SplitAgrees(ids[1..], has, has');
    }
  }

  /** What is sent to the index for one found id. */
  datatype Action = Action(index: string, id: string, text: string, hasEmbedding: bool, embedding: Option<Vector>)

  /** The summary `vectorize_by_ids` returns. */
  datatype Report = Report(success: bool, indexed: nat, failed: nat, fetched: nat,
                           missing: seq<string>, indexName: string, errors: seq<string>)

  const NoRows := "No matching rows found for provided IDs"

  /** One action per found id: its text, and its vector when the embedding service returned one at that position. */
  function Actions(index: string, found: seq<string>, texts: seq<string>, vectors: seq<Vector>): (r: seq<Action>)
    requires |texts| == |found|
    ensures |r| == |found|
    ensures forall i :: 0 <= i < |r| ==> r[i].index == index && r[i].id == found[i] && r[i].text == texts[i]
    ensures forall i :: 0 <= i < |r| ==> (r[i].hasEmbedding <==> r[i].embedding.Some?) && (r[i].hasEmbedding <==> i < |vectors|)
    ensures forall i :: 0 <= i < |r| && i < |vectors| ==> r[i].embedding == Some(vectors[i])
  {
    seq(|found|, i requires 0 <= i < |found| =>
      var vector := if i < |vectors| then Some(vectors[i]) else None;
      Action(index, found[i], texts[i], vector.Some?, vector))
  }

  /** The ids the collected map holds. */
  function InMap(texts: seq<(string, string)>): string -> bool {
    k => k in Dicts.Keys(texts)
  }

  /** The part of `vectorize_by_ids` after the fetch, over the stringified ids and the collected texts. */
  function Assemble(ids: seq<string>, texts: seq<(string, string)>, index: string,
                    embed: seq<string> -> seq<Vector>, bulk: seq<Action> -> (nat, nat)): (r: (Report, seq<Action>))
    ensures var (report, actions) := r;
      var found := Found(ids, InMap(texts));
      report.missing == Missing(ids, InMap(texts)) && report.indexName == index &&
      report.fetched == |found| == |actions| &&
      forall i :: 0 <= i < |actions| ==> actions[i].id == found[i] && Dicts.Get(texts, found[i]) == Some(actions[i].text)
    ensures var (report, actions) := r;
      (report.success <==> actions != [] && report.failed == 0) &&
      (actions == [] ==> report == Report(false, 0, 0, 0, report.missing, index, [NoRows])) &&
      (actions != [] ==> (report.indexed, report.failed) == bulk(actions) && report.errors == [])
  {
    var found := Found(ids, InMap(texts));
    var missing := Missing(ids, InMap(texts));
    if found == [] then (Report(false, 0, 0, 0, missing, index, [NoRows]), [])
    else
      var foundTexts := seq(|found|, i requires 0 <= i < |found| => Dicts.Get(texts, found[i]).GetOr(""));
      assert forall i :: 0 <= i < |found| ==> Dicts.Get(texts, found[i]) == Some(foundTexts[i]) by {
        forall i | 0 <= i < |found| ensures Dicts.Get(texts, found[i]) == Some(foundTexts[i]) {
          assert found[i] in found && InMap(texts)(found[i]);
        }
      }
      var actions := Actions(index, found, foundTexts, embed(foundTexts));
      var (indexed, failed) := bulk(actions);
      (Report(failed == 0, indexed, failed, |found|, missing, index, []), actions)
  }

  /**
    `vectorize_by_ids`: `ids` are the requested ids, `db` the database
    settings, `rows` the database's answer, `index` the target index,
    `embed` the embedding service and `bulk` the indexer's
    `(indexed, failed)` counts for the actions.
  */
  method VectorizeByIds(ids: seq<Json>, db: Object, rows: seq<Row>, index: string,
                        embed: seq<string> -> seq<Vector>, bulk: seq<Action> -> (nat, nat))
    returns (r: Result<(Report, seq<Action>), ConfigError>)
    ensures r.Success? ==> Truthy(Get(db, "connection_string"))
    ensures r.Success? ==> var (report, actions) := r.value;
      var found := Found(Ids(ids), Known(rows));
      report.missing == Missing(Ids(ids), Known(rows)) && report.indexName == index &&
      report.fetched == |found| == |actions| &&
      forall i :: 0 <= i < |actions| ==> actions[i].id == found[i] && LastText(rows, found[i]) == Some(actions[i].text)
    ensures r.Success? ==> var (report, actions) := r.value;
      (report.success <==> actions != [] && report.failed == 0) &&
      (actions == [] ==> report == Report(false, 0, 0, 0, report.missing, index, [NoRows])) &&
      (actions != [] ==> (report.indexed, report.failed) == bulk(actions) && report.errors == [])
  {
    var texts :- FetchTexts(db, rows);
    forall k ensures InMap(texts)(k) == Known(rows)(k) {
      assert Dicts.Get(texts, k) == LastText(rows, k);
    }
    SplitAgrees(Ids(ids), InMap(texts), Known(rows));
    return Success(Assemble(Ids(ids), texts, index, embed, bulk));
  }
}
