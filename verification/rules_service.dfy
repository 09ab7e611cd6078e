/**
  `app/services/rules/rules_service.py`: the `validation_rules` table and the
  operations on it. The table is a map from id to row plus the identity
  counter that numbers inserted rows; every operation returns the table it
  leaves behind with its result, and a bulk operation that raises leaves the
  table it was given (the transaction rolls back).
*/
module RulesService {
  import opened Wrappers
  import opened Strings
  import opened JsonValue
  import opened RulesNormalization

  datatype Row = Row(certificateType: string, productName: string, isActive: bool)

  /** The payload every operation returns for a rule (`build_rule_response`). */
  datatype Rule = Rule(id: int, certificateType: string, productName: string, isActive: bool)

  datatype Table = Table(rows: map<int, Row>, nextId: int)

  function Response(id: int, row: Row): Rule {
    Rule(id, row.certificateType, row.productName, row.isActive)
  }

  function RowOf(d: Draft): Row {
    Row(d.certificateType, d.productName, d.isActive)
  }

  function RowKey(row: Row): (string, string) {
    PairKey(row.certificateType, row.productName)
  }

  /** The identity column: ids are positive and below the next id it hands out. */
  predicate Fresh(t: Table) {
    t.nextId >= 1 && forall id :: id in t.rows ==> 1 <= id < t.nextId
  }

  /** No two rows share a case-insensitive (certificate type, product name) pair. */
  predicate UniquePairs(rows: map<int, Row>) {
    forall a, b :: a in rows && b in rows && a != b ==> RowKey(rows[a]) != RowKey(rows[b])
  }

  predicate Valid(t: Table) {
    Fresh(t) && UniquePairs(t.rows)
  }

  /** The duplicate query: a row, other than `except`, with the same lower-cased pair. */
  predicate Clash(rows: map<int, Row>, key: (string, string), except: Option<int>) {
    exists id :: id in rows && Some(id) != except && RowKey(rows[id]) == key
  }

  // ---------------------------------------------------------------------
  // get_rule / list_rules
  // ---------------------------------------------------------------------

  /** `get_rule(rule_id)`. */
  function GetRule(t: Table, id: int): (r: Result<Rule, RuleError>)
    ensures r.Success? <==> id in t.rows
    ensures r.Success? ==> r.value.id == id && RowOf(Draft(None, r.value.certificateType, r.value.productName, r.value.isActive)) == t.rows[id]
    ensures r.Failure? ==> r.error == RuleNotFound
  {
    if id in t.rows then Success(Response(id, t.rows[id])) else Failure(RuleNotFound)
  }

  lemma {:induction false} MaxWitness(s: set<int>) returns (m: int)
    requires s != {}
    ensures m in s && forall x :: x in s ==> x <= m
    decreases |s|
  {
    if forall y :: y !in s {
      assert false;
    }
    var x :| x in s;
    if s == {x} {
      m := x;
    } else {
      var rest := s - {x};
      var top := MaxWitness(rest);
      m := if x <= top then top else x;
      forall y | y in s ensures y <= m {
        if y != x {
          assert y in rest;
        }
      }
    }
  }

  function MaxOf(s: set<int>): (m: int)
    requires s != {}
    ensures m in s && forall x :: x in s ==> x <= m
  {
    assert exists m :: m in s && forall x :: x in s ==> x <= m by {
      var m := MaxWitness(s);
    }
    var m :| m in s && forall x :: x in s ==> x <= m;
    m
  }

  /** The elements of `s`, largest first: `ORDER BY id DESC`. */
  function Descending(s: set<int>): (r: seq<int>)
    ensures |r| == |s|
    ensures forall i, j :: 0 <= i < j < |r| ==> r[i] > r[j]
    ensures forall x :: x in r <==> x in s
    decreases |s|
  {
    if s == {} then []
    else
      var m := MaxOf(s);
      var rest := Descending(s - {m});
      assert forall i :: 0 <= i < |rest| ==> rest[i] in s - {m};
      [m] + rest
  }

  /** Each id's rule, in the order of `ids`. */
  function Responses(ids: seq<int>, rows: map<int, Row>): (r: seq<Rule>)
    requires forall x :: x in ids ==> x in rows
    ensures |r| == |ids| && forall i :: 0 <= i < |ids| ==> r[i] == Response(ids[i], rows[ids[i]])
    ensures forall x :: x in ids ==> Response(x, rows[x]) in r
  {
    if |ids| == 0 then []
    else [Response(ids[0], rows[ids[0]])] + Responses(ids[1..], rows)
  }

  /** `list_rules()`: every rule exactly once, latest id first. */
  function ListRules(t: Table): (r: seq<Rule>)
    ensures |r| == |t.rows|
    ensures forall i :: 0 <= i < |r| ==> r[i].id in t.rows && r[i] == Response(r[i].id, t.rows[r[i].id])
    ensures forall i, j :: 0 <= i < j < |r| ==> r[i].id > r[j].id
    ensures forall id :: id in t.rows ==> Response(id, t.rows[id]) in r
  {
    Responses(Descending(t.rows.Keys), t.rows)
  }


  // ---------------------------------------------------------------------
  // create_rule / update_rule / delete_rule
  // ---------------------------------------------------------------------

  /** The INSERT: the row gets the next identity value. */
  function Insert(t: Table, row: Row): (t': Table)
    ensures t'.rows.Keys == t.rows.Keys + {t.nextId} && t'.rows[t.nextId] == row && t'.nextId == t.nextId + 1
    ensures forall k :: k in t.rows && k != t.nextId ==> t'.rows[k] == t.rows[k]
    ensures Fresh(t) ==> Fresh(t') && t.nextId !in t.rows
    ensures UniquePairs(t.rows) && !Clash(t.rows, RowKey(row), None) ==> UniquePairs(t'.rows)
  {
    Table(t.rows[t.nextId := row], t.nextId + 1)
  }

  /** The UPDATE of one existing row. */
  function Overwrite(t: Table, id: int, row: Row): (t': Table)
    requires id in t.rows
    ensures t'.rows.Keys == t.rows.Keys && t'.rows[id] == row && t'.nextId == t.nextId
    ensures forall k :: k in t.rows && k != id ==> t'.rows[k] == t.rows[k]
    ensures Fresh(t) ==> Fresh(t')
    ensures UniquePairs(t.rows) && !Clash(t.rows, RowKey(row), Some(id)) ==> UniquePairs(t'.rows)
  {
    Table(t.rows[id := row], t.nextId)
  }

  /**
    `create_rule` once its fields are normalized into `f`: the duplicate
    query, then the INSERT.
  */
  function Create(t: Table, f: Result<Draft, RuleError>): (r: (Table, Result<Rule, RuleError>))
    ensures r.1.Failure? ==> r.0 == t
    ensures f.Failure? ==> r.1 == Failure(f.error)
    ensures f.Success? ==> (r.1.Failure? <==> Clash(t.rows, DraftKey(f.value), None))
    ensures f.Success? && r.1.Failure? ==> r.1.error == AlreadyExists
    ensures r.1.Success? ==>
      r.1.value == Response(t.nextId, RowOf(f.value)) &&
      r.0.rows.Keys == t.rows.Keys + {t.nextId} && r.0.rows[t.nextId] == RowOf(f.value) &&
      (forall k :: k in t.rows && k != t.nextId ==> r.0.rows[k] == t.rows[k])
    ensures Valid(t) ==> Valid(r.0)
  {
    if f.Failure? then (t, Failure(f.error))
    else if Clash(t.rows, DraftKey(f.value), None) then (t, Failure(AlreadyExists))
    else (Insert(t, RowOf(f.value)), Success(Response(t.nextId, RowOf(f.value))))
  }

  /** `create_rule(certificate_type, product_name, is_active)`. */
  function CreateRule(t: Table, certificateType: string, productName: string, isActive: bool): (r: (Table, Result<Rule, RuleError>))
    ensures IsBlank(certificateType) ==> r == (t, Failure(MissingCertificateType))
    ensures !IsBlank(certificateType) && IsBlank(productName) ==> r == (t, Failure(MissingProductName))
    ensures !IsBlank(certificateType) && !IsBlank(productName) ==>
      r == Create(t, Success(Draft(None, Trim(certificateType), Trim(productName), isActive)))
  {
    Create(t, NormalizeRuleFields(certificateType, productName, isActive))
  }

  /** A created rule can be read back as it was returned, and it is new. */
  lemma CreateThenGet(t: Table, f: Result<Draft, RuleError>)
    requires Fresh(t)
    requires Create(t, f).1.Success?
    ensures var (t', r) := Create(t, f);
      r.value.id !in t.rows && GetRule(t', r.value.id) == Success(r.value)
  {
  }

  /** Deleting a rule just created gives back the rows from before, and the rule. */
  lemma CreateThenDelete(t: Table, f: Result<Draft, RuleError>)
    requires Fresh(t)
    requires Create(t, f).1.Success?
    ensures var (t', r) := Create(t, f);
      DeleteRule(t', r.value.id) == (Table(t.rows, t.nextId + 1), Success(r.value))
  {
    var (t', r) := Create(t, f);
    assert t'.rows - {t.nextId} == t.rows;
  }

  /**
    `update_rule` once its fields are normalized into `f`: the existence
    query, the duplicate query excluding the rule itself, then the UPDATE.
  */
  function Update(t: Table, id: int, f: Result<Draft, RuleError>): (r: (Table, Result<Rule, RuleError>))
    ensures r.1.Failure? ==> r.0 == t
    ensures f.Failure? ==> r.1 == Failure(f.error)
    ensures f.Success? && id !in t.rows ==> r.1 == Failure(RuleNotFound)
    ensures f.Success? && id in t.rows ==> (r.1.Failure? <==> Clash(t.rows, DraftKey(f.value), Some(id)))
    ensures f.Success? && id in t.rows && r.1.Failure? ==> r.1.error == AlreadyExists
    ensures r.1.Success? ==>
      id in t.rows && r.1.value == Response(id, RowOf(f.value)) &&
      r.0.rows.Keys == t.rows.Keys && r.0.rows[id] == RowOf(f.value) && r.0.nextId == t.nextId &&
      (forall k :: k in t.rows && k != id ==> r.0.rows[k] == t.rows[k])
    ensures Valid(t) ==> Valid(r.0)
  {
    if f.Failure? then (t, Failure(f.error))
    else if id !in t.rows then (t, Failure(RuleNotFound))
    else if Clash(t.rows, DraftKey(f.value), Some(id)) then (t, Failure(AlreadyExists))
    else (Overwrite(t, id, RowOf(f.value)), Success(Response(id, RowOf(f.value))))
  }

  /** `update_rule(rule_id, certificate_type, product_name, is_active)`. */
  function UpdateRule(t: Table, id: int, certificateType: string, productName: string, isActive: bool): (r: (Table, Result<Rule, RuleError>))
    ensures IsBlank(certificateType) ==> r == (t, Failure(MissingCertificateType))
    ensures !IsBlank(certificateType) && IsBlank(productName) ==> r == (t, Failure(MissingProductName))
    ensures !IsBlank(certificateType) && !IsBlank(productName) ==>
      r == Update(t, id, Success(Draft(None, Trim(certificateType), Trim(productName), isActive)))
  {
    Update(t, id, NormalizeRuleFields(certificateType, productName, isActive))
  }

  /** Updating a rule of a valid table to its own current fields keeps the table as it was. */
  lemma UpdateUnchanged(t: Table, id: int)
    requires Valid(t) && id in t.rows
    ensures var row := t.rows[id];
      Update(t, id, Success(Draft(None, row.certificateType, row.productName, row.isActive))) == (t, Success(Response(id, row)))
  {
    var row := t.rows[id];
    assert !Clash(t.rows, RowKey(row), Some(id));
    assert t.rows[id := row] == t.rows;
  }

  /** `delete_rule(rule_id)`: the row goes and its former contents come back. */
  function DeleteRule(t: Table, id: int): (r: (Table, Result<Rule, RuleError>))
    ensures r.1.Failure? ==> r.0 == t && r.1.error == RuleNotFound
    ensures r.1.Success? <==> id in t.rows
    ensures r.1.Success? ==>
      r.1.value == Response(id, t.rows[id]) && r.0.rows.Keys == t.rows.Keys - {id} && r.0.nextId == t.nextId &&
      forall k :: k in r.0.rows ==> r.0.rows[k] == t.rows[k]
    ensures Valid(t) ==> Valid(r.0)
  {
    if id !in t.rows then (t, Failure(RuleNotFound))
    else (Table(t.rows - {id}, t.nextId), Success(Response(id, t.rows[id])))
  }

  /** A deleted rule is gone. */
  lemma DeleteThenGet(t: Table, id: int)
    ensures GetRule(DeleteRule(t, id).0, id) == Failure(RuleNotFound)
  {
  }

  // ---------------------------------------------------------------------
  // delete_rules_bulk
  // ---------------------------------------------------------------------

  /** `missing_ids`: the requested ids with no row, in request order. */
  function Missing(ids: seq<int>, rows: map<int, Row>): (m: seq<int>)
    ensures forall x :: x in m <==> x in ids && x !in rows
  {
    if |ids| == 0 then []
    else (if ids[0] in rows then [] else [ids[0]]) + Missing(ids[1..], rows)
  }

  /** `delete_rules_bulk(rule_ids)`: all listed rules go, or none. */
  function DeleteRulesBulk(t: Table, ids: seq<int>): (r: (Table, Result<seq<Rule>, RuleError>))
    ensures r.1.Failure? ==> r.0 == t
    ensures NormalizeRuleIds(ids).Failure? ==> r.1 == Failure(NormalizeRuleIds(ids).error)
    ensures NormalizeRuleIds(ids).Success? && Missing(ids, t.rows) != [] ==> r.1 == Failure(RulesNotFound(Missing(ids, t.rows)))
    ensures r.1.Success? <==> NormalizeRuleIds(ids).Success? && forall x :: x in ids ==> x in t.rows
    ensures r.1.Success? ==>
      r.0.rows.Keys == t.rows.Keys - (set x | x in ids) &&
      (forall k :: k in r.0.rows ==> r.0.rows[k] == t.rows[k]) && r.0.nextId == t.nextId
    ensures r.1.Success? ==>
      |r.1.value| == |ids| && forall i :: 0 <= i < |ids| ==> ids[i] in t.rows && r.1.value[i] == Response(ids[i], t.rows[ids[i]])
    ensures Valid(t) ==> Valid(r.0)
  {
    var n := NormalizeRuleIds(ids);
    if n.Failure? then (t, Failure(n.error))
    else
      var missing := Missing(ids, t.rows);
      if missing != [] then
        var x := missing[0];
        assert x in missing;
        assert x in ids && x !in t.rows;
        (t, Failure(RulesNotFound(missing)))
      else
        assert forall x :: x in ids ==> x !in missing;
        (Table(t.rows - (set x | x in ids), t.nextId), Success(Responses(ids, t.rows)))
  }

  // ---------------------------------------------------------------------
  // create_rules_bulk
  // ---------------------------------------------------------------------

  /** The insert loop inside the transaction: a duplicate check, then an insert, per rule. */
  function InsertAll(t: Table, ds: seq<Draft>): (r: Result<(Table, seq<Rule>), RuleError>)
    ensures r.Success? ==> |r.value.1| == |ds|
    decreases |ds|
  {
    if |ds| == 0 then Success((t, []))
    else if Clash(t.rows, DraftKey(ds[0]), None) then Failure(AlreadyExists)
    else
      var rest :- InsertAll(Insert(t, RowOf(ds[0])), ds[1..]);
      Success((rest.0, [Response(t.nextId, RowOf(ds[0]))] + rest.1))
  }

  /** The insert loop keeps the identity column and the uniqueness of pairs, and fails only on a duplicate. */
  lemma {:induction false} InsertAllKeeps(t: Table, ds: seq<Draft>)
    ensures InsertAll(t, ds).Success? && Fresh(t) ==> Fresh(InsertAll(t, ds).value.0)
    ensures InsertAll(t, ds).Success? && UniquePairs(t.rows) ==> UniquePairs(InsertAll(t, ds).value.0.rows)
    ensures InsertAll(t, ds).Failure? ==> InsertAll(t, ds).error == AlreadyExists
    decreases |ds|
  {
    if |ds| > 0 && !Clash(t.rows, DraftKey(ds[0]), None) {
      InsertAllKeeps(Insert(t, RowOf(ds[0])), ds[1..]);
    }
  }

  /** On success the loop returned one rule per draft, in order, numbered from the identity counter on. */
  lemma {:induction false} InsertAllResults(t: Table, ds: seq<Draft>)
    requires InsertAll(t, ds).Success?
    ensures var (t', rs) := InsertAll(t, ds).value;
      t'.nextId == t.nextId + |ds| && |rs| == |ds| &&
      forall i :: 0 <= i < |ds| ==> rs[i] == Response(t.nextId + i, RowOf(ds[i]))
    decreases |ds|
  {
    if |ds| > 0 {
      var t1 := Insert(t, RowOf(ds[0]));
      InsertAllResults(t1, ds[1..]);
      var rs := InsertAll(t, ds).value.1;
      assert rs[1..] == InsertAll(t1, ds[1..]).value.1;
      forall i | 1 <= i < |ds| ensures rs[i] == Response(t.nextId + i, RowOf(ds[i])) {
        assert ds[i] == ds[1..][i - 1];
        assert rs[i] == rs[1..][i - 1];
      }
    }
  }

  /** On success the loop added exactly one row per draft, at the ids it handed out, and kept every other row. */
  lemma {:induction false} InsertAllRows(t: Table, ds: seq<Draft>)
    requires Fresh(t)
    requires InsertAll(t, ds).Success?
    ensures var t' := InsertAll(t, ds).value.0;
      (forall i :: 0 <= i < |ds| ==> t.nextId + i in t'.rows && t'.rows[t.nextId + i] == RowOf(ds[i])) &&
      (forall k :: k in t'.rows <==> k in t.rows || t.nextId <= k < t.nextId + |ds|) &&
      (forall k :: k in t.rows ==> t'.rows[k] == t.rows[k])
  {
    forall i | 0 <= i < |ds| ensures t.nextId + i in InsertAll(t, ds).value.0.rows && InsertAll(t, ds).value.0.rows[t.nextId + i] == RowOf(ds[i]) {
      InsertAllAt(t, ds, i);
    }
    InsertAllKeys(t, ds);
    InsertAllOld(t, ds);
  }

  /** The `i`-th draft is stored at the `i`-th id handed out. */
  lemma {:induction false} InsertAllAt(t: Table, ds: seq<Draft>, i: int)
    requires InsertAll(t, ds).Success? && 0 <= i < |ds|
    ensures t.nextId + i in InsertAll(t, ds).value.0.rows && InsertAll(t, ds).value.0.rows[t.nextId + i] == RowOf(ds[i])
    decreases |ds|
  {
    var t1 := Insert(t, RowOf(ds[0]));
    var rest := ds[1..];
    assert InsertAll(t1, rest).Success? && InsertAll(t, ds).value.0 == InsertAll(t1, rest).value.0;
    if i == 0 {
      InsertAllOld(t1, rest);
      assert t.nextId in t1.rows && t.nextId < t1.nextId;
    } else {
      InsertAllAt(t1, rest, i - 1);
      assert ds[i] == rest[i - 1] && t.nextId + i == t1.nextId + (i - 1);
    }
  }

  /** The ids of the new table are the old ones and the ones handed out. */
  lemma {:induction false} InsertAllKeys(t: Table, ds: seq<Draft>)
    requires InsertAll(t, ds).Success?
    ensures forall k :: k in InsertAll(t, ds).value.0.rows <==> k in t.rows || t.nextId <= k < t.nextId + |ds|
    decreases |ds|
  {
    if |ds| > 0 {
      var t1 := Insert(t, RowOf(ds[0]));
      assert InsertAll(t1, ds[1..]).Success? && InsertAll(t, ds).value.0 == InsertAll(t1, ds[1..]).value.0;
      InsertAllKeys(t1, ds[1..]);
    }
  }

  /** Rows present before the loop are kept as they were. */
  lemma {:induction false} InsertAllOld(t: Table, ds: seq<Draft>)
    requires InsertAll(t, ds).Success?
    ensures forall k :: k in t.rows && k < t.nextId ==> k in InsertAll(t, ds).value.0.rows && InsertAll(t, ds).value.0.rows[k] == t.rows[k]
    decreases |ds|
  {
    if |ds| > 0 {
      var t1 := Insert(t, RowOf(ds[0]));
      assert InsertAll(t1, ds[1..]).Success? && InsertAll(t, ds).value.0 == InsertAll(t1, ds[1..]).value.0;
      InsertAllOld(t1, ds[1..]);
    }
  }

  /** Given pairwise distinct pairs, the insert loop succeeds iff no draft's pair is already in the table. */
  lemma {:induction false} InsertAllSucceeds(t: Table, ds: seq<Draft>)
    requires Fresh(t)
    requires forall i, j :: 0 <= i < j < |ds| ==> DraftKey(ds[i]) != DraftKey(ds[j])
    ensures InsertAll(t, ds).Success? <==> forall i :: 0 <= i < |ds| ==> !Clash(t.rows, DraftKey(ds[i]), None)
    decreases |ds|
  {
    if |ds| > 0 {
      var t1 := Insert(t, RowOf(ds[0]));
      var rest := ds[1..];
      assert forall i :: 0 <= i < |rest| ==> rest[i] == ds[i + 1];
      InsertAllSucceeds(t1, rest);
      forall i | 0 <= i < |rest|
        ensures Clash(t1.rows, DraftKey(rest[i]), None) <==> Clash(t.rows, DraftKey(rest[i]), None)
      {
        assert DraftKey(rest[i]) != RowKey(RowOf(ds[0]));
        InsertClash(t, RowOf(ds[0]), DraftKey(rest[i]));
      }
      InsertAllStep(t, ds);
      assert (forall i :: 0 <= i < |ds| ==> !Clash(t.rows, DraftKey(ds[i]), None)) <==>
        !Clash(t.rows, DraftKey(ds[0]), None) && forall i :: 0 <= i < |rest| ==> !Clash(t.rows, DraftKey(rest[i]), None);
    }
  }

  /** The insert loop succeeds iff its first draft does not clash and the rest of the loop succeeds. */
  lemma InsertAllStep(t: Table, ds: seq<Draft>)
    requires |ds| > 0
    ensures InsertAll(t, ds).Success? <==>
      !Clash(t.rows, DraftKey(ds[0]), None) && InsertAll(Insert(t, RowOf(ds[0])), ds[1..]).Success?
  {
  }

  /** Inserting a row adds no clash for any other pair. */
  lemma InsertClash(t: Table, row: Row, key: (string, string))
    requires Fresh(t) && key != RowKey(row)
    ensures Clash(Insert(t, row).rows, key, None) <==> Clash(t.rows, key, None)
  {
    var t1 := Insert(t, row);
    if Clash(t1.rows, key, None) {
      var id :| id in t1.rows && RowKey(t1.rows[id]) == key;
      assert id != t.nextId;
    }
    if Clash(t.rows, key, None) {
      var id :| id in t.rows && RowKey(t.rows[id]) == key;
      assert t1.rows[id] == t.rows[id];
    }
  }

  /** `create_rules_bulk` once the payload is normalized into `n`: every rule is created, or none. */
  function CreateBatch(t: Table, n: Result<seq<Draft>, RuleError>): (r: (Table, Result<seq<Rule>, RuleError>))
    ensures r.1.Failure? ==> r.0 == t
    ensures n.Failure? ==> r.1 == Failure(n.error)
    ensures n.Success? && r.1.Failure? ==> r.1.error == AlreadyExists
    ensures Valid(t) ==> Valid(r.0)
  {
    if n.Failure? then (t, Failure(n.error))
    else
      InsertAllKeeps(t, n.value);
      match InsertAll(t, n.value)
      case Failure(e) => (t, Failure(e))
      case Success(p) => (p.0, Success(p.1))
  }

  /**
    A batch of drafts with distinct pairs is created iff none of its pairs
    is already in the table; the rules come back in order, numbered from the
    identity counter on, and every earlier row is kept.
  */
  lemma CreateBatchSpec(t: Table, ds: seq<Draft>)
    requires Fresh(t)
    requires forall i, j :: 0 <= i < j < |ds| ==> DraftKey(ds[i]) != DraftKey(ds[j])
    ensures CreateBatch(t, Success(ds)).1.Success? <==> forall i :: 0 <= i < |ds| ==> !Clash(t.rows, DraftKey(ds[i]), None)
    ensures var (t', r) := CreateBatch(t, Success(ds));
      r.Success? ==>
        |r.value| == |ds| &&
        (forall i :: 0 <= i < |ds| ==>
          r.value[i] == Response(t.nextId + i, RowOf(ds[i])) && r.value[i].id !in t.rows &&
          r.value[i].id in t'.rows && t'.rows[r.value[i].id] == RowOf(ds[i])) &&
        (forall k :: k in t.rows ==> k in t'.rows && t'.rows[k] == t.rows[k])
  {
    InsertAllSucceeds(t, ds);
    if InsertAll(t, ds).Success? {
      InsertAllResults(t, ds);
      InsertAllRows(t, ds);
    }
  }

  /** `create_rules_bulk(rules)`. */
  function CreateRulesBulk(t: Table, rules: seq<Object>): (r: (Table, Result<seq<Rule>, RuleError>))
    ensures r.1.Failure? ==> r.0 == t
    ensures NormalizeBulkCreate(rules).Failure? ==> r.1 == Failure(NormalizeBulkCreate(rules).error)
    ensures NormalizeBulkCreate(rules).Success? && r.1.Failure? ==> r.1.error == AlreadyExists
    ensures Valid(t) ==> Valid(r.0)
  {
    CreateBatch(t, NormalizeBulkCreate(rules))
  }

  /** Over a valid payload, bulk creation succeeds iff none of its pairs is already in the table. */
  lemma CreateRulesBulkSucceeds(t: Table, rules: seq<Object>)
    requires Fresh(t)
    requires NormalizeBulkCreate(rules).Success?
    ensures var ds := NormalizeBulkCreate(rules).value;
      CreateRulesBulk(t, rules).1.Success? <==> forall i :: 0 <= i < |ds| ==> !Clash(t.rows, DraftKey(ds[i]), None)
  {
    CreateBatchSpec(t, NormalizeBulkCreate(rules).value);
  }

  // ---------------------------------------------------------------------
  // update_rules_bulk
  // ---------------------------------------------------------------------

  predicate HasIds(ds: seq<Draft>) {
    forall i :: 0 <= i < |ds| ==> ds[i].id.Some?
  }

  function DraftIds(ds: seq<Draft>): (ids: seq<int>)
    requires HasIds(ds)
    ensures |ids| == |ds| && forall i :: 0 <= i < |ds| ==> ids[i] == ds[i].id.value
  {
    if |ds| == 0 then [] else [ds[0].id.value] + DraftIds(ds[1..])
  }

  /** The update loop inside the transaction: a duplicate check excluding the rule itself, then the UPDATE. */
  function UpdateAll(t: Table, ds: seq<Draft>): (r: Result<(Table, seq<Rule>), RuleError>)
    requires forall i :: 0 <= i < |ds| ==> ds[i].id.Some? && ds[i].id.value in t.rows
    ensures r.Success? ==> |r.value.1| == |ds|
    decreases |ds|
  {
    if |ds| == 0 then Success((t, []))
    else
      var id := ds[0].id.value;
      if Clash(t.rows, DraftKey(ds[0]), Some(id)) then Failure(AlreadyExists)
      else
        var rest :- UpdateAll(Overwrite(t, id, RowOf(ds[0])), ds[1..]);
        Success((rest.0, [Response(id, RowOf(ds[0]))] + rest.1))
  }

  /** The update loop keeps the ids, the counter and the uniqueness of pairs, and fails only on a duplicate. */
  lemma {:induction false} UpdateAllKeeps(t: Table, ds: seq<Draft>)
    requires forall i :: 0 <= i < |ds| ==> ds[i].id.Some? && ds[i].id.value in t.rows
    ensures UpdateAll(t, ds).Success? ==>
      UpdateAll(t, ds).value.0.rows.Keys == t.rows.Keys && UpdateAll(t, ds).value.0.nextId == t.nextId
    ensures UpdateAll(t, ds).Success? && UniquePairs(t.rows) ==> UniquePairs(UpdateAll(t, ds).value.0.rows)
    ensures UpdateAll(t, ds).Failure? ==> UpdateAll(t, ds).error == AlreadyExists
    decreases |ds|
  {
    if |ds| > 0 {
      var id := ds[0].id.value;
      if !Clash(t.rows, DraftKey(ds[0]), Some(id)) {
        UpdateAllKeeps(Overwrite(t, id, RowOf(ds[0])), ds[1..]);
      }
    }
  }

  /**
    With distinct ids, a successful update loop gives every listed rule its
    draft's fields, returns them in request order and leaves every other row alone.
  */
  lemma {:induction false} UpdateAllSpec(t: Table, ds: seq<Draft>)
    requires forall i :: 0 <= i < |ds| ==> ds[i].id.Some? && ds[i].id.value in t.rows
    requires forall i, j :: 0 <= i < j < |ds| ==> ds[i].id.value != ds[j].id.value
    requires UpdateAll(t, ds).Success?
    ensures var (t', rs) := UpdateAll(t, ds).value;
      |rs| == |ds| &&
      (forall i :: 0 <= i < |ds| ==> rs[i] == Response(ds[i].id.value, RowOf(ds[i]))) &&
      (forall i :: 0 <= i < |ds| ==> ds[i].id.value in t'.rows && t'.rows[ds[i].id.value] == RowOf(ds[i])) &&
      (forall k :: k in t.rows && (forall i :: 0 <= i < |ds| ==> ds[i].id.value != k) ==> k in t'.rows && t'.rows[k] == t.rows[k])
  {
    UpdateAllResponses(t, ds);
    UpdateAllRows(t, ds);
  }

  /** A successful update loop answers every draft, in order, with its id and new fields. */
  lemma {:induction false} UpdateAllResponses(t: Table, ds: seq<Draft>)
    requires forall i :: 0 <= i < |ds| ==> ds[i].id.Some? && ds[i].id.value in t.rows
    requires UpdateAll(t, ds).Success?
    ensures var rs := UpdateAll(t, ds).value.1;
      |rs| == |ds| && forall i :: 0 <= i < |ds| ==> rs[i] == Response(ds[i].id.value, RowOf(ds[i]))
    decreases |ds|
  {
    if |ds| > 0 {
      var id := ds[0].id.value;
      var t1 := Overwrite(t, id, RowOf(ds[0]));
      var rest := ds[1..];
      assert forall i :: 0 <= i < |rest| ==> rest[i] == ds[i + 1];
      assert forall i :: 0 <= i < |rest| ==> rest[i].id.Some? && rest[i].id.value in t1.rows;
      UpdateAllResponses(t1, rest);
      var rs := UpdateAll(t, ds).value.1;
      var rs1 := UpdateAll(t1, rest).value.1;
      assert UpdateAll(t, ds) == Success((UpdateAll(t1, rest).value.0, [Response(id, RowOf(ds[0]))] + rs1));
      forall i | 1 <= i < |ds|
        ensures rs[i] == Response(ds[i].id.value, RowOf(ds[i]))
      {
        assert rs[i] == rs1[i - 1];
      }
    }
  }

  /** With distinct ids, a successful update loop writes every listed row and leaves the others alone. */
  lemma {:induction false} UpdateAllRows(t: Table, ds: seq<Draft>)
    requires forall i :: 0 <= i < |ds| ==> ds[i].id.Some? && ds[i].id.value in t.rows
    requires forall i, j :: 0 <= i < j < |ds| ==> ds[i].id.value != ds[j].id.value
    requires UpdateAll(t, ds).Success?
    ensures var t' := UpdateAll(t, ds).value.0;
      (forall i :: 0 <= i < |ds| ==> ds[i].id.value in t'.rows && t'.rows[ds[i].id.value] == RowOf(ds[i])) &&
      (forall k :: k in t.rows && (forall i :: 0 <= i < |ds| ==> ds[i].id.value != k) ==> k in t'.rows && t'.rows[k] == t.rows[k])
    decreases |ds|
  {
    if |ds| > 0 {
      var id := ds[0].id.value;
      var t1 := Overwrite(t, id, RowOf(ds[0]));
      var rest := ds[1..];
      assert forall i :: 0 <= i < |rest| ==> rest[i] == ds[i + 1];
      UpdateAllRows(t1, rest);
      var t' := UpdateAll(t, ds).value.0;
      assert t' == UpdateAll(t1, rest).value.0;
      forall i | 0 <= i < |ds|
        ensures ds[i].id.value in t'.rows && t'.rows[ds[i].id.value] == RowOf(ds[i])
      {
        if i == 0 {
          assert forall j :: 0 <= j < |rest| ==> rest[j].id.value != id;
        } else {
          assert ds[i] == rest[i - 1];
        }
      }
      forall k | k in t.rows && (forall i :: 0 <= i < |ds| ==> ds[i].id.value != k)
        ensures k in t'.rows && t'.rows[k] == t.rows[k]
      {
        assert forall j :: 0 <= j < |rest| ==> rest[j].id.value != k;
        assert k != id && t1.rows[k] == t.rows[k];
      }
    }
  }

  /**
    The duplicate check sees the updates made earlier in the same batch, and
    only those: a batch whose first rule takes the pair another listed rule
    still holds is rejected, even though that rule was about to give it up.
  */
  lemma UpdateAllSwapRejected(t: Table, first: Draft, second: Draft)
    requires first.id.Some? && second.id.Some? && first.id.value in t.rows && second.id.value in t.rows
    requires first.id != second.id
    requires DraftKey(first) == RowKey(t.rows[second.id.value])
    ensures UpdateAll(t, [first, second]) == Failure(AlreadyExists)
  {
    var other := second.id.value;
    assert other in t.rows && Some(other) != first.id && RowKey(t.rows[other]) == DraftKey(first);
  }

  /**
    `update_rules_bulk` once the payload is normalized into `n`: the ids
    are looked up first, then every rule is updated, or none.
  */
  function UpdateBatch(t: Table, n: Result<seq<Draft>, RuleError>): (r: (Table, Result<seq<Rule>, RuleError>))
    requires n.Success? ==> HasIds(n.value)
    ensures r.1.Failure? ==> r.0 == t
    ensures n.Failure? ==> r.1 == Failure(n.error)
    ensures n.Success? && Missing(DraftIds(n.value), t.rows) != [] ==>
      r.1 == Failure(RulesNotFound(Missing(DraftIds(n.value), t.rows)))
    ensures n.Success? && Missing(DraftIds(n.value), t.rows) == [] && r.1.Failure? ==> r.1.error == AlreadyExists
    ensures r.1.Success? ==> r.0.rows.Keys == t.rows.Keys && r.0.nextId == t.nextId
    ensures Valid(t) ==> Valid(r.0)
  {
    if n.Failure? then (t, Failure(n.error))
    else
      var ids := DraftIds(n.value);
      var missing := Missing(ids, t.rows);
      if missing != [] then (t, Failure(RulesNotFound(missing)))
      else
        assert forall i :: 0 <= i < |ids| ==> ids[i] !in missing;
        UpdateAllKeeps(t, n.value);
        match UpdateAll(t, n.value)
        case Failure(e) => (t, Failure(e))
        case Success(p) => (p.0, Success(p.1))
  }

  /**
    A successful update of a batch with distinct ids returns the drafts in
    request order and wrote exactly those rows.
  */
  lemma UpdateBatchSpec(t: Table, ds: seq<Draft>)
    requires HasIds(ds)
    requires forall i, j :: 0 <= i < j < |ds| ==> ds[i].id.value != ds[j].id.value
    requires UpdateBatch(t, Success(ds)).1.Success?
    ensures var (t', r) := UpdateBatch(t, Success(ds));
      |r.value| == |ds| &&
      (forall i :: 0 <= i < |ds| ==>
        ds[i].id.value in t.rows && r.value[i] == Response(ds[i].id.value, RowOf(ds[i])) && t'.rows[ds[i].id.value] == RowOf(ds[i])) &&
      (forall k :: k in t.rows && (forall i :: 0 <= i < |ds| ==> ds[i].id.value != k) ==> t'.rows[k] == t.rows[k])
  {
    var ids := DraftIds(ds);
    assert forall i :: 0 <= i < |ids| ==> ids[i] !in Missing(ids, t.rows);
    UpdateAllSpec(t, ds);
  }

  /** `update_rules_bulk(rules)`. */
  function UpdateRulesBulk(t: Table, rules: seq<Object>): (r: (Table, Result<seq<Rule>, RuleError>))
    ensures r.1.Failure? ==> r.0 == t
    ensures NormalizeBulkUpdate(rules).Failure? ==> r.1 == Failure(NormalizeBulkUpdate(rules).error)
    ensures r.1.Success? ==> r.0.rows.Keys == t.rows.Keys && r.0.nextId == t.nextId
    ensures Valid(t) ==> Valid(r.0)
  {
    UpdateBatch(t, NormalizeBulkUpdate(rules))
  }
}
