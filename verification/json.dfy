/**
  Loosely typed JSON values as the Python code handles them: `None`, bools,
  integers, strings, lists and dicts whose entries keep insertion order.
*/
module JsonValue {
  import opened Strings
  import Dicts

  datatype Json =
    | JNull
    | JBool(b: bool)
    | JInt(i: int)
    | JStr(s: string)
    | JArr(items: seq<Json>)
    | JObj(fields: seq<(string, Json)>)

  type Object = seq<(string, Json)>

  /** Python truthiness: `None`, `False`, `0`, `""`, `[]` and `{}` are false. */
  predicate Truthy(j: Json) {
    match j
    case JNull => false
    case JBool(b) => b
    case JInt(i) => i != 0
    case JStr(s) => s != ""
    case JArr(items) => |items| > 0
    case JObj(fields) => |fields| > 0
  }

  /** `d.get(key)` on a dict: the stored value, or `None` when the key is absent. */
  function Get(d: Object, key: string): (r: Json)
    ensures key !in Dicts.Keys(d) ==> r == JNull
    ensures key in Dicts.Keys(d) ==> (key, r) in d
  {
    Dicts.Get(d, key).GetOr(JNull)
  }

  /** `d.get(key, default)`: the default only when the key is absent (a stored `None` is returned). */
  function GetOr(d: Object, key: string, default: Json): (r: Json)
    ensures key !in Dicts.Keys(d) ==> r == default
    ensures key in Dicts.Keys(d) ==> (key, r) in d
  {
    Dicts.Get(d, key).GetOr(default)
  }

  /** `d.get(key) or {}` read as a dict: the entries of a dict value, empty otherwise. */
  function ObjectAt(d: Object, key: string): Object {
    var v := Get(d, key);
    if v.JObj? then v.fields else []
  }

  /** Python's `str(v)`; containers use a simplified `repr` (quotes inside strings are not escaped). */
  function PyStr(j: Json): string
    decreases j, 1
  {
    match j
    case JNull => "None"
    case JBool(b) => if b then "True" else "False"
    case JInt(i) => IntToString(i)
    case JStr(s) => s
    case JArr(items) =>
      "[" + Join(", ", seq(|items|, k requires 0 <= k < |items| => Repr(items[k]))) + "]"
    case JObj(fields) =>
      "{" + Join(", ", seq(|fields|, k requires 0 <= k < |fields| => "'" + fields[k].0 + "': " + Repr(fields[k].1))) + "}"
  }

  /** Python's `repr(v)`: like `str` but strings are quoted. */
  function Repr(j: Json): string
    decreases j, 2
  {
    if j.JStr? then "'" + j.s + "'" else PyStr(j)
  }
}
