/**
 * Decoded JSON as the scripts see it after `json.loads` / `resp.json()`:
 * objects are Python dicts, whose keys keep their insertion order, so an
 * object is an ordered sequence of key/value entries. A decoded dict has
 * no repeated key; lookups take the first entry with the key.
 */
module PyJson {
  import opened Wrappers
  import opened Text

  datatype Json =
    | JNull
    | JBool(b: bool)
    | JNum(n: int)
    | JStr(s: string)
    | JArr(items: seq<Json>)
    | JObj(fields: seq<(string, Json)>)

  type Fields = seq<(string, Json)>

  function Keys(fields: Fields): set<string> {
    set i | 0 <= i < |fields| :: fields[i].0
  }

  /** `d.get(k)` on a dict: the value of the first entry with key `k`. */
  function Get(fields: Fields, k: string): (r: Option<Json>)
    ensures r.None? <==> k !in Keys(fields)
    ensures r.Some? ==> exists i :: 0 <= i < |fields| && fields[i] == (k, r.value)
  {
    if fields == [] then None
    else if fields[0].0 == k then Some(fields[0].1)
    else
      var r := Get(fields[1..], k);
      assert Keys(fields) == {fields[0].0} + Keys(fields[1..]);
      assert r.Some? ==> exists i :: 0 <= i < |fields| && fields[i] == (k, r.value) by {
        if r.Some? {
          var i :| 0 <= i < |fields[1..]| && fields[1..][i] == (k, r.value);
          assert fields[i + 1] == (k, r.value);
        }
      }
      r
  }

  /** `k in d` for a JSON value that is a dict; false for anything else. */
  predicate HasKey(j: Json, k: string) {
    j.JObj? && k in Keys(j.fields)
  }

  /** `j.get(k)` when `j` is a dict; `None` also for a value that is not one. */
  function Member(j: Json, k: string): Option<Json> {
    if j.JObj? then Get(j.fields, k) else None
  }

  predicate IsDict(j: Json) { j.JObj? }

  predicate IsList(j: Json) { j.JArr? }

  /** Python's truth value of a decoded value. */
  predicate Truthy(j: Json) {
    match j
    case JNull => false
    case JBool(b) => b
    case JNum(n) => n != 0
    case JStr(s) => s != ""
    case JArr(items) => items != []
    case JObj(fields) => fields != []
  }

  /**
   * `str(j)`. Strings are themselves, numbers are their decimal form, and
   * `None`, `True`, `False`, lists and dicts are rendered by `repr`; the
   * quoting of strings inside a container is simplified (no escapes).
   */
  function PyStr(j: Json): (r: string)
    ensures r == "" <==> j == JStr("")
  {
    match j
    case JStr(s) => s
    case _ => Repr(j)
  }

  function Repr(j: Json): (r: string)
    ensures r != ""
    decreases j, 1
  {
    match j
    case JNull => "None"
    case JBool(b) => if b then "True" else "False"
    case JNum(n) => IntText(n)
    case JStr(s) => "'" + s + "'"
    case JArr(items) =>
      "[" + Join(seq(|items|, i requires 0 <= i < |items| => Repr(items[i])), ", ") + "]"
    case JObj(fields) =>
      "{" + Join(seq(|fields|, i requires 0 <= i < |fields| =>
                   "'" + fields[i].0 + "': " + Repr(fields[i].1)), ", ") + "}"
  }
}
