/** Parsed JSON values, as the player and the exporter handle them after
    `JSON.parse` and before `JSON.stringify`. Numbers are exact reals;
    object key order is not kept. */
module JsonValue {
  import opened Base

  datatype Json =
    | JNull
    | JBool(b: bool)
    | JNum(n: real)
    | JStr(s: string)
    | JArr(items: seq<Json>)
    | JObj(fields: map<string, Json>)

  /** `typeof v === 'number'`. */
  predicate IsNumber(v: Option<Json>) {
    v.Some? && v.value.JNum?
  }

  /** Property `key` of an object; `undefined` (None) for a missing key and
      for values that are not objects. */
  function Get(v: Json, key: string): (r: Option<Json>)
    ensures r.Some? <==> v.JObj? && key in v.fields
    ensures r.Some? ==> r.value == v.fields[key]
  {
    if v.JObj? && key in v.fields then Some(v.fields[key]) else None
  }

  /** `v?.[0]` on a parsed value: the first element of an array, the first
      character of a string, the `"0"` member of an object. */
  function First(v: Json): (r: Option<Json>)
    ensures v.JArr? && |v.items| > 0 ==> r == Some(v.items[0])
    ensures v.JNum? || v.JBool? || v.JNull? ==> r == None
  {
    match v
    case JArr(items) => if |items| > 0 then Some(items[0]) else None
    case JStr(s) => if |s| > 0 then Some(JStr([s[0]])) else None
    case JObj(m) => if "0" in m then Some(m["0"]) else None
    case _ => None
  }

  /** `Array.isArray` on a possibly undefined value. */
  predicate IsArray(v: Option<Json>) {
    v.Some? && v.value.JArr?
  }
}
