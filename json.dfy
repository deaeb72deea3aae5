/** JSON values as the Python back end and the JavaScript client see them,
    with Python's notion of truthiness and `dict.get`. */
module JsonModel {

  datatype Json =
    | JNull
    | JBool(b: bool)
    | JNum(n: real)
    | JStr(s: string)
    | JArr(items: seq<Json>)
    | JObj(fields: map<string, Json>)

  /** A JSON object, the shape of every stored record and request body. */
  type Record = map<string, Json>

  /** Python's `bool(v)`: None, False, 0, "" and empty containers are false. */
  predicate Truthy(v: Json)
    ensures Truthy(v) <==> v !in {JNull, JBool(false), JNum(0.0), JStr(""), JArr([]), JObj(map[])}
  {
    match v
    case JNull => false
    case JBool(b) => b
    case JNum(n) => n != 0.0
    case JStr(s) => s != ""
    case JArr(a) => a != []
    case JObj(m) => m != map[]
  }

  /** Python's `d.get(k)`: the value under `k`, or None when the key is absent. */
  function Get(m: Record, k: string): (v: Json)
    ensures k !in m ==> v == JNull
    ensures k in m ==> v == m[k]
  {
    if k in m then m[k] else JNull
  }

  /** The object `{key: message}`, the body of every error and status reply. */
  function Message(key: string, text: string): (v: Json)
    ensures v.JObj? && v.fields.Keys == {key} && v.fields[key] == JStr(text)
  {
    JObj(map[key := JStr(text)])
  }

  /** A list of floats (an embedding) as the JSON array `json.dump` writes. */
  function NumArray(xs: seq<real>): (v: Json)
    ensures v.JArr? && |v.items| == |xs|
    ensures forall i :: 0 <= i < |xs| ==> v.items[i] == JNum(xs[i])
  {
    JArr(seq(|xs|, i requires 0 <= i < |xs| => JNum(xs[i])))
  }
}
