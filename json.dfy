/**
 * Python values as they arrive in a decoded JSON request body or a decoded
 * token payload, with Python's truthiness rules.
 */
module Json {

  /** A JSON value as Python's `json` module gives it back (numbers are integers only). */
  datatype Value =
    | JNull
    | JBool(b: bool)
    | JInt(i: int)
    | JStr(s: string)
    | JArr(items: seq<Value>)
    | JObj(fields: map<string, Value>)
  {
    /** `bool(v)`: None, False, 0 and empty strings, lists and dicts are falsy. */
    predicate Truthy() {
      match this
      case JNull => false
      case JBool(b) => b
      case JInt(i) => i != 0
      case JStr(s) => s != ""
      case JArr(items) => items != []
      case JObj(fields) => fields != map[]
    }
  }

  /** A Python dict from strings to JSON values: a request body or a claims bundle. */
  type Claims = map<string, Value>

  /** `d.get(key)`: the stored value, or None when the key is absent. */
  function Get(d: Claims, key: string): (v: Value)
    ensures key !in d ==> v == JNull
    ensures key in d ==> v == d[key]
  {
    if key in d then d[key] else JNull
  }
}
