/** Decoded JSON values as Python's `json` module hands them to the combiner,
    with the parts of Python's semantics the combiner relies on: truthiness
    (`if x`, `not x`), `str(x)` and the `in` operator. */
module JsonValues {
  import opened Digits

  datatype Option<T> = None | Some(value: T)

  /** A JSON value. An object is a map, so "key absent" and "key present with
      null" stay distinct, as they are for `dict.get(key, default)`. Non-integer
      numbers (Python floats) are not part of this model. */
  datatype Json =
    | JNull
    | JBool(b: bool)
    | JInt(i: int)
    | JStr(s: string)
    | JArr(items: seq<Json>)
    | JObj(fields: map<string, Json>)

  /** Python's `bool(v)`: None, False, 0, "", [] and {} are false. */
  predicate Truthy(v: Json) {
    match v
    case JNull => false
    case JBool(b) => b
    case JInt(i) => i != 0
    case JStr(s) => s != ""
    case JArr(items) => items != []
    case JObj(fields) => fields != map[]
  }

  /** `d.get(key, default)` on a dict. */
  function Get(d: map<string, Json>, key: string, default: Json): Json {
    if key in d then d[key] else default
  }

  /** Values whose `str()` is a plain token rather than a container's repr. */
  predicate IsScalar(v: Json) {
    v.JNull? || v.JBool? || v.JInt? || v.JStr?
  }

  /** Python's `str(v)` for scalars. A truthy scalar never prints as the empty string. */
  function PyStr(v: Json): (r: string)
    requires IsScalar(v)
    ensures Truthy(v) ==> r != ""
    ensures v.JInt? ==> '/' !in r
  {
    match v
    case JNull => "None"
    case JBool(b) => if b then "True" else "False"
    case JInt(i) => IntToDecimal(i)
    case JStr(s) => s
  }

  /** `t` occurs in `s` as a contiguous piece (Python's `t in s` on strings). */
  predicate IsSubstring(t: string, s: string) {
    exists i :: 0 <= i <= |s| - |t| && OccursAt(t, s, i)
  }

  predicate OccursAt(t: string, s: string, i: int) {
    0 <= i <= |s| - |t| && s[i..i + |t|] == t
  }

  /** Containers on which Python's `key in c` does not raise TypeError. */
  predicate CanTestIn(c: Json) {
    c.JObj? || c.JArr? || c.JStr?
  }

  /** Python's `key in c` with a string key: a key test on a dict, an element
      test on a list, a substring test on a string. */
  predicate PyIn(key: string, c: Json)
    requires CanTestIn(c)
  {
    match c
    case JObj(fields) => key in fields
    case JArr(items) => JStr(key) in items
    case JStr(s) => IsSubstring(key, s)
  }
}
