/** Decoded JSON values and the Python truth test applied to them. */
module JsonValue {
  import opened Wrappers

  /** A value produced by decoding a JSON document. Object member order is
      not needed where this type is used, so objects are maps. */
  datatype Json =
    | Null
    | Bool(b: bool)
    | Num(n: real)
    | Str(s: string)
    | Arr(elems: seq<Json>)
    | Obj(fields: map<string, Json>)

  /** Python truthiness: `None`, `False`, zero and empty containers are false. */
  predicate Truthy(j: Json) {
    match j
    case Null => false
    case Bool(b) => b
    case Num(n) => n != 0.0
    case Str(s) => |s| > 0
    case Arr(e) => |e| > 0
    case Obj(f) => |f| > 0
  }

  /** The name of the Python type of a decoded value, as exception texts
      show it; a number without a fractional part is named `int`. */
  function PyTypeName(j: Json): string {
    match j
    case Null => "NoneType"
    case Bool(_) => "bool"
    case Num(n) => if n == n.Floor as real then "int" else "float"
    case Str(_) => "str"
    case Arr(_) => "list"
    case Obj(_) => "dict"
  }

  /** `d.get(key, default)` on a decoded object. */
  function GetOr(d: map<string, Json>, key: string, default: Json): (r: Json)
    ensures key in d ==> r == d[key]
    ensures key !in d ==> r == default
  {
    if key in d then d[key] else default
  }

  /** `d.get(key)`: Python's `None` covers both a missing key and a JSON null. */
  function Get(d: map<string, Json>, key: string): (r: Option<Json>)
    ensures r.Some? <==> key in d && d[key] != Null
    ensures r.Some? ==> r.value == d[key]
  {
    if key in d && d[key] != Null then Some(d[key]) else None
  }
}
