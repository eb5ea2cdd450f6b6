/** Decoded JSON values as the script sees them after `json.loads`, and the three
    Python operations it applies to them: `dict.get`, `len` and truthiness. */
module Json {
  import opened Results

  /** A decoded JSON value. Numbers are integers only. */
  datatype Value =
    | Null
    | Bool(b: bool)
    | Num(n: int)
    | Str(s: string)
    | Arr(items: seq<Value>)
    | Obj(fields: map<string, Value>)

  /** `d.get(key, default)`. */
  function Get(fields: map<string, Value>, key: string, default: Value): Value {
    if key in fields then fields[key] else default
  }

  /** `bool(v)`: empty containers, zero, the empty string, `false` and `null` are falsy. */
  predicate Truthy(v: Value) {
    match v
    case Null => false
    case Bool(b) => b
    case Num(n) => n != 0
    case Str(s) => s != []
    case Arr(xs) => xs != []
    case Obj(m) => m != map[]
  }

  /** `len(v)`: defined for strings, lists and dicts; None stands for the TypeError. */
  function Len(v: Value): (r: Option<nat>)
    ensures r.Some? <==> (v.Str? || v.Arr? || v.Obj?)
    ensures v.Arr? ==> r == Some(|v.items|)
  {
    match v
    case Str(s) => Some(|s|)
    case Arr(xs) => Some(|xs|)
    case Obj(m) => Some(|m|)
    case _ => None
  }
}
