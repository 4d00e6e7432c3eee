/**
 The part of JavaScript's value model that the parameter modal depends on:
 the values a completion parameter can hold, JavaScript's truthiness test, and
 reading a key of a plain object.
 */
module JsValue {
  import opened Wrappers

  /** A parameter value. Numbers are modelled as reals (NaN and -0 are left out). */
  datatype Value =
    | Undefined
    | Null
    | Bool(b: bool)
    | Num(n: real)
    | Str(s: string)
    | Arr(items: seq<Value>)

  /** JavaScript's ToBoolean: `undefined`, `null`, `false`, `0` and `''` are falsy;
      every array, even an empty one, is truthy. */
  predicate Truthy(v: Value)
    ensures v.Arr? ==> Truthy(v)
    ensures Truthy(v) ==> v != Bool(false) && v != Num(0.0) && v != Str("")
  {
    match v
    case Undefined => false
    case Null => false
    case Bool(b) => b
    case Num(n) => n != 0.0
    case Str(s) => s != ""
    case Arr(_) => true
  }

  /** `isNullOrUndefined(v)`: `v === null || v === undefined`. */
  predicate IsNullOrUndefined(v: Value)
    ensures IsNullOrUndefined(v) ==> !Truthy(v)
  {
    v == Undefined || v == Null
  }

  /** A plain object from parameter name to value (the source's `FormValue`). */
  type FormValue = map<string, Value>

  /** Whether a key is present and, if so, its value. */
  function Lookup(m: FormValue, k: string): (r: Option<Value>)
    ensures r.Some? <==> k in m
    ensures r.Some? ==> r.value == m[k]
  {
    if k in m then Some(m[k]) else None
  }

  /** The JavaScript expression `m[k]`: a missing key reads as `undefined`. */
  function Index(m: FormValue, k: string): (v: Value)
    ensures k !in m ==> v == Undefined
    ensures k in m ==> v == m[k]
  {
    if k in m then m[k] else Undefined
  }
}
