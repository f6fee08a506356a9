/**
  Decoded JSON values as the Python layer sees them after `json.loads`.
  Floating-point numbers are not modelled (see README).
 */
module Json {

  datatype Value =
    | Null
    | Bool(b: bool)
    | Int(i: int)
    | Str(s: string)
    | List(elems: seq<Value>)
    | Obj(fields: seq<(string, Value)>)

  /** Python's `isinstance(v, str)`. */
  predicate IsPyStr(v: Value) {
    v.Str?
  }

  /** Python's `isinstance(v, int)`: `bool` is a subclass of `int`, so booleans pass. */
  predicate IsPyInt(v: Value) {
    v.Int? || v.Bool?
  }

  /** `all(isinstance(v, str) for v in vs)`; true of the empty list. */
  predicate AllStr(vs: seq<Value>) {
    forall i :: 0 <= i < |vs| ==> IsPyStr(vs[i])
  }

  /** `all(isinstance(v, int) for v in vs)`; true of the empty list. */
  predicate AllInt(vs: seq<Value>) {
    forall i :: 0 <= i < |vs| ==> IsPyInt(vs[i])
  }
}
