/** JavaScript values the two service clients work with: values that may be
    `null`/`undefined`, operations that either return or throw, and the
    truthiness rules behind `!!x` and `a || b`. */
module Js {

  /** A value that may be `null` or `undefined` (both are `None`). */
  datatype Option<+T> = None | Some(value: T) {

    /** `x || default` for an optional array: the value when present. */
    function GetOr(default: T): T {
      match this
      case Some(v) => v
      case None => default
    }
  }

  /** An operation that either returns a value or throws an error. */
  datatype Result<+T, +E> = Ok(value: T) | Err(error: E)

  /** `!!s` for a `string | null`: false for null and for the empty string. */
  predicate Truthy(s: Option<string>)
    ensures Truthy(s) <==> s.Some? && |s.value| > 0
  {
    s.Some? && s.value != ""
  }

  /** `!!n` for a `number | undefined`: false for undefined and for 0
      (NaN is not an integer and does not arise here). */
  predicate TruthyNumber(n: Option<int>) {
    n.Some? && n.value != 0
  }

  /** `a || b` on optional strings: `a` when it is truthy, otherwise `b`. */
  function Or(a: Option<string>, b: Option<string>): (r: Option<string>)
    ensures r == a || r == b
    ensures Truthy(r) <==> Truthy(a) || Truthy(b)
    ensures Truthy(a) ==> r == a
    ensures !Truthy(a) ==> r == b
  {
    if Truthy(a) then a else b
  }
}
