/** Option and Result types shared by the string library, the codec and the converter. */
module Wrappers {

  datatype Option<T> = None | Some(value: T)

  /** Why a Python call would not return a value, or that the model does not describe the call. */
  datatype Failure =
    | AssertionError      // an `assert` in the converter fails
    | UnicodeDecodeError  // the `unicode_escape` decoder raises on a malformed escape
    | Unmodelled          // the model does not describe what Python does here

  datatype Result<T> = Ok(value: T) | Err(failure: Failure)

  /** Prefixes `x` to a successful result and passes a failure through. */
  function Prefixed(x: string, r: Result<string>): (p: Result<string>)
    ensures p.Ok? <==> r.Ok?
    ensures p.Ok? ==> p.value == x + r.value
    ensures p.Err? ==> p == r
  {
    match r
    case Ok(v) => Ok(x + v)
    case Err(f) => Err(f)
  }

  lemma PrefixedEmpty(r: Result<string>)
    ensures Prefixed([], r) == r
  {
    if r.Ok? {
      assert [] + r.value == r.value;
    }
  }

  lemma PrefixedTwice(x: string, y: string, r: Result<string>)
    ensures Prefixed(x, Prefixed(y, r)) == Prefixed(x + y, r)
  {
    if r.Ok? {
      assert x + (y + r.value) == (x + y) + r.value;
    }
  }
}
