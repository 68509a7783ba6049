/** Failure-carrying values shared by every module of the model. */
module Wrappers {

  /** A value that may be absent (Python's `None`). */
  datatype Option<T> = None | Some(value: T)

  /** The outcome of an operation that can raise: the value, or the text of the exception. */
  datatype Result<T> = Ok(value: T) | Err(message: string)

  /** One entry of a Python dict read with `d.get(key, default)`: the key may be missing,
      present with the value `None`, or present with a value. */
  datatype Entry<T> = Missing | Null | Present(value: T)

  /** `d.get(key, default)`: the default only when the key is missing; a present `None` stays `None`. */
  function GetOr<T>(e: Entry<T>, default: Option<T>): (r: Option<T>)
    ensures e.Missing? ==> r == default
    ensures e.Null? ==> r.None?
    ensures e.Present? ==> r == Some(e.value)
  {
    match e
    case Missing => default
    case Null => None
    case Present(v) => Some(v)
  }

  /** `x if x is not None else default`. */
  function ValueOr<T>(o: Option<T>, default: T): T
  {
    if o.Some? then o.value else default
  }
}
