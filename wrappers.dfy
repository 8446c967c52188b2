/** Failure-carrying values shared by every module of the model. */
module Wrappers {

  /** A value that may be absent: Go's nil pointer fields and "not found" lookups. */
  datatype Option<+T> = None | Some(value: T) {
    function GetOr(default: T): T {
      match this
      case Some(v) => v
      case None => default
    }
  }

  /** Go's `(T, error)` pair: a value, or the error that stopped the computation. */
  datatype Result<+T> = Ok(value: T) | Err(error: string)

  /** Go's bare `error` return: nil, or an error. */
  datatype Outcome = Pass | Fail(error: string)
}
