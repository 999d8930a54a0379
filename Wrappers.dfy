/** Option and Result, the two failure-carrying shapes the Rust code uses. */
module Wrappers {

  datatype Option<+T> = None | Some(value: T)

  /** Rust's `Option::unwrap_or`. */
  function GetOr<T>(o: Option<T>, default: T): T
  {
    match o
    case Some(v) => v
    case None => default
  }

  datatype Result<+R, +E> = Success(value: R) | Failure(error: E)
}
