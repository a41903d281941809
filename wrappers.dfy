/** Failure-carrying return values shared by the overlay modules. */
module Wrappers {

  /** A value that may be absent, as a null QImage is. */
  datatype Option<+T> = None | Some(value: T)

  /** Either a value or the kind of error that stopped the computation. */
  datatype Result<+T, +E> = Ok(value: T) | Err(error: E)
}
