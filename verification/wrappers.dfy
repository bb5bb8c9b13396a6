/** Failure-carrying values shared by the resolver and the controller. */
module Wrappers {

  /** A value that may be absent: an unset variable, a missing file, a failed parse. */
  datatype Option<+T> = None | Some(value: T)

  /** Either a computed value or the error that stopped the computation. */
  datatype Result<+T, +E> = Ok(value: T) | Err(error: E)
}
