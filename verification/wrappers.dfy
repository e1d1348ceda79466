/** Failure-carrying values shared by the other modules. */
module Wrappers {

  /** A value that may be absent: a missing record, an undefined lookup. */
  datatype Option<+T> = None | Some(value: T)

  /** The outcome of an operation that can throw: a value, or the error it raises. */
  datatype Result<+T, +E> = Ok(value: T) | Err(error: E)
}
