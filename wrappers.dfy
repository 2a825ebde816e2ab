/** Option and Result, the shapes JavaScript's null and thrown errors take in this model. */
module Wrappers {

  /** A value that may be missing: JavaScript's null or undefined. */
  datatype Option<+T> = None | Some(value: T)

  /** The outcome of an operation that either returns a value or throws an error with a message. */
  datatype Result<+T, +E> = Ok(value: T) | Err(error: E)
}
