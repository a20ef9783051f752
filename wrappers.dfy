/** Option and Result values standing for JavaScript's `null`/`undefined` and for thrown errors. */
module Wrappers {

  datatype Option<T> = None | Some(value: T)

  /** The outcome of an operation that may throw: a value, or the message of the error it threw. */
  datatype Result<T, E> = Ok(value: T) | Err(error: E)
}
