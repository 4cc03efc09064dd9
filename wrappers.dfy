/** Optional values and results with an error, as used throughout the model. */
module Wrappers {

  /** A value that may be absent (JavaScript's `null`). */
  datatype Option<T> = None | Some(value: T)

  /** The outcome of an operation that may throw: a value, or the thrown message. */
  datatype Result<T, E> = Ok(value: T) | Err(error: E)
}
