/** Optional values and results with an error case. */
module Wrappers {
  /** A value that may be missing: Ruby's `nil` is `None`. */
  datatype Option<+T> = None | Some(value: T)

  /** The outcome of an operation that can raise. */
  datatype Result<+T, +E> = Ok(value: T) | Err(error: E)
}
