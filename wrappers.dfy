/** Option and Result, the two failure-carrying wrappers the adapter works with. */
module Wrappers {

  /** Rust's `Option<T>`. */
  datatype Option<+T> = None | Some(value: T)

  /** A computation that either produces a value or stops with an error.
      The adapter's failures are panics; they are carried in `Err`. */
  datatype Result<+T, +E> = Ok(value: T) | Err(error: E)
}
