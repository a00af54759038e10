/** Option and Result, the two failure-carrying types the model needs. */
module Wrappers {

  /** Rust's Option<T>. */
  datatype Option<+T> = None | Some(value: T)

  /** A computation that either yields a value or stops with an error
      (used where the source panics). */
  datatype Result<+T, +E> = Ok(value: T) | Err(error: E)
}
