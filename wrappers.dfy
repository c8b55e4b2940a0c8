/** Option and Result: the value-or-nothing and value-or-error types the decoder returns. */
module Wrappers {

  datatype Option<+T> = None | Some(value: T)

  /** Rust's `Result<T, E>`: a decoded value, or the first error met. */
  datatype Result<+T, +E> = Ok(value: T) | Err(error: E)
}
