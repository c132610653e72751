/** Option and Result, the two failure-compatible shapes the Rust source returns. */
module Wrappers {

  /** Rust's `Option<T>`: what an iterator's `next` returns. */
  datatype Option<+T> = None | Some(value: T)

  /** Rust's `Result<T, E>`. */
  datatype Result<+T, +E> = Ok(value: T) | Err(error: E)
}
