/** Failure-compatible results for the Rust library's `Result<T, String>` returns. */
module Wrappers {

  /** `Ok(value)` or `Err(error)`, as a Rust `Result`. */
  datatype Result<+T, +E> = Ok(value: T) | Err(error: E)

  /** `Result<(), E>`: success carries no value. */
  datatype Outcome<+E> = Pass | Fail(error: E)
}
