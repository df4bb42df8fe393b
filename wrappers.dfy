/** Option and Result, the two failure-carrying shapes the Rust program uses. */
module Wrappers {

  datatype Option<+T> = None | Some(value: T)

  /** A Rust `Result`: `Ok` carries the value, `Err` an opaque error payload. */
  datatype Result<+T, +E> = Ok(value: T) | Err(error: E)
}
