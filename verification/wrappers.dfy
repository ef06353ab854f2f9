/** Option and Result, used for JavaScript's `undefined` and for thrown errors. */
module Wrappers {

  /** A value that may be absent (`undefined` in the component). */
  datatype Option<+T> = None | Some(value: T)

  /** Either a value or the error a handler would have thrown. */
  datatype Result<+T, +E> = Ok(value: T) | Err(error: E)
}
