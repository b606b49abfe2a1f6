/** Option and Result: JavaScript's `null` and thrown exceptions, made explicit. */
module Wrappers {

  /** `None` stands for JavaScript's `null`. */
  datatype Option<+T> = None | Some(value: T)

  /** `Err` stands for an exception thrown by a host built-in and left uncaught. */
  datatype Result<+T, +E> = Ok(value: T) | Err(error: E)
}
