/** Option and Result values shared by the DOM and parser modules. */
module Wrappers {

  /** A value that may be absent; `None` stands for a Java `null`. */
  datatype Option<+T> = None | Some(value: T)

  /** The outcome of a library call that either succeeds or fails with an error of kind `E`. */
  datatype Result<+T, +E> = Ok(value: T) | Err(error: E)
}
