/** Option and Result, standing for Python's `None` and for a call that may raise. */
module Wrappers {

  datatype Option<+T> = None | Some(value: T)

  /** The outcome of a call that either returns a value or raises an exception with a message. */
  datatype Result<+T, +E> = Ok(value: T) | Err(error: E)
}
