/** Failure-carrying datatypes shared by the model. */
module Wrappers {

  /** An optional value; `None` models Python's `None`. */
  datatype Option<+T> = None | Some(value: T)

  /** A value or the exception the source would raise instead. */
  datatype Result<+T, +E> = Ok(value: T) | Err(error: E)
}
