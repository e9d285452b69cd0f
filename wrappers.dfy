/** Failure-carrying wrappers used across the model. */
module Wrappers {

  /** A value that may be absent; `None` stands for a Python `None` or a failed lookup. */
  datatype Option<+T> = None | Some(value: T)

  /** Either a value or the error that was raised instead of producing it. */
  datatype Result<+T, +E> = Success(value: T) | Failure(error: E)
}
