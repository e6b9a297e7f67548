/** Failure-carrying wrappers used throughout the model: `Option` stands for a
    Python value that may be `None`, `Result` for a call that may raise. */
module Wrappers {

  /** A value that may be absent (Python's `None`). */
  datatype Option<+T> = None | Some(value: T)

  /** The outcome of a call that may raise an exception. */
  datatype Result<+T, +E> = Success(value: T) | Failure(error: E)
}
