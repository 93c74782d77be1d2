/** Failure-carrying values used throughout the model: `Option` for the
    Python `None`-or-value results, `Result` for a value-or-exception. */
module Wrappers {

  datatype Option<+T> = None | Some(value: T)

  /** The outcome of a call that either returns a value or raises. */
  datatype Result<+R, +E> = Success(value: R) | Failure(error: E)
}
