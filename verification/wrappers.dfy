/** Option and Result, as the rest of the model uses them. */
module Wrappers {

  /** A value that may be absent; `None` also stands for JavaScript's NaN id. */
  datatype Option<+T> = None | Some(value: T)

  /** The outcome of an operation that can throw: `Failure` carries the error. */
  datatype Result<+R, +E> = Success(value: R) | Failure(error: E)
}
