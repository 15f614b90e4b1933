/** Option and Result values standing for JavaScript's `undefined`/`null` and thrown errors. */
module Wrappers {

  /** A value that may be absent: `None` stands for `undefined` or `null`. */
  datatype Option<+T> = None | Some(value: T)

  /** The outcome of a step that may throw. */
  datatype Result<+R, +E> = Success(value: R) | Failure(error: E)
}
