/** Failure-carrying datatypes shared by the whole model. */
module Wrappers {

  /** A value that may be absent: JavaScript's `undefined`, or `NaN` for a parse. */
  datatype Option<+T> = None | Some(value: T)

  /** The value of a promise that either resolves with `value` or rejects with `error`. */
  datatype Result<+R, +E> = Success(value: R) | Failure(error: E)
}
