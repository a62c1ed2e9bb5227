/** Failure-carrying result types shared by the validators. */
module Wrappers {

  /** A value that may be absent; used for nullable cells and for optional outputs. */
  datatype Option<+T> = None | Some(value: T)

  /** The outcome of a computation that may raise instead of returning. */
  datatype Result<+T, +E> = Success(value: T) | Failure(error: E)
}
