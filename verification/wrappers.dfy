/** Failure-carrying values used wherever the program raises and catches an exception. */
module Wrappers {

  /** A value that may be absent: a missing dictionary key, or `None` returned by a helper. */
  datatype Option<+T> = None | Some(value: T)

  /** The outcome of a computation that either yields a value or stops with an error. */
  datatype Result<+T, +E> = Success(value: T) | Failure(error: E)
}
