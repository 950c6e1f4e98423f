/** Failure-carrying values used in place of Swift optionals and `throws`. */
module Wrappers {

  /** A Swift optional: `nil` is `None`. */
  datatype Option<+T> = None | Some(value: T)

  /** The outcome of a throwing Swift function that returns a value. */
  datatype Result<+R, +E> = Success(value: R) | Failure(error: E)

  /** The outcome of a throwing Swift function that returns `Void`. */
  datatype Outcome<+E> = Pass | Fail(error: E)
}
