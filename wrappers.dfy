/** Failure-compatible value types shared by the modules of this project. */
module Wrappers {

  /** A value that may be absent (an optional parameter or property). */
  datatype Option<+T> = None | Some(value: T)

  /** The outcome of an operation that may fail: a value or a reason. */
  datatype Result<+T> = Success(value: T) | Failure(error: string)
}
