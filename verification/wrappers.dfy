/** Failure-carrying wrappers used by the converter model. */
module Wrappers {

  /** An optional value; `None` plays the part of Python's `None`. */
  datatype Option<+T> = None | Some(value: T)

  /** The outcome of a conversion step: a value, or the failure that ended the run. */
  datatype Result<+T, +E> = Success(value: T) | Failure(error: E)
}
