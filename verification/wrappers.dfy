/** Absent values and error results shared by the models. */
module Wrappers {

  /** A value that may be absent: `null` in the JavaScript, Java and C++ programs, `None` in the Python one. */
  datatype Option<+T> = None | Some(value: T)

  /** The outcome of an operation that may raise an error instead of returning. */
  datatype Result<+T, +E> = Success(value: T) | Failure(error: E)
}
