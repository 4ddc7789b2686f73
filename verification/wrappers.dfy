/** Option and Result datatypes shared by the whole model. */
module Wrappers {

  /** A value that may be absent; a missing (NaN) CSV cell is `None`. */
  datatype Option<+T> = None | Some(value: T)

  /** The outcome of an operation that either returns a value or raises. */
  datatype Result<+R, +E> = Success(value: R) | Failure(error: E)
}
