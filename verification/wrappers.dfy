/** Option and Result, shared by the registry modules. */
module Wrappers {

  /** An optional value; `None` stands for Go's nil. */
  datatype Option<+T> = None | Some(value: T)

  /** The outcome of an operation that may fail with an error of type `E`. */
  datatype Result<+T, +E> = Success(value: T) | Failure(error: E)
}
