/** Result and Option datatypes shared by the dataset-reader and tensor models. */
module Wrappers {

  datatype Option<+T> = None | Some(value: T)

  /** The outcome of an operation that may raise: the value it returns, or the error it raises. */
  datatype Result<+T, +E> = Success(value: T) | Failure(error: E)
}
