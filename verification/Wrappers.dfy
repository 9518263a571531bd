/** The outcome datatypes shared by the models: C++ exceptions and error returns become values. */
module Wrappers {
  datatype Option<+T> = None | Some(value: T)

  datatype Result<+T, +E> = Success(value: T) | Failure(error: E)
}
