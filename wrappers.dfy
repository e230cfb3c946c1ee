/** Option and Result values used throughout the model. An exception that
    the Python code raises becomes the `Failure` of a `Result`. */
module Wrappers {

  datatype Option<+T> = None | Some(value: T)

  datatype Result<+T> = Success(value: T) | Failure(error: string)
  {
    predicate IsFailure() { Failure? }
  }
}
