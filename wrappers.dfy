/** Failure-carrying values used throughout the model: Go's `(T, error)` pairs and bare `error`
    returns become Result and Outcome; an optional adapter reply becomes Option. */
module Wrappers {

  datatype Option<+T> = None | Some(value: T)

  datatype Result<+T, +E> = Success(value: T) | Failure(error: E)

  datatype Outcome<+E> = Pass | Fail(error: E)
}
