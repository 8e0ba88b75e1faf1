/** Failure-carrying datatypes used throughout the model: an optional value,
    and a result that is either a value or an error. */
module Wrappers {

  datatype Option<+T> = None | Some(value: T)

  datatype Result<+R, +E> = Success(value: R) | Failure(error: E)
}
