/** Failure-carrying return values, standing in for the exceptions and
    "no value" cases of the worker's Python code. */
module Wrappers {

  datatype Option<+T> = None | Some(value: T)

  datatype Result<+R, +E> = Success(value: R) | Failure(error: E)
}
