/** Failure-carrying result of an operation that can throw in the source. */
module Wrappers {

  /** Either the value an operation produced or the error it reported. */
  datatype Result<+R, +E> = Success(value: R) | Failure(error: E)
}
