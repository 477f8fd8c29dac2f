/** The result of an operation that either returns a value or throws. */
module Wrappers {

  datatype Result<T, E> = Success(value: T) | Failure(error: E)
}
