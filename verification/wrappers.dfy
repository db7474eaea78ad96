/** Success/failure results for operations whose source can throw. */
module Wrappers {

  datatype Result<+R, +E> = Success(value: R) | Failure(error: E)
}
