/** Failure-carrying results for the operations of `report.py` that raise an exception. */
module Wrappers {

  /** Either the value an operation returns or the error it raises. */
  datatype Result<+T, +E> = Success(value: T) | Failure(error: E)
}
