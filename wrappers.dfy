/** Outcomes of the container operations that can throw. Every exception the
    core raises is std::out_of_range, so there is a single error kind. */
module Wrappers {

  datatype Error = OutOfRange

  /** The result of an operation that returns nothing but may throw. */
  datatype Outcome = Pass | Fail(error: Error)

  /** The result of an operation that returns a value or throws. */
  datatype Result<+R> = Success(value: R) | Failure(error: Error)
}
