/** Success/failure values standing in for the exceptions and the `sys.exit`
    of mcrw.py. */
module Wrappers {

  /** A computation that yields a value or fails with an error. */
  datatype Result<+T, +E> = Success(value: T) | Failure(error: E)

  /** A computation that yields nothing but may fail with an error. */
  datatype Outcome<+E> = Pass | Fail(error: E)
}
