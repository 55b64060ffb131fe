/** Failure conditions of the modelled operations, as results instead of exceptions. */
module Errors {
  datatype Error =
    | OutOfBounds        // a cell coordinate outside [0, size)
    | DimensionMismatch  // a board whose size differs from the panel's
    | IOFailure          // a word-list source that cannot be opened or read

  datatype Result<T> = Ok(value: T) | Err(error: Error)

  datatype Outcome = Pass | Fail(error: Error)
}
