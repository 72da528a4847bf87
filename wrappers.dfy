/** Results of operations that can throw: either a value or the exception the
    source throws. */
module Wrappers {

  /** The exception classes the modelled code throws. */
  datatype Exception =
    | OutOfRange        // std::out_of_range
    | InvalidArgument   // std::invalid_argument
    | NarrowingError    // mart::narrowing_error

  datatype Result<+T> = Ok(value: T) | Err(error: Exception)
}
