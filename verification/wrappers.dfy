/** The failure-carrying result type used by the numeral engine. */
module Wrappers {

  /** The outcome of an operation that raises on bad input. */
  datatype Result<+R, +E> = Success(value: R) | Failure(error: E)
}
