/** Option and Result values shared by the pipeline stages. */
module Wrappers {
  /** A value that may be missing: a null cell of a pandas table, or no regex match. */
  datatype Option<+T> = None | Some(value: T)

  /** The outcome of a stage that can fail outright (an exception in the original scripts). */
  datatype Result<+T, +E> = Success(value: T) | Failure(error: E)
}
