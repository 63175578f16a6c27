/** Option and Result, used for pandas nulls and for Python exceptions. */
module Wrappers {

  /** A nullable value: `None` stands for a pandas null (NaN/NaT/None). */
  datatype Option<+T> = None | Some(value: T)

  /** The outcome of an operation that may raise: `Failure` carries the exception. */
  datatype Result<+T, +E> = Success(value: T) | Failure(error: E)
}
