/** The Option and Result datatypes shared by the modules. */
module Wrappers {

  /** A value that may be absent, as Python's `Optional[...]`. */
  datatype Option<+T> = None | Some(value: T)

  /** A value or an error, standing for a Python function that may raise. */
  datatype Result<+R, +E> = Success(value: R) | Failure(error: E)
}
