/** Failure-carrying results shared by the modules of the bridge model. */
module Wrappers {

  /** A value that may be missing: a lookup or parse that can fail without a reason. */
  datatype Option<+T> = None | Some(value: T)

  /** A value or the reason it could not be produced (a Python exception, in the source). */
  datatype Result<+T, +E> = Success(value: T) | Failure(error: E)
}
