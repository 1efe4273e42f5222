/** Nullable values and fallible results, shared by every module of the model. */
module Wrappers {

  /** A value that may be missing: pandas' NaN / NaT / None. */
  datatype Option<+T> = None | Some(value: T)

  /** The outcome of an operation that can raise: a value or the error raised. */
  datatype Result<+R, +E> = Success(value: R) | Failure(error: E)
}
