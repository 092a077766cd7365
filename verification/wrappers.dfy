/** Option and Result values used by the model in place of pandas' missing
    values (NaN) and raised exceptions. */
module Wrappers {

  /** A value that may be missing; `None` stands for a NaN cell. */
  datatype Option<+T> = None | Some(value: T)

  /** Either a computed value or the error the source would raise. */
  datatype Result<+R, +E> = Success(value: R) | Failure(error: E)
}
