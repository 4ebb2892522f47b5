/** Option and Result values used for the preprocessor's optional lookups and error returns. */
module Wrappers {

  datatype Option<+T> = None | Some(value: T)

  /** `Ok` carries the value of a successful step, `Err` the error that aborts it. */
  datatype Result<+T, +E> = Ok(value: T) | Err(error: E)
}
