/** Optional values (a missing table cell) and results with an error path. */
module Wrappers {

  /** None stands for a missing value: an empty CSV cell, NaN or NaT. */
  datatype Option<+T> = None | Some(value: T)

  datatype Result<+T, +E> = Ok(value: T) | Err(error: E)
}
