/** Optional values and the two-valued results Go functions return. */
module Outcomes {
  datatype Option<+T> = None | Some(value: T)

  /** A value, or an error whose text is not modelled. */
  datatype Result<+T, +E> = Ok(value: T) | Err(error: E)
}
