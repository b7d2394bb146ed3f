/** Option and Result, the two shapes in which the modelled Go functions
    report "no value" and "value or error". */
module Wrappers {
  datatype Option<+T> = None | Some(value: T)

  datatype Result<+T, +E> = Ok(value: T) | Err(error: E)
}
