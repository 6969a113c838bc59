/** Option and Result, the two failure-carrying types the rest of the model uses. */
module Wrappers {

  datatype Option<+T> = None | Some(value: T)

  /** `Err` carries nothing: where the source raises, only the fact that it raised matters. */
  datatype Result<+T> = Ok(value: T) | Err
}
