/** Failure-carrying values: the Python scripts raise exceptions; the model returns these. */
module Wrappers {

  datatype Option<+T> = None | Some(value: T)

  datatype Result<+T, +E> = Ok(value: T) | Err(error: E)
}
