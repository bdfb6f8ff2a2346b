/** The Option and Result datatypes shared by the model. */
module Wrappers {

  /** An optional value, used for a node attribute that may be absent. */
  datatype Option<T> = None | Some(value: T)

  /** A value or the error that Python would have raised instead. */
  datatype Result<T, E> = Ok(value: T) | Err(error: E)
}
