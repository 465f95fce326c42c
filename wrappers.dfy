/** Option and Result values shared by every module of the model. */
module Wrappers {

  /** A JavaScript or Python value that may be absent (`undefined`, `null`, `None`). */
  datatype Option<+T> = None | Some(value: T)

  /** The outcome of an operation that can fail with an error of type `E`. */
  datatype Result<+T, +E> = Ok(value: T) | Err(error: E)
}
