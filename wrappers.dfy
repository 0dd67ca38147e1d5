/** Option and Result values for the places where the game code returns None or raises. */
module Wrappers {

  datatype Option<+T> = None | Some(value: T)

  /** `Err` stands for a Python exception (or an HTTP error response) raised by the modelled code. */
  datatype Result<+T, +E> = Ok(value: T) | Err(error: E)
}
