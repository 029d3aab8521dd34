/** Option and Result values, used where the Python code returns None or raises. */
module Wrappers {

  datatype Option<+T> = None | Some(value: T)

  /** `Ok(value)` is a normal return; `Err(error)` stands for a raised exception. */
  datatype Result<+T, +E> = Ok(value: T) | Err(error: E)
}
