/** Option and Result values standing in for Python's None and raised exceptions. */
module Wrappers {

  datatype Option<T> = None | Some(value: T)

  /** `Err` is a raised exception; `Ok` a returned value. */
  datatype Result<T, E> = Ok(value: T) | Err(error: E)
}
