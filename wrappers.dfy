/** Option and Result values, and the Python exception classes the modelled code raises. */
module Wrappers {
  datatype Option<T> = None | Some(value: T)

  /** The exception class a Python function would raise, with a short reason. */
  datatype Error =
    | ValueError(reason: string)
    | IndexError(reason: string)
    | KeyError(reason: string)
    | TypeError(reason: string)

  datatype Result<T> = Ok(value: T) | Err(error: Error)
}
