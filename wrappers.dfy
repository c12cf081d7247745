/** Option and Result values standing for Python's `None` and for the
    exceptions the modelled code raises or catches. */
module Wrappers {

  datatype Option<+T> = None | Some(value: T)

  /** The Python exception classes that the modelled code raises. */
  datatype PyError =
    | IndexError
    | KeyError
    | ValueError
    | TypeError
    | AttributeError
    | UnboundLocalError
    | RuntimeError

  datatype Result<+T> = Ok(value: T) | Err(error: PyError)
}
