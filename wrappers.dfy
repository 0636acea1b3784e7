/** Missing values and raised exceptions.
    A pandas NaN (or Python None) becomes `None`; a raised exception becomes `Err`. */
module Wrappers {

  datatype Option<+T> = None | Some(value: T)

  /** The Python exception classes the modelled code raises. */
  datatype Error = TypeError | ValueError | KeyError | IndexError

  datatype Result<+T> = Ok(value: T) | Err(error: Error)
}
