/** Exceptions the Python code can raise, and the result wrappers that carry them. */
module Errors {

  /** The Python / NumPy exception classes the modelled code can end in. */
  datatype PyError =
    | ValueError   // int() of a malformed token, a negative array dimension
    | IndexError   // a list, string or array index out of range
    | KeyError     // a dictionary lookup of a missing key
    | LinAlgError  // numpy.linalg.solve on a singular or non-square matrix

  datatype Option<+T> = None | Some(value: T)

  /** A value, or the exception that ended the computation. */
  datatype Result<+T> = Ok(value: T) | Err(error: PyError)
}
