/** Option and Result values for the nil pointers and (value, error) pairs of the modelled code. */
module Wrappers {

  /** A value that may be absent: Go's nil pointer or Python's None. */
  datatype Option<+T> = None | Some(value: T)

  /** The outcome of a Go function returning (value, error). */
  datatype Result<+T> = Ok(value: T) | Err(message: string)
}
