/** Value wrappers shared by the whole model: an optional value and the
    outcome of a Python call that either returns or raises. */
module Common {

  datatype Option<+T> = None | Some(value: T)

  /** The Python exceptions the modelled code can let escape. */
  datatype Exception =
    | ValueError(message: string)
    | TypeError
    | IndexError

  /** A Python call either returns a value or raises an exception. */
  datatype Result<+T> = Ok(value: T) | Raise(exc: Exception)
}
