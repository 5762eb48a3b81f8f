/** Failure-carrying results shared by every module of the model. */
module Wrappers {

  datatype Option<+T> = None | Some(value: T)

  /** The Python exceptions the modelled functions raise. */
  datatype Exception =
    | ValueError
    | KeyError
    | IndexError

  /** A value returned, or the exception raised instead. */
  datatype Result<+T> = Ok(value: T) | Raised(exc: Exception)
}
