/** Option and Result datatypes and the Python exceptions the modelled code can raise. */
module Wrappers {

  datatype Option<+T> = None | Some(value: T)

  datatype Result<+R, +E> = Success(value: R) | Failure(error: E)

  /** The exceptions the modelled Python functions raise on bad input. */
  datatype Exception =
    | ValueError(message: string)
    | IndexError
    | KeyError(key: string)
    | NetworkXError
}
