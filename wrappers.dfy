/** Failure-carrying results shared by the modules of this model. */
module Wrappers {

  datatype Option<+T> = None | Some(value: T)

  /** The Python exceptions the modelled code can raise. */
  datatype PyError =
    | IndexError            // a list index or subscript out of range
    | KeyError(key: string) // a column missing from a data frame
    | ValueError            // int() or datetime() rejecting its arguments

  datatype Result<+T> = Success(value: T) | Failure(error: PyError)
}
