/** Option and Result values for the lookups and errors of the analysis scripts. */
module Wrappers {

  datatype Option<+T> = None | Some(value: T)

  /** A Python call either returns a value or raises; Failure carries what it raises. */
  datatype Result<+T, +E> = Success(value: T) | Failure(error: E)
}
