/** Wrappers shared by the modules of the graph builder. */
module Wrappers {

  /** A value that may be absent: a dictionary key that is not there. */
  datatype Option<T> = None | Some(value: T)

  /** Either a value or the error that Python would raise instead. */
  datatype Result<T, E> = Success(value: T) | Failure(error: E)
}
