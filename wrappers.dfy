/** Failure-carrying datatypes shared by the other modules. */
module Wrappers {

  /** A value that may be absent: the model of a regex search that found nothing. */
  datatype Option<+T> = None | Some(value: T)

  /** A value or an error: the model of a computation that can end the program. */
  datatype Result<+T, +E> = Success(value: T) | Failure(error: E)
}
