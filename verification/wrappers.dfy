/** Failure-carrying wrappers used throughout the model. */
module Wrappers {

  /** A value that may be absent; the client's fields that stay unset until negotiation use it. */
  datatype Option<+T> = None | Some(value: T)

  /** Either a value or the fault that prevented computing one. */
  datatype Result<+T, +E> = Success(value: T) | Failure(error: E)
}
