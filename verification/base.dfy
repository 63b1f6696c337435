/** Failure-carrying wrappers shared by the whole model. */
module Base {

  /** A value that may be absent. */
  datatype Option<+T> = None | Some(value: T)

  /** Either a value or the reason the computation was abandoned. */
  datatype Result<+T, +E> = Success(value: T) | Failure(error: E)
}
