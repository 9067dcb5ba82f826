/** Failure-carrying results shared by every module of the model. */
module Wrappers {

  datatype Option<+T> = None | Some(value: T)

  /** A Go `(value, error)` pair where the error is a message; a Go panic is
      also modelled as a Failure, since both stop the caller. */
  datatype Result<+T> = Success(value: T) | Failure(error: string)
}
