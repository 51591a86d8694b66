/** Small value wrappers shared by every module of the model. */
module Wrappers {

  /** A value that may be missing: JavaScript's `undefined`/`null`, or SQL NULL. */
  datatype Option<+T> = None | Some(value: T) {
    function GetOr(default: T): T {
      match this
      case Some(v) => v
      case None => default
    }
  }

  /** The outcome of an HTTP handler: a success status with a body, or an error status
      with the `error` message the handler puts in its JSON reply. */
  datatype Response<+T> = Success(status: int, body: T) | Failure(status: int, error: string)

  /** The outcome of a service call: a value, or the message of the error it throws. */
  datatype Result<+T> = Ok(value: T) | Err(message: string)
}
