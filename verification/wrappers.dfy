/** Failure-carrying datatypes shared by every service of the model.
    `Error` mirrors the exception classes the services throw: the framework's
    NotFound/Conflict/Forbidden/Unauthorized exceptions and a plain `Error`
    carrying only a message. */
module Wrappers {

  datatype Option<+T> = None | Some(value: T)

  datatype Error =
    | NotFound(message: string)
    | Conflict(message: string)
    | Forbidden(message: string)
    | Unauthorized(message: string)
    | Failure(message: string)

  datatype Result<+T> = Ok(value: T) | Err(error: Error)
}
