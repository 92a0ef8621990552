/** Nullable values and the service layer's exceptions. */
module Wrappers {

  /** A Java reference that may be null. */
  datatype Option<+T> = None | Some(value: T)

  /**
   * The three exception classes the services throw; each carries the
   * message the service passes to it.
   */
  datatype Error =
    | NotFound(message: string)     // ResourceNotFoundException
    | BadRequest(message: string)   // BadRequestException
    | Forbidden(message: string)    // ForbiddenException

  /** A service call either returns its value or throws one of the exceptions above. */
  datatype Result<+T> = Success(value: T) | Failure(error: Error)
}
