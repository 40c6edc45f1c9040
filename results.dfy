/** Optional values and the error outcomes the services raise (NestJS HTTP exceptions). */
module Results {

  datatype Option<+T> = None | Some(value: T)

  /** The exception a service operation ends with; `message` is the text handed to the exception. */
  datatype Error =
    | NotFound(message: string)       // NotFoundException
    | BadRequest(message: string)     // BadRequestException
    | Unauthorized(message: string)   // UnauthorizedException
    | NullReference                   // a TypeError from dereferencing a missing relation

  datatype Result<+T> = Ok(value: T) | Err(error: Error)

  /** `value` if the patch carries the key, else the current value: one key of Object.assign. */
  function Override<T>(patch: Option<T>, current: T): T
  {
    if patch.Some? then patch.value else current
  }
}
