/** Shared result shapes: the exceptions the modelled code raises and the
    HTTP responses its controllers return. */
module Base {

  datatype Option<+T> = None | Some(value: T)

  /** The exception types the modelled code throws or catches. */
  datatype Exception =
    | ArgumentException(message: string)
    | InvalidOperationException(message: string)
    | DbUpdateException(message: string)

  datatype Result<+T> = Success(value: T) | Failure(error: Exception)

  /** What a controller action returns. `ServerError` stands for an exception
      that escapes the action (ASP.NET Core turns it into a 500). */
  datatype Response<+T> =
    | Ok(body: T)
    | NoContent
    | NotFound(message: string)
    | BadRequest(message: string)
    | Forbid
    | ServerError(message: string)

  /** Title of the 400 response that ASP.NET Core's automatic model
      validation produces before an action body runs. */
  const ValidationFailedMessage := "One or more validation errors occurred."
}
