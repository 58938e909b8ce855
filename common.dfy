/** Small shared datatypes: optional values and the HTTP errors the backend services raise. */
module Common {

  datatype Option<T> = None | Some(value: T)

  /** An `HTTPException`: its status code and its `detail` text. */
  datatype HttpError = HttpError(status: int, detail: string)

  /** The outcome of a service call: a value, or the `HTTPException` it raises. */
  datatype Result<T> = Ok(value: T) | Err(error: HttpError)

  const BadRequest: int := 400
  const NotFound: int := 404
  const InternalServerError: int := 500

  /** Both services look the student up first. */
  const StudentNotFound: HttpError := HttpError(NotFound, "Student not found")

  /** What the server answers when an exception escapes a handler. */
  const Uncaught: HttpError := HttpError(InternalServerError, "Internal Server Error")
}
