/**
 The small vocabulary shared by every view: an optional value (a missing
 request field, a null column) and the outcome of a view, either a body or
 an HTTP error status with its message. Status codes are plain integers.
 */
module Common {

  datatype Option<+T> = None | Some(value: T)

  /** What a view answers: a body, or an error status with its message. */
  datatype Response<+T> = Ok(value: T) | Error(status: int, message: string)

  const Success := 200
  const BadRequest := 400
  const Forbidden := 403
  const NotFound := 404
  /** An exception escaping the view (KeyError, UnboundLocalError, ...). */
  const ServerError := 500
}
