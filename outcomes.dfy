/** Values shared by every handler of the church backend: optional values and the
    outcome of an HTTP handler, which either returns a value or raises an
    HTTPException with a status code and a detail message. */
module Outcomes {

  datatype Option<+T> = None | Some(value: T)

  /** `Err` stands for an `HTTPException(status_code, detail)` reaching the client, or
      for FastAPI's own answer when the handler (or request validation) fails first. */
  datatype Outcome<+T> = Ok(value: T) | Err(status: int, detail: string)

  /** One field of a partial update built with `exclude_unset=True`: a field the request
      leaves out is kept, a field it carries is written. */
  datatype Patch<+T> = Keep | Put(value: T)

  function Apply<T>(p: Patch<T>, current: T): (r: T)
    ensures p.Keep? ==> r == current
    ensures p.Put? ==> r == p.value
  {
    if p.Put? then p.value else current
  }

  const BadRequest := 400
  const Unauthorized := 401
  const Forbidden := 403
  const NotFound := 404
  /** FastAPI's answer when the request body, a query or a path parameter fails validation. */
  const Unprocessable := 422
  /** FastAPI's answer when a handler raises something that is not an HTTPException. */
  const InternalError := 500
  const ServerErrorDetail := "Internal Server Error"
  const ValidationDetail := "Validation error"
}
