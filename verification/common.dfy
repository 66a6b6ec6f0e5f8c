/** Shared vocabulary of the blog backend model: optional values (JSON fields
    that may be absent or null) and the HTTP outcome of a request handler. */
module Common {

  /** A value that may be missing: an absent JSON field, a null column. */
  datatype Option<+T> = None | Some(value: T)

  /** What a handler answers, one constructor per HTTP status: `Ok` is 200
      and `Created` 201, both carrying the response payload; `BadRequest`
      400, `Unauthorized` 401, `Forbidden` 403, `NotFound` 404, `Conflict`
      409. The error statuses carry nothing, since the model only
      distinguishes them by their code. `ServerError` (500) is what Flask
      answers when a handler raises. */
  datatype Outcome<+T> =
    | Ok(value: T)
    | Created(value: T)
    | BadRequest
    | Unauthorized
    | Forbidden
    | NotFound
    | Conflict
    | ServerError
}
