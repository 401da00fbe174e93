/** Optional values and the HTTP outcome of a controller action. */
module Wrappers {

  /** A value that may be absent (JavaScript `undefined` or `null`). */
  datatype Option<+T> = None | Some(value: T)

  /** The response a controller action sends: a success value, or one of the
      error statuses the controllers use, each with the message of its JSON body. */
  datatype Outcome<+T> =
    | Ok(value: T)                   // 200 or 201
    | BadRequest(message: string)    // 400
    | Unauthorized(message: string)  // 401
    | Forbidden(message: string)     // 403
    | NotFound(message: string)      // 404
    | ServerError(message: string)   // 500: a rejected database write caught by the handler
  {
    predicate IsError() { !Ok? }
  }

  /** An error response passed on unchanged, as the response of an action
      whose success value has another type. */
  function Reject<T, U>(o: Outcome<T>): (r: Outcome<U>)
    requires o.IsError()
    ensures r.IsError() && r.message == o.message
    ensures r.BadRequest? == o.BadRequest? && r.Unauthorized? == o.Unauthorized?
    ensures r.Forbidden? == o.Forbidden? && r.NotFound? == o.NotFound? && r.ServerError? == o.ServerError?
  {
    if o.BadRequest? then BadRequest(o.message)
    else if o.Unauthorized? then Unauthorized(o.message)
    else if o.Forbidden? then Forbidden(o.message)
    else if o.NotFound? then NotFound(o.message)
    else ServerError(o.message)
  }
}
