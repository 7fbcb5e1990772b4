/** The action results the controllers return, reduced to status and body. */
module Http {
  datatype ActionResult<T> =
    | Ok(value: T)              // 200 with a body (or none, for T = ())
    | Created(value: T)         // 201 CreatedAtAction with the created entity
    | NoContent                 // 204
    | NotFound                  // 404
    | BadRequest(message: string)    // 400 { message }
    | Unauthorized(message: string)  // 401 { message }
}
