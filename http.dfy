/** What a route handler sends back: a status and either a JSON body or `{ error: message }`. */
module Http {

  datatype Outcome<+T> =
    | Ok(body: T)               // 200
    | Created(body: T)          // 201
    | BadRequest(error: string) // 400
    | Unauthorized(error: string) // 401
    | NotFound(error: string)   // 404
  {
    function Status(): int {
      match this
      case Ok(_) => 200
      case Created(_) => 201
      case BadRequest(_) => 400
      case Unauthorized(_) => 401
      case NotFound(_) => 404
    }
  }
}
