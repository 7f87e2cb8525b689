/** Controller outcomes: each failure carries the ids that its error message names. */
module Responses {

  datatype Response<T> =
    | Ok(body: T)
    | Created
    | NoContent
    | ClientNotFound(clientId: int)
    | TripNotFound(tripId: int)
    | AlreadyRegistered(clientId: int, tripId: int)
    | TripFull(tripId: int)
    | NotRegistered(clientId: int, tripId: int)
  {
    /** The HTTP status code of the outcome. */
    function Status(): int
    {
      match this
      case Ok(_) => 200
      case Created => 201
      case NoContent => 204
      case ClientNotFound(_) => 404
      case TripNotFound(_) => 404
      case AlreadyRegistered(_, _) => 409
      case TripFull(_) => 400
      case NotRegistered(_, _) => 400
    }
  }
}
