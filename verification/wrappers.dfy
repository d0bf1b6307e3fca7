/** Optional values and the HTTP statuses the controllers answer with. */
module Wrappers {

  datatype Option<+T> = None | Some(value: T) {
    function GetOr(default: T): T {
      match this
      case Some(v) => v
      case None => default
    }
  }

  /**
   * A permitted request parameter: absent from the request, sent as JSON
   * `null`, or given a value.  `permit` keeps a `null`, so `update` writes
   * nil to the column.
   */
  datatype Param<+T> = Absent | Null | Given(value: T) {
    /** The column `update` leaves: an absent parameter keeps it, `null` clears it. */
    function Over(current: Option<T>): Option<T> {
      match this
      case Absent => current
      case Null => None
      case Given(v) => Some(v)
    }
  }

  /** `after` is what `update` with parameter `p` makes of the column `before`. */
  predicate Applied<T(==)>(p: Param<T>, before: Option<T>, after: Option<T>) {
    && (p.Absent? ==> after == before)
    && (p.Null? ==> after.None?)
    && (p.Given? ==> after == Some(p.value))
  }

  /** The statuses rendered by the API controllers (Rails' symbolic names). */
  datatype Status =
    | Ok                  // 200
    | Created             // 201
    | NoContent           // 204
    | BadRequest          // 400
    | Unauthorized        // 401
    | Forbidden           // 403
    | NotFound            // 404
    | UnprocessableEntity // 422
}
