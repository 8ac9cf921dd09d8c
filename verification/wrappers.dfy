/** Option and result wrappers used by the model: an optional value (a Cypher
    `null` or a Python `None`) and a success-or-error result (a raised exception). */
module Wrappers {

  datatype Option<+T> = None | Some(value: T) {
    /** The value, or `default` when absent (Cypher `coalesce(x, default)`). */
    function GetOr(default: T): T {
      match this
      case Some(v) => v
      case None => default
    }
  }

  datatype Result<+T, +E> = Success(value: T) | Failure(error: E)
}
