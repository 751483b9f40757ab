/** Option and Result values shared by the handlers. */
module Wrappers {

  datatype Option<+T> = None | Some(value: T) {
    /** The wrapped value, or `default` when there is none. */
    function GetOr(default: T): T {
      match this
      case Some(v) => v
      case None => default
    }
  }

  /** Outcome of a step that can fail with an error message or an early response. */
  datatype Result<+T, +E> = Ok(value: T) | Err(error: E)
}
