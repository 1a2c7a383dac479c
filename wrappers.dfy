/** Option and Result values: the model's stand-ins for Python's `None` and for
    an operation that either returns a value or raises. */
module Wrappers {

  datatype Option<+T> = None | Some(value: T) {
    /** The wrapped value, or `default` when there is none (`dict.get(k, default)`). */
    function GetOr(default: T): T {
      match this
      case Some(v) => v
      case None => default
    }
  }

  /** `Ok(value)` is a normal return, `Err(error)` an exception that propagates. */
  datatype Result<+T, +E> = Ok(value: T) | Err(error: E)
}
