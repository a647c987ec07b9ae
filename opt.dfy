/** Optional values and error-or-value results, standing in for Python's `None`
    and for the `ValueError`/`IndexError` raised by the router. */
module Opt {

  datatype Option<+T> = None | Some(value: T) {
    /** `x if x is not None else default` */
    function GetOr(default: T): T {
      if Some? then value else default
    }
  }

  /** A computation that either returns a value or raises an error with a message. */
  datatype Result<+T> = Success(value: T) | Failure(error: string)
}
