/** Option and Result, the two failure-carrying types the model uses for Python's
    `None` and for raised exceptions. */
module Wrappers {

  datatype Option<T> = None | Some(value: T) {
    /** The value, or `default` when there is none (Python's `d[k] if k in d else default`). */
    function GetOr(default: T): T {
      if Some? then value else default
    }
  }

  /** `Failure(e)` stands for the exception `e` being raised. */
  datatype Result<T, E> = Success(value: T) | Failure(error: E)
}
