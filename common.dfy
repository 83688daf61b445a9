/** Failure-compatible wrappers shared by every module of the model. */
module Common {

  /** A value that may be absent: JavaScript's `null`/`undefined` results. */
  datatype Option<T> = None | Some(value: T) {
    function GetOr(default: T): T {
      if Some? then value else default
    }
  }

  /** The outcome of an operation that either completes or throws an error. */
  datatype Outcome<E> = Pass | Fail(error: E)
}
