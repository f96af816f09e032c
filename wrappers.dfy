/** Option and Result, the two failure-carrying datatypes the model uses in place of
    Go's nil pointers and (value, error) pairs. */
module Wrappers {

  /** A value that may be absent: a Go pointer that may be nil. */
  datatype Option<T> = None | Some(value: T) {
    /** The value, or `default` when there is none. */
    function GetOr(default: T): T {
      if Some? then value else default
    }
  }

  /** Either a value or the error that replaced it. */
  datatype Result<T, E> = Ok(value: T) | Err(error: E)
}
