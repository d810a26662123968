/** Option and Result, the two wrappers the model uses for SQL NULLs, absent
    command options and failing calls. */
module Wrappers {

  /** A value that may be missing: a NULL column, an option the user left out. */
  datatype Option<+T> = None | Some(value: T) {

    /** The value, or `default` when there is none. */
    function GetOr(default: T): T {
      match this
      case Some(v) => v
      case None => default
    }
  }

  /** The outcome of a call that can fail with an error of type `E`. */
  datatype Result<+T, +E> = Ok(value: T) | Err(error: E)
}
