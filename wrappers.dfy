/** Absent values and thrown exceptions of the dashboard script, as values. */
module Wrappers {

  /** A value that may be absent (JavaScript `null` / a missing property). */
  datatype Option<T> = None | Some(value: T) {
    function GetOr(default: T): T {
      match this
      case Some(v) => v
      case None => default
    }
  }

  /** The outcome of code that may throw: a value, or an exception that the
      nearest `try`/`catch` turns into an error path. */
  datatype Result<T> = Ok(value: T) | Thrown
}
