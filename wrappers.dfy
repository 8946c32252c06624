/** Optional values and results: JavaScript's `null`/`undefined` and thrown errors. */
module Wrappers {

  /** A value that may be absent (`null` or `undefined` in the scraper). */
  datatype Option<+T> = None | Some(value: T) {

    /** The nullish-coalescing operator `x ?? fallback`. */
    function GetOr(fallback: T): T {
      match this
      case Some(v) => v
      case None => fallback
    }
  }

  /** The outcome of an operation that may throw. */
  datatype Result<+T, +E> = Ok(value: T) | Err(error: E)
}
