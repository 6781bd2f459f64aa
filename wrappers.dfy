/** Option, Result and Outcome values, used where the source returns
    `Option<T>`, `Result<T>` or aborts a conversion. */
module Wrappers {

  datatype Option<+T> = None | Some(value: T) {
    function Map<U>(f: T -> U): Option<U> {
      match this
      case None => None
      case Some(v) => Some(f(v))
    }
  }

  datatype Result<+T, +E> = Ok(value: T) | Err(error: E)

  /** The outcome of a whole conversion pass: it commits, or it aborts. */
  datatype Outcome<+E> = Pass | Fail(error: E)
}
