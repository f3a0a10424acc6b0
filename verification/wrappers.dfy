/** Optional values and success-or-error results, shared by the frontend and
    backend models. */
module Wrappers {

  /** A value that may be absent: `undefined` in TypeScript, `None` in Python. */
  datatype Option<+T> = None | Some(value: T)

  /** The outcome of a request handler: a response body or an HTTP error. */
  datatype Result<+R, +E> = Ok(value: R) | Err(error: E)
}
