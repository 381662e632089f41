/** Optional values and the outcome of a step that can throw. */
module Wrappers {
  datatype Option<T> = None | Some(value: T)

  /** The outcome of JavaScript code that either returns a value or throws. */
  datatype Result<T> = Ok(value: T) | Throws
}
