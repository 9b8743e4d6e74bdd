/** Optional values and error outcomes, in place of JavaScript's `undefined` and thrown errors. */
module Wrappers {

  /** A value that may be absent; `Some("")` and `None` are distinct. */
  datatype Option<+T> = None | Some(value: T)

  /** The outcome of an operation that can fail with a message instead of throwing. */
  datatype Result<+T> = Ok(value: T) | Err(error: string)
}
