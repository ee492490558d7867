/** Optional values and the one exception the core can raise. */
module Wrappers {

  /** Python's `None` or a value. */
  datatype Option<+T> = None | Some(value: T)

  /** The exception the word-ladder core raises: a dictionary or set lookup of a missing key. */
  datatype Error = KeyError(key: string)

  /** A normal return or a raised exception. */
  datatype Result<+T> = Ok(value: T) | Err(error: Error)
}
