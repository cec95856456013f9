/** Option and Result types used for the Python code's `None` returns and raised exceptions. */
module Wrappers {

  datatype Option<+T> = None | Some(value: T)

  /** The one exception the codec raises: indexing `[1]` into a `split` that found no separator. */
  datatype Error = IndexError

  datatype Result<+T> = Ok(value: T) | Err(error: Error)
}
