/** Optional values and results with an error, used for the statistics
    snapshot (absent before any upload) and for replies that fail. */
module Wrappers {

  datatype Option<+T> = None | Some(value: T)

  datatype Result<+R, +E> = Ok(value: R) | Err(error: E)
}
