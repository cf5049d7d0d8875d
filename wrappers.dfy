/** Optional values and results with an error, used for the indexer's
    answers (a call either succeeds with a payload or fails). */
module Wrappers {

  datatype Option<+T> = None | Some(value: T)

  datatype Result<+T, +E> = Ok(value: T) | Err(error: E)
}
