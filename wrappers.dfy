/** Optional values and results with an error, used for the absent request body and for
    the exceptions the search handler lets escape. */
module Wrappers {

  datatype Option<+T> = None | Some(value: T)

  datatype Result<+T, +E> = Ok(value: T) | Err(error: E)
}
