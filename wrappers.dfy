/** Optional values and results with an error, used for the header value that may be
    absent and for the Java exceptions that end a request early. */
module Wrappers {

  datatype Option<+T> = None | Some(value: T)

  datatype Result<+T, +E> = Ok(value: T) | Err(error: E)
}
