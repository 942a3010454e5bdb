/** The two result shapes the decoder's Rust signatures use: `Option` for
    "a message, or not yet", and `Result` for "a value, or an error". */
module Wrappers {

  datatype Option<+T> = None | Some(value: T)

  datatype Result<+T, +E> = Success(value: T) | Failure(error: E)
}
