/** Option and Result, used for the regex matches that can fail and for the
    exceptions the unpacker throws. */
module Wrappers {

  datatype Option<+T> = None | Some(value: T)

  datatype Result<+T, +E> = Ok(value: T) | Err(error: E)
}
