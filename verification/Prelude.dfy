/** The two wrappers the other modules share: a value that may be absent, and
    an operation that may be refused. */
module Prelude {

  datatype Option<+T> = None | Some(value: T)

  datatype Result<+T, +E> = Ok(value: T) | Err(error: E)
}
