// Option and Result, the two wrappers the rest of the model uses for the
// C code's null pointers, sentinel returns and fatal errors, and the byte
// type of every char and uint8_t buffer.
module Wrappers {
  type byte = bv8

  datatype Option<T> = None | Some(value: T)

  datatype Result<T, E> = Ok(value: T) | Err(error: E)
}
