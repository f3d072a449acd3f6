/** Option and Result datatypes shared by every module. */
module Wrappers {

  /** A value that may be absent. */
  datatype Option<+T> = None | Some(value: T)

  /** The outcome of an operation that raises an exception in the original program. */
  datatype Result<+T, +E> = Ok(value: T) | Err(error: E)
}

/** Bytes as Python's `bytes` sees them: integers in 0..255. */
module Bytes {

  type byte = x: int | 0 <= x < 256

  type bytes = seq<byte>
}
