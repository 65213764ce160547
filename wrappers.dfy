/** Option and Result, used wherever the journal pages fall back to a
    default value or give up with an error message. */
module Wrappers {

  datatype Option<+T> = None | Some(value: T)

  datatype Result<+R, +E> = Ok(value: R) | Err(error: E)

  /** Bytes as the blob store hands them out. */
  newtype byte = x: int | 0 <= x < 256

  type Bytes = seq<byte>
}
