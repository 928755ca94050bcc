/** Small value types shared by every module of the relay model. */
module Types {

  /** One octet of a raw RFC 822 message. */
  newtype Byte = b: int | 0 <= b < 256

  /** A raw byte string, as Python's `bytes`. */
  type Bytes = seq<Byte>

  /** A value that may be absent (Python's `None`). */
  datatype Option<T> = None | Some(value: T)
}
