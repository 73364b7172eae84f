/** Small value types shared by the model: optional values, two-armed
    results, bytes and the 32-bit exit code of a process. */
module Base {

  datatype Option<+T> = None | Some(value: T)

  datatype Result<+T, +E> = Ok(value: T) | Err(error: E)

  /** An octet, as read from a file or produced by UTF-8 encoding. */
  newtype byte = x: int | 0 <= x < 256

  /** A signed 32-bit integer, the type of a process exit code. */
  newtype i32 = x: int | -0x8000_0000 <= x < 0x8000_0000
}
