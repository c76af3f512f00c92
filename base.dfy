/** Small value types shared by the whole model. */
module Base {

  /** Python's `None` / a present value. */
  datatype Option<+T> = None | Some(value: T)

  /** A value, or the exception the Python code would raise instead. */
  datatype Result<+T, +E> = Ok(value: T) | Err(error: E)

  /** Image payloads are opaque byte strings. */
  newtype byte = x: int | 0 <= x < 256

  type Bytes = seq<byte>
}
