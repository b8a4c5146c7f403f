/** Small shared vocabulary: optional values, results with an error, and bytes. */
module Common {

  datatype Option<+T> = None | Some(value: T)

  datatype Result<+T, +E> = Ok(value: T) | Err(error: E)

  /** A Go `byte`. */
  newtype byte = x: int | 0 <= x < 256
}
