/** Small value types shared by every module of the model. */
module Common {

  /** An optional value: Rust's `Option<T>`. */
  datatype Option<+T> = None | Some(value: T)

  /** A value or an error: the model's stand-in for a `panic!` or an `unwrap` that fails. */
  datatype Result<+T, +E> = Success(value: T) | Failure(error: E)

  /** An unsigned 8-bit value: Rust's `u8`. */
  newtype byte = b: int | 0 <= b < 256
}
