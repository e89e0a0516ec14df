/** Small types shared by the rest of the model. */
module Common {

  /** A value that may be missing. */
  datatype Option<+T> = None | Some(value: T)

  /** A value, or the error (or panic) that ends the Go code instead. */
  datatype Outcome<+T> = Ok(value: T) | Err(reason: string)

  /** A Go `byte`. */
  type Byte = b: int | 0 <= b < 256
}
