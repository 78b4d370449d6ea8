/** Small value types shared by the mail client model. */
module Common {

  /** Python's `None` versus a present value. */
  datatype Option<+T> = None | Some(value: T)

  /** One byte of a file or of a decoded MIME payload. */
  newtype Byte = b: int | 0 <= b < 256

  type Bytes = seq<Byte>

  /** The result of a step that either completes or raises an exception,
      carrying the exception's text. */
  datatype Outcome<+T> = Ok(value: T) | Raised(error: string)
}
