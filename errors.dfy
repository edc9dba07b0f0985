/** The failures the modelled steps can raise, and the result type that carries them. */
module Errors {

  /** `ZeroDivision`: the savings ratio divides by an empty file's size.
      `Overflow`: `int.to_bytes(4, ...)` cannot hold the length.
      `CorruptData`: the decompressor rejects its input. */
  datatype Error = ZeroDivision | Overflow | CorruptData

  datatype Result<T> = Ok(value: T) | Err(error: Error)
}
