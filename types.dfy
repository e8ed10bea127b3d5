/** Values shared by every part of the transport model: bytes, optional values,
    results and the errors the backend and the pairing hand back. */
module Types {

  /** An 8-bit byte, as in Go's `[]byte`. */
  newtype byte = x: int | 0 <= x < 256

  /** A value that may be absent; `None` plays the role of Go's `nil`. */
  datatype Option<+T> = None | Some(value: T)

  /** An error value: only its text (Go's `err.Error()`) is observable. */
  datatype Error = Error(text: string)

  /** The outcome of a call that produces a value or fails with an error. */
  datatype Result<+T> = Ok(value: T) | Err(error: Error)
}
