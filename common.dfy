/** Types shared by every part of the relay model. */
module Common {

  /** An unsigned 8-bit value: the element type of every buffer (`u8`). */
  newtype byte = b: int | 0 <= b < 0x100

  /** An optional value (`Option<T>`). */
  datatype Option<+T> = None | Some(value: T) {
    /** The carried value, or `default` when there is none (`unwrap_or`). */
    function GetOr(default: T): T {
      if Some? then value else default
    }
  }

  /** The outcome of an operation that can fail (`Result<T, E>`). */
  datatype Result<+T, +E> = Ok(value: T) | Err(error: E)

  /** An I/O error (`std::io::Error`); its kind and message are not modelled. */
  datatype IoError = IoError
}
