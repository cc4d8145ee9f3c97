/** Types shared by every part of the model. */
module Basics {
  datatype Option<+T> = None | Some(value: T)

  /** A Go call that returns a value and an error: it may also panic. */
  datatype Outcome<+T> = Ok(value: T) | Err | Panic

  type byte = b: int | 0 <= b < 256
  type bytes = seq<byte>
}
