/** Outcome types shared by the decoder and the encoder. */
module EaResult {

  /** An optional value: a C pointer that may be null. */
  datatype Option<+T> = None | Some(value: T)

  /**
   * The outcome of reading a chained EA buffer: either a value, or
   * `Malformed` when a read would leave the buffer.
   */
  datatype Result<+T> = Ok(value: T) | Malformed
}
