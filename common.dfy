/** Small shared vocabulary: optional values and bytes. */
module Common {

  /** A value that may be absent (a missing form field, a query that threw). */
  datatype Option<+T> = None | Some(value: T)

  /** One byte of an uploaded file. */
  type Byte = b: int | 0 <= b < 256
}
