/** Small shared vocabulary: optional values and bytes. */
module Base {

  /** A value that may be absent, standing for JavaScript's `undefined`. */
  datatype Option<T> = None | Some(value: T)

  /** An unsigned 8-bit value, the element type of a `Uint8Array`. */
  type byte = x: int | 0 <= x < 256
}
