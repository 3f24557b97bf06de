/** Shared vocabulary: octets and an optional value for partial decoders. */
module Common {

  /** An octet, as held in a Node `Buffer`. */
  type byte = x: int | 0 <= x < 256

  /** The result of a decoder that may reject its input. */
  datatype Option<+T> = None | Some(value: T)
}
