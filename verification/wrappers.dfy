/** Small shared vocabulary: an optional value and the byte type. */
module Wrappers {

  /** A value that may be missing; used for the results of the parsers
      that serve as inverses of the encoders. */
  datatype Option<+T> = None | Some(value: T)

  /** An octet, as fed to the HMAC accumulator. */
  newtype byte = x: int | 0 <= x < 0x100
}
