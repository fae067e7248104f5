/** Types that several parts share. */
module Wrappers {
  /** A value that may be missing: an absent file, a failed decoding, no result. */
  datatype Option<+T> = None | Some(value: T)

  newtype byte = x: int | 0 <= x < 256
}
