/** The unit every view is made of: an unsigned 8-bit integer (Rust's `u8`). */
module Bytes {

  newtype byte = x: int | 0 <= x < 0x100
}
