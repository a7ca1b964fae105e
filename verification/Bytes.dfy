/** The bytes that devices, downloads and files are made of. */
module Bytes {
  newtype byte = b: int | 0 <= b < 256
}
