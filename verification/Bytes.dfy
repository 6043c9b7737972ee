/** Bytes, as the C sources see them. */
module Bytes {
  type byte = x: int | 0 <= x < 256
}
