/** Octets, the unit of the byte stream read by the request decoder and of the
    serialised response. */
module Bytes {

  newtype byte = x: int | 0 <= x < 256

  const LF: byte := 10
  const CR: byte := 13
}
