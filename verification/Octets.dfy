/** Bytes, and signed bytes. */
module Octets {
  type byte = n: int | 0 <= n < 256

  /** Wrap to a signed 8-bit number. */
  function SignedByte(n: int): (r: int)
    ensures -128 <= r < 128 && (r - n) % 256 == 0
    ensures -128 <= n < 128 ==> r == n
  {
    (n + 128) % 256 - 128
  }
}
