/** Bytes as request bodies and audio files hold them, and Go's 64-bit arithmetic. */
module ByteTypes {
  type Byte = n: nat | n < 256

  const MAX_INT64 := 0x7fff_ffff_ffff_ffff

  /** A byte slice or file: Go measures both by a 64-bit length. */
  type Payload = s: seq<Byte> | |s| <= MAX_INT64

  type Int64 = n: int | -MAX_INT64 - 1 <= n <= MAX_INT64

  /** 64-bit wrap-around. */
  function Wrap(n: int): Int64 {
    (n + MAX_INT64 + 1) % (2 * MAX_INT64 + 2) - MAX_INT64 - 1
  }
}
