// Fixed-width integers of the C sources.  A conversion or an operation that could leave
// the range of its type is a proof obligation, so code that verifies never overflows.
module Ints {
  newtype int32 = x: int | -0x8000_0000 <= x < 0x8000_0000
  newtype int64 = x: int | -0x8000_0000_0000_0000 <= x < 0x8000_0000_0000_0000
  newtype byte = x: int | 0 <= x < 256

  // Little-endian value of a byte string.
  ghost function LE(b: seq<byte>): nat {
    if |b| == 0 then 0 else b[0] as nat + 256 * LE(b[1..])
  }
}
