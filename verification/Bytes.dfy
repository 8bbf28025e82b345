/** Octets, and the 32-bit signed int of the C code. */
module Bytes {
  import opened Bits

  type byte = x: int | 0 <= x < 256

  newtype int32 = x: int | -0x8000_0000 <= x < 0x8000_0000

  const INT_MAX: int := 0x7fff_ffff

  /** The word of four octets, least significant first. */
  function WordOf(k0: byte, k1: byte, k2: byte, k3: byte): word {
    k0 + 0x100 * k1 + 0x1_0000 * k2 + 0x100_0000 * k3
  }

  /** strcmp of strings without their terminating zeros: the difference at the first place where they differ, the
      shorter one ending in a zero there. */
  function StrCmp(a: seq<byte>, b: seq<byte>): int {
    if a == [] && b == [] then 0
    else if a == [] then -(b[0] as int)
    else if b == [] then a[0]
    else if a[0] != b[0] then a[0] - b[0]
    else StrCmp(a[1..], b[1..])
  }
}
