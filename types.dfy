/** Value types shared by the model: the C sources' fixed-width integers and
    the little-endian words they read straight out of byte buffers. */
module Types {

  datatype Option<+T> = None | Some(value: T)

  const U32Modulus: int := 0x1_0000_0000
  const U64Modulus: int := 0x1_0000_0000_0000_0000

  /** C's `u32`. */
  type U32 = x: int | 0 <= x < 0x1_0000_0000

  /** C's `u64`. */
  type U64 = x: int | 0 <= x < 0x1_0000_0000_0000_0000

  /** A `u32` sum or product as the hardware computes it: modulo 2^32. */
  function Wrap32(x: nat): U32
  {
    x % U32Modulus
  }

  /** The little-endian 32-bit word stored at `b[off..off + 4]` (how the ARM9
      reads a `u32` field of a structure laid over a byte buffer). */
  function LE32(b: seq<bv8>, off: nat): (r: U32)
    requires off + 4 <= |b|
    ensures r % 0x100 == b[off] as int
  {
    b[off] as int + 0x100 * b[off + 1] as int + 0x1_0000 * b[off + 2] as int + 0x100_0000 * b[off + 3] as int
  }
}
