/** Go's fixed-width integer types and the conversions between them that the
    leaf codec relies on.  Dafny integers are unbounded, so every wrap-around,
    sign extension and truncation of the Go code is written out here. */
module GoInts {

  const TwoPow30: int := 0x4000_0000
  const TwoPow31: int := 0x8000_0000
  const TwoPow32: int := 0x1_0000_0000
  const TwoPow63: int := 0x8000_0000_0000_0000
  const TwoPow64: int := 0x1_0000_0000_0000_0000

  type byte = x: int | 0 <= x < 0x100
  type uint32 = x: int | 0 <= x < 0x1_0000_0000
  type uint64 = x: int | 0 <= x < 0x1_0000_0000_0000_0000
  type int32 = x: int | -0x8000_0000 <= x < 0x8000_0000
  type int64 = x: int | -0x8000_0000_0000_0000 <= x < 0x8000_0000_0000_0000

  /** A Go byte slice: `len` is a non-negative `int`, so shorter than 2^63. */
  type GoBytes = s: seq<byte> | |s| < 0x8000_0000_0000_0000

  /** Reduces an integer to int32 by keeping its low 32 bits (two's complement). */
  function WrapInt32(v: int): (r: int32)
    ensures (r - v) % TwoPow32 == 0
    ensures -TwoPow31 <= v < TwoPow31 ==> r == v
  {
    (v + TwoPow31) % TwoPow32 - TwoPow31
  }

  /** `x << 1` on an int32. */
  function ShiftLeft1Int32(x: int32): int32
  {
    WrapInt32(2 * x)
  }

  /** `x | 1` on an int32: bit 0 is the parity bit in two's complement. */
  function OrOneInt32(x: int32): (r: int32)
    ensures r % 2 == 1
    ensures x % 2 == 0 ==> r == x + 1
    ensures x % 2 == 1 ==> r == x
  {
    if x % 2 == 0 then x + 1 else x
  }

  /** `uint64(x)` for an int32 `x`: sign extension, then reinterpretation. */
  function Uint64OfInt32(x: int32): uint64
  {
    if x < 0 then x + TwoPow64 else x
  }

  /** `uint64(x)` for an int64 `x`: reinterpretation of the same 64 bits. */
  function Uint64OfInt64(x: int64): uint64
  {
    if x < 0 then x + TwoPow64 else x
  }

  /** `int32(u)` for a uint64 `u`: keeps the low 32 bits, read as signed. */
  function Int32OfUint64(u: uint64): int32
  {
    var low := u % TwoPow32;
    if low >= TwoPow31 then low - TwoPow32 else low
  }

  /** `int64(u)` for a uint64 `u`: the same 64 bits, read as signed. */
  function Int64OfUint64(u: uint64): int64
  {
    if u >= TwoPow63 then u - TwoPow64 else u
  }

  /** `uint32(u)` for a uint64 `u` (or a non-negative Go `int`): keeps the low 32 bits. */
  function Uint32OfUint64(u: nat): uint32
  {
    u % TwoPow32
  }

  /** Sign-extending an int32 to 64 bits and truncating back to 32 gives it back. */
  lemma Int32CastRoundTrip(x: int32)
    ensures Int32OfUint64(Uint64OfInt32(x)) == x
  {
    if x < 0 {
      assert x + TwoPow64 == (x + TwoPow32) + (TwoPow32 - 1) * TwoPow32;
      assert (x + TwoPow64) % TwoPow32 == x + TwoPow32;
    }
  }

  /** The int64/uint64 reinterpretation is a bijection, in both directions. */
  lemma Int64CastBijection(x: int64, u: uint64)
    ensures Int64OfUint64(Uint64OfInt64(x)) == x
    ensures Uint64OfInt64(Int64OfUint64(u)) == u
  {
  }

  /** Widening a uint32 to uint64 and truncating it back is the identity. */
  lemma Uint32CastRoundTrip(x: uint32)
    ensures Uint32OfUint64(x) == x
  {
  }

  /** An int32 header code read back from a uint64 only depends on its low 32 bits. */
  lemma Int32OfUint64LowBits(u: uint64, k: nat)
    requires u + k * TwoPow32 < TwoPow64
    ensures Int32OfUint64(u + k * TwoPow32) == Int32OfUint64(u)
  {
    assert (u + k * TwoPow32) % TwoPow32 == u % TwoPow32;
  }
}
