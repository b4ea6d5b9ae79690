/** Fixed-width integers of the driver: Swift's `UInt8` and `Int8`, and the
    bit-pattern conversion `Int8(bitPattern:)` between them. */
module Bytes {

  /** An unsigned byte, as Swift's `UInt8`. */
  newtype UInt8 = b: int | 0 <= b < 256

  /** A signed byte in two's complement, as Swift's `Int8`. */
  newtype Int8 = v: int | -128 <= v < 128

  /** Two signed or unsigned byte values share a bit pattern exactly when
      they are congruent modulo 256. */
  predicate SamePattern(x: int, y: int) {
    (x - y) % 256 == 0
  }

  /** `Int8(bitPattern: b)`: the signed byte whose eight bits are those of `b`. */
  function Int8FromBitPattern(b: UInt8): (v: Int8)
    ensures SamePattern(v as int, b as int)
    ensures v < 0 <==> b >= 128
  {
    if b < 128 then b as int as Int8 else (b as int - 256) as Int8
  }

  /** `UInt8(bitPattern: v)`: the unsigned byte whose eight bits are those of `v`;
      the inverse of `Int8FromBitPattern`. */
  function BitPattern(v: Int8): (b: UInt8)
    ensures SamePattern(v as int, b as int)
    ensures Int8FromBitPattern(b) == v
  {
    if v >= 0 then v as int as UInt8 else (v as int + 256) as UInt8
  }

  /** The conversion loses nothing: reading a byte as signed and back gives the byte. */
  lemma BitPatternRoundTrip(b: UInt8)
    ensures BitPattern(Int8FromBitPattern(b)) == b
  {
  }

  /** Every signed byte sharing a pattern with `b` is `Int8FromBitPattern(b)`:
      the conversion is the only reading of the pattern that fits in -128..127. */
  lemma BitPatternUnique(b: UInt8, w: Int8)
    requires SamePattern(w as int, b as int)
    ensures w == Int8FromBitPattern(b)
  {
  }
}
