/** Fixed-width unsigned integers of the modelled code, and their
    little-endian byte encodings. */
module Ints {

  type uint8 = x: int | 0 <= x < 0x100
  type uint16 = x: int | 0 <= x < 0x1_0000
  type uint32 = x: int | 0 <= x < 0x1_0000_0000
  type uint64 = x: int | 0 <= x < 0x1_0000_0000_0000_0000

  const U32_MAX: uint32 := 0xFFFF_FFFF

  /** `a.saturating_add(b)` on `u32`. */
  function SaturatingAdd32(a: uint32, b: uint32): (r: uint32)
    ensures r == if a + b <= U32_MAX then a + b else U32_MAX
    ensures a <= r && b <= r
  {
    if a + b <= U32_MAX then a + b else U32_MAX
  }

  function Max32(a: uint32, b: uint32): uint32 {
    if a < b then b else a
  }

  /** Value of two bytes read as a little-endian `u16`. */
  function LeU16(b0: uint8, b1: uint8): uint16 {
    b0 + 0x100 * b1
  }

  /** Value of four bytes read as a little-endian `u32`. */
  function LeU32(b0: uint8, b1: uint8, b2: uint8, b3: uint8): uint32 {
    b0 + 0x100 * b1 + 0x1_0000 * b2 + 0x100_0000 * b3
  }

  /** The `u32::to_le_bytes` encoding. */
  function U32ToLe(v: uint32): (r: seq<uint8>)
    ensures |r| == 4
    ensures LeU32(r[0], r[1], r[2], r[3]) == v
  {
    var q1 := v / 0x100;
    var q2 := q1 / 0x100;
    var q3 := q2 / 0x100;
    assert v == v % 0x100 + 0x100 * q1;
    assert q1 == q1 % 0x100 + 0x100 * q2;
    assert q2 == q2 % 0x100 + 0x100 * q3;
    [v % 0x100, q1 % 0x100, q2 % 0x100, q3]
  }

  /** The `u16::to_le_bytes` encoding. */
  function U16ToLe(v: uint16): (r: seq<uint8>)
    ensures |r| == 2
    ensures LeU16(r[0], r[1]) == v
  {
    [v % 0x100, v / 0x100]
  }

  /** Reading four bytes as a little-endian `u32` and writing the value back
      gives the same bytes. */
  lemma LeU32Encodes(b0: uint8, b1: uint8, b2: uint8, b3: uint8)
    ensures U32ToLe(LeU32(b0, b1, b2, b3)) == [b0, b1, b2, b3]
  {
    var v := LeU32(b0, b1, b2, b3);
    var q1 := b1 + 0x100 * b2 + 0x1_0000 * b3;
    var q2 := b2 + 0x100 * b3;
    assert v == b0 + 0x100 * q1;
    assert v / 0x100 == q1 && v % 0x100 == b0;
    assert q1 == b1 + 0x100 * q2;
    assert q1 / 0x100 == q2 && q1 % 0x100 == b1;
    assert q2 / 0x100 == b3 && q2 % 0x100 == b2;
  }
}
