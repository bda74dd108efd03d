/** Machine words and the byte-level helpers shared by the components. */
module Words {

  type byte = x: int | 0 <= x < 0x100

  type u32 = x: int | 0 <= x < 0x1_0000_0000

  function Min(a: int, b: int): int { if a <= b then a else b }

  /** Big-endian value of the four bytes of b starting at off. */
  function Be32(b: seq<byte>, off: nat): (r: int)
    requires off + 4 <= |b|
    ensures 0 <= r < 0x1_0000_0000
  {
    (b[off] as int) * 0x100_0000 + (b[off + 1] as int) * 0x1_0000 + (b[off + 2] as int) * 0x100 + b[off + 3] as int
  }

  /** Big-endian encoding of a 32-bit value. */
  function ToBe32(x: u32): (r: seq<byte>)
    ensures |r| == 4
  {
    [x / 0x100_0000, x / 0x1_0000 % 0x100, x / 0x100 % 0x100, x % 0x100]
  }

  lemma Be32RoundTrip(x: u32)
    ensures Be32(ToBe32(x), 0) == x
  {
    assert x / 0x1_0000 == x / 0x100 / 0x100;
    assert x / 0x100_0000 == x / 0x100 / 0x100 / 0x100;
  }
}
