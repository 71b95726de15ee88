/** Bytes and little-endian words. */
module Bytes {

  type byte = x: int | 0 <= x < 0x100
  type u16 = x: int | 0 <= x < 0x1_0000
  type u32 = x: int | 0 <= x < 0x1_0000_0000

  function LE16(w: u16): (b: seq<byte>)
    ensures |b| == 2
  {
    [w % 0x100, w / 0x100]
  }

  function LE32(w: u32): (b: seq<byte>)
    ensures |b| == 4
  {
    [w % 0x100, w / 0x100 % 0x100, w / 0x100 / 0x100 % 0x100, w / 0x100 / 0x100 / 0x100]
  }

  /** The word stored at a position of a byte string. */
  function U16At(b: seq<byte>, pos: nat): u16
    requires pos + 2 <= |b|
  {
    b[pos] as int + 0x100 * (b[pos + 1] as int)
  }

  function U32At(b: seq<byte>, pos: nat): u32
    requires pos + 4 <= |b|
  {
    b[pos] as int + 0x100 * (b[pos + 1] as int + 0x100 * (b[pos + 2] as int + 0x100 * (b[pos + 3] as int)))
  }

  lemma LE16RoundTrip(b: seq<byte>, pos: nat, w: u16)
    requires pos + 2 <= |b|
    ensures b[pos..pos + 2] == LE16(w) <==> U16At(b, pos) == w
  {}

  lemma LE32RoundTrip(b: seq<byte>, pos: nat, w: u32)
    requires pos + 4 <= |b|
    ensures b[pos..pos + 4] == LE32(w) <==> U32At(b, pos) == w
  {
    var c, d := b[pos..pos + 4], LE32(w);
    assert c == [b[pos], b[pos + 1], b[pos + 2], b[pos + 3]];
    Digits(w, b[pos], b[pos + 1], b[pos + 2], b[pos + 3]);
    if b[pos] == d[0] && b[pos + 1] == d[1] && b[pos + 2] == d[2] && b[pos + 3] == d[3] {
      assert c == d;
    }
    if c == d {
      assert c[0] == d[0] && c[1] == d[1] && c[2] == d[2] && c[3] == d[3];
    }
  }

  lemma Digits(w: u32, b0: byte, b1: byte, b2: byte, b3: byte)
    ensures w == b0 as int + 0x100 * (b1 as int + 0x100 * (b2 as int + 0x100 * b3))
      <==> (b0 == w % 0x100 && b1 == w / 0x100 % 0x100
            && b2 == w / 0x100 / 0x100 % 0x100 && b3 == w / 0x100 / 0x100 / 0x100)
  {
    Digit(w, b0, b1 as int + 0x100 * (b2 as int + 0x100 * b3));
    Digit(w / 0x100, b1, b2 as int + 0x100 * b3);
    Digit(w / 0x100 / 0x100, b2, b3);
  }

  lemma Digit(w: nat, low: byte, high: nat)
    ensures w == low + 0x100 * high <==> low == w % 0x100 && high == w / 0x100
  {}
}
