/**
 * Multi-byte integer readers used by the PNG (big-endian) and GIF
 * (little-endian) decoders, with the matching writers as partners.
 */
module Bytes {
  import opened Common

  /** A 32-bit big-endian word from four bytes (most significant first). */
  function ReadBE32(b0: Uint8, b1: Uint8, b2: Uint8, b3: Uint8): (r: Uint32)
    ensures r / 0x100_0000 == b0
    ensures r % 256 == b3
  {
    b0 * 0x100_0000 + b1 * 0x1_0000 + b2 * 0x100 + b3
  }

  /** A 16-bit little-endian word from two bytes (least significant first). */
  function ReadLE16(b0: Uint8, b1: Uint8): (r: int)
    ensures 0 <= r < 0x1_0000
    ensures r % 256 == b0 && r / 256 == b1
  {
    b0 + b1 * 256
  }

  /** Byte `k` (0 = most significant) of a 32-bit word. */
  function ByteBE(v: Uint32, k: nat): (r: Uint8)
    requires k < 4
  {
    if k == 0 then v / 0x100_0000
    else if k == 1 then (v / 0x1_0000) % 256
    else if k == 2 then (v / 0x100) % 256
    else v % 256
  }

  /** The big-endian reader inverts the big-endian writer. */
  lemma ReadBE32OfBytes(v: Uint32)
    ensures ReadBE32(ByteBE(v, 0), ByteBE(v, 1), ByteBE(v, 2), ByteBE(v, 3)) == v
  {
    var a, d := v / 256, v % 256;
    var b, c := a / 256, a % 256;
    var e, f := b / 256, b % 256;
    assert v == e * 0x100_0000 + f * 0x1_0000 + c * 0x100 + d;
    BytesOfReadBE32(e, f, c, d);
  }

  /** The big-endian writer inverts the big-endian reader. */
  lemma BytesOfReadBE32(b0: Uint8, b1: Uint8, b2: Uint8, b3: Uint8)
    ensures var v := ReadBE32(b0, b1, b2, b3);
            ByteBE(v, 0) == b0 && ByteBE(v, 1) == b1 && ByteBE(v, 2) == b2 && ByteBE(v, 3) == b3
  {
    var v := ReadBE32(b0, b1, b2, b3);
    DivOf(v, 0x100_0000, b0, b1 * 0x1_0000 + b2 * 0x100 + b3);
    DivOf(v, 0x1_0000, b0 * 0x100 + b1, b2 * 0x100 + b3);
    DivOf(b0 * 0x100 + b1, 256, b0, b1);
    DivOf(v, 0x100, b0 * 0x1_0000 + b1 * 0x100 + b2, b3);
    DivOf(b0 * 0x1_0000 + b1 * 0x100 + b2, 256, b0 * 0x100 + b1, b2);
  }

  /** Quotient and remainder are the unique ones: `x == q * d + r` with `0 <= r < d`. */
  lemma DivOf(x: int, d: int, q: int, r: int)
    requires d > 0 && 0 <= r < d && x == q * d + r
    ensures x / d == q && x % d == r
  {
    var q0, r0 := x / d, x % d;
    assert (q - q0) * d == r0 - r;
    if q != q0 {
      MulSign(q - q0, d);
    }
  }

  /** The little-endian reader inverts the little-endian writer. */
  lemma ReadLE16OfBytes(v: int)
    requires 0 <= v < 0x1_0000
    ensures ReadLE16(v % 256, v / 256) == v
  {
  }

  /** The 32-bit big-endian word starting at `off` in `data`. */
  function BE32At(data: seq<Uint8>, off: nat): (r: Uint32)
    requires off + 4 <= |data|
    ensures r / 0x100_0000 == data[off] && r % 256 == data[off + 3]
  {
    ReadBE32(data[off], data[off + 1], data[off + 2], data[off + 3])
  }

  /** The 16-bit little-endian word starting at `off` in `data`. */
  function LE16At(data: seq<Uint8>, off: nat): (r: int)
    requires off + 2 <= |data|
    ensures 0 <= r < 0x1_0000
    ensures r % 256 == data[off] && r / 256 == data[off + 1]
  {
    ReadLE16(data[off], data[off + 1])
  }
}
