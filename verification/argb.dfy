/**
 * The framework's pixel format: a 32-bit word holding alpha, red, green
 * and blue in its four bytes, most significant first.
 */
module Argb {
  import opened Common

  /** `(a << 24) | (r << 16) | (g << 8) | b`; the four fields do not overlap, so `|` is `+`. */
  function Pack(a: Uint8, r: Uint8, g: Uint8, b: Uint8): (p: Uint32)
    ensures Alpha(p) == a && Red(p) == r && Green(p) == g && Blue(p) == b
  {
    a * 0x100_0000 + r * 0x1_0000 + g * 0x100 + b
  }

  /** An opaque colour: `0xFF000000 | (r << 16) | (g << 8) | b`. */
  function Opaque(r: Uint8, g: Uint8, b: Uint8): (p: Uint32)
    ensures Alpha(p) == 255 && Red(p) == r && Green(p) == g && Blue(p) == b
    ensures p >= 0xFF00_0000
  {
    Pack(255, r, g, b)
  }

  function Alpha(p: Uint32): Uint8 { p / 0x100_0000 }
  function Red(p: Uint32): Uint8 { (p / 0x1_0000) % 256 }
  function Green(p: Uint32): Uint8 { (p / 0x100) % 256 }
  function Blue(p: Uint32): Uint8 { p % 256 }

  /** Every word is the packing of its own four channels. */
  lemma PackChannels(p: Uint32)
    ensures Pack(Alpha(p), Red(p), Green(p), Blue(p)) == p
  {
    var q1 := p / 0x100;
    var q2 := q1 / 0x100;
    var q3 := q2 / 0x100;
    assert p == q1 * 0x100 + p % 0x100;
    assert q1 == q2 * 0x100 + q1 % 0x100;
    assert q2 == q3 * 0x100 + q2 % 0x100;
    assert p / 0x1_0000 == q2;
    assert p / 0x100_0000 == q3;
    assert q3 < 256;
  }

  /**
   * A decoded picture as the image loader holds it: the dimensions it
   * reports and its pixel buffer; `None` marks a word never written.
   */
  datatype Image = Image(width: int, height: int, pixels: seq<Option<Uint32>>)

  /** Opaque black, the colour the GIF decoder uses for indices outside its colour table. */
  const OpaqueBlack: Uint32 := 0xFF00_0000

  lemma OpaqueBlackIsOpaque()
    ensures OpaqueBlack == Opaque(0, 0, 0)
  {
  }
}
