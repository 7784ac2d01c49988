/**
 * The RGB565 `Pixel` union: a 16-bit value whose bit-fields hold a 5-bit blue, a 6-bit green and a
 * 5-bit red channel. The 16-bit value is the representation; the channel view is derived from it by
 * shift and mask, with the fields allocated from the least significant bit upwards as the ARM EABI
 * allocates bit-fields (blue in bits 0-4, green in bits 5-10, red in bits 11-15).
 */
module Pixels {

  /** The `value` member of the union; `Pixel(uint16_t)` and `operator uint16_t` are the identity on it. */
  type Pixel = bv16

  /** The default-constructed pixel. */
  const BLACK: Pixel := 0

  /** Blue: the value's lowest five bits. */
  function Blue(p: Pixel): (b: bv8)
    ensures b < 32
    ensures b as bv16 == p % 32
  {
    (p & 0x1F) as bv8
  }

  /** Green: the six bits above blue. */
  function Green(p: Pixel): (g: bv8)
    ensures g < 64
    ensures g as bv16 == (p / 32) % 64
  {
    ((p >> 5) & 0x3F) as bv8
  }

  /** Red: the five highest bits. */
  function Red(p: Pixel): (r: bv8)
    ensures r < 32
    ensures r as bv16 == p / 2048
  {
    ((p >> 11) & 0x1F) as bv8
  }

  /**
   * The channel constructor `Pixel(blue, green, red)`: each `uint8_t` argument is stored in its
   * bit-field, which keeps only the low bits (blue mod 32, green mod 64, red mod 32).
   */
  function FromChannels(blue: bv8, green: bv8, red: bv8): (p: Pixel)
    ensures Blue(p) == blue % 32
    ensures Green(p) == green % 64
    ensures Red(p) == red % 32
  {
    ((blue & 0x1F) as bv16) | (((green & 0x3F) as bv16) << 5) | (((red & 0x1F) as bv16) << 11)
  }

  /** The layout is RGB565, red high and blue low: the three full-intensity primaries. */
  lemma PrimariesLayout()
    ensures FromChannels(0x1F, 0, 0) == 0x001F && FromChannels(0, 0x3F, 0) == 0x07E0
    ensures FromChannels(0, 0, 0x1F) == 0xF800
    ensures Blue(0x001F) == 0x1F && Green(0x07E0) == 0x3F && Red(0xF800) == 0x1F
  {
  }

  /** Channels that already fit their fields survive packing and unpacking unchanged. */
  lemma ChannelsRoundTrip(blue: bv8, green: bv8, red: bv8)
    requires blue < 32 && green < 64 && red < 32
    ensures Blue(FromChannels(blue, green, red)) == blue
    ensures Green(FromChannels(blue, green, red)) == green
    ensures Red(FromChannels(blue, green, red)) == red
  {
  }

  /** Re-packing the three channel fields of any 16-bit value gives that value back. */
  lemma RepackIdentity(p: Pixel)
    ensures FromChannels(Blue(p), Green(p), Red(p)) == p
  {
  }
}
