/** Pixel formats: how an 8-bit-per-channel colour is packed into a native
    pixel value, and the value handed on to a display sink. */
module PixType {

  /** A colour with three 8-bit channels and no alpha. */
  datatype RGB = RGB(red: bv8, green: bv8, blue: bv8)

  const BLACK: RGB := RGB(0, 0, 0)
  const WHITE: RGB := RGB(255, 255, 255)

  /** 16-bit packed pixel: 5 bits red, 6 bits green, 5 bits blue. */
  datatype RGB565 = RGB565(bits: bv16)

  /** 32-bit pixel: opaque alpha byte, then red, green and blue bytes. */
  datatype ARGB32 = ARGB32(bits: bv32)

  /** The derived `Default` of both formats: the wrapped integer is zero. */
  const RGB565_DEFAULT: RGB565 := RGB565(0)
  const ARGB32_DEFAULT: ARGB32 := ARGB32(0)

  /** `size_of` of each format, in bytes. */
  const RGB565_BYTES: nat := 2
  const ARGB32_BYTES: nat := 4

  /** Red field, bits 15..11 of a 16-bit pixel. */
  function Red565(p: RGB565): bv16 { p.bits >> 11 }

  /** Green field, bits 10..5 of a 16-bit pixel. */
  function Green565(p: RGB565): bv16 { (p.bits >> 5) & 0x3F }

  /** Blue field, bits 4..0 of a 16-bit pixel. */
  function Blue565(p: RGB565): bv16 { p.bits & 0x1F }

  /** `RGB565::rgb`: each channel is truncated (not rounded) to its field. */
  function Rgb565(c: RGB): (p: RGB565)
    ensures Red565(p) == (c.red >> 3) as bv16
    ensures Green565(p) == (c.green >> 2) as bv16
    ensures Blue565(p) == (c.blue >> 3) as bv16
  {
    RGB565(((c.red as bv16 & 0xF8) << 8) | ((c.green as bv16 & 0xFC) << 3) | (c.blue as bv16 >> 3))
  }

  /** `RGB565::blend`: the native value handed to a sink. */
  function Blend565(p: RGB565): bv16 { p.bits }

  /** The colour with the bits `Rgb565` drops cleared. */
  function Truncate565(c: RGB): RGB
  {
    RGB(c.red & 0xF8, c.green & 0xFC, c.blue & 0xF8)
  }

  /** `ARGB32::rgb`: alpha is forced to 0xFF, the channels are kept whole. */
  function Argb32(c: RGB): (p: ARGB32)
    ensures p.bits >> 24 == 0xFF
    ensures Unpack32(p) == c
  {
    ARGB32((0xFF << 24) | ((c.red as bv32) << 16) | ((c.green as bv32) << 8) | (c.blue as bv32))
  }

  /** `ARGB32::blend`: the native value handed to a sink. */
  function Blend32(p: ARGB32): bv32 { p.bits }

  /** Reads the colour back out of bytes 2, 1 and 0 of a 32-bit pixel. */
  function Unpack32(p: ARGB32): RGB
  {
    RGB(((p.bits >> 16) & 0xFF) as bv8, ((p.bits >> 8) & 0xFF) as bv8, (p.bits & 0xFF) as bv8)
  }

  /** Packing is lossy only through truncation: packing the truncated colour
      gives the same pixel. */
  lemma Rgb565IgnoresLowBits(c: RGB)
    ensures Rgb565(Truncate565(c)) == Rgb565(c)
  {
    MaskedChannelsPackAlike(c.red, c.green, c.blue);
  }

  /** The packing formula reads only the bits that survive the 5/6/5 masks. */
  lemma MaskedChannelsPackAlike(r: bv8, g: bv8, b: bv8)
    ensures (((r & 0xF8) as bv16 & 0xF8) << 8) | (((g & 0xFC) as bv16 & 0xFC) << 3) | ((b & 0xF8) as bv16 >> 3)
         == ((r as bv16 & 0xF8) << 8) | ((g as bv16 & 0xFC) << 3) | (b as bv16 >> 3)
  {
  }

  /** Two colours pack to the same 16-bit pixel exactly when they agree on
      the high 5/6/5 bits of their channels. */
  lemma Rgb565SameIffTruncationsAgree(c1: RGB, c2: RGB)
    ensures Rgb565(c1) == Rgb565(c2) <==> Truncate565(c1) == Truncate565(c2)
  {
    if Truncate565(c1) == Truncate565(c2) {
      Rgb565IgnoresLowBits(c1);
      Rgb565IgnoresLowBits(c2);
    }
  }

  /** Packing to 32 bits loses nothing: distinct colours give distinct pixels. */
  lemma Argb32Injective(c1: RGB, c2: RGB)
    ensures Argb32(c1) == Argb32(c2) <==> c1 == c2
  {
    if Argb32(c1) == Argb32(c2) {
      assert Unpack32(Argb32(c1)) == Unpack32(Argb32(c2));
    }
  }

  /** The native values of the named colours, primaries and defaults. */
  lemma KnownNativeValues()
    ensures Blend565(Rgb565(WHITE)) == 0xFFFF
    ensures Blend565(Rgb565(BLACK)) == 0x0000
    ensures Blend565(Rgb565(RGB(255, 0, 0))) == 0xF800
    ensures Blend565(Rgb565(RGB(0, 255, 0))) == 0x07E0
    ensures Blend565(Rgb565(RGB(0, 0, 255))) == 0x001F
    ensures Blend32(Argb32(WHITE)) == 0xFFFF_FFFF
    ensures Blend32(Argb32(BLACK)) == 0xFF00_0000
    ensures Blend565(RGB565_DEFAULT) == 0
    ensures Blend32(ARGB32_DEFAULT) == 0
  {
  }
}
