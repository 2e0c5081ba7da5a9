/** Bitmap fonts: fixed-size monochrome glyphs packed one after another,
    by character code, into a byte table, and their extraction into an
    owned pixel buffer of a chosen pixel format. */
module AscFonts {
  import opened PixType
  import opened BitMaps

  /** A packed font. Glyph `c` occupies `CharBytes()` bytes starting at
      `c * CharBytes()`; within a byte the most significant bit comes first. */
  datatype AsciiFont = AsciiFont(data: seq<bv8>, width: nat, height: nat)
  {
    /** `char_bytes`: bytes per glyph, rounding down like the integer division it models. */
    function CharBytes(): nat
    {
      width * height / 8
    }
  }

  /** The four shipped fonts. The contents of the embedded tables are not
      modelled; the caller supplies them. */
  function FontAsc12(table: seq<bv8>): AsciiFont { AsciiFont(table, 8, 12) }
  function FontAsc16(table: seq<bv8>): AsciiFont { AsciiFont(table, 8, 16) }
  function FontAsc32(table: seq<bv8>): AsciiFont { AsciiFont(table, 16, 32) }
  function FontAsc48(table: seq<bv8>): AsciiFont { AsciiFont(table, 24, 48) }

  /** The cell sizes of the shipped fonts. */
  predicate IsShipped(f: AsciiFont)
  {
    (f.width, f.height) in {(8, 12), (8, 16), (16, 32), (24, 48)}
  }

  /** For every shipped font a glyph is a whole number of bytes, so
      `CharBytes` loses nothing to rounding. */
  lemma ShippedCharBytesExact(f: AsciiFont)
    requires IsShipped(f)
    ensures 8 * f.CharBytes() == f.width * f.height
    ensures f.CharBytes() in {12, 16, 64, 144}
  {
  }

  lemma ShippedFontsAreShipped(table: seq<bv8>)
    ensures IsShipped(FontAsc12(table)) && FontAsc12(table).CharBytes() == 12
    ensures IsShipped(FontAsc16(table)) && FontAsc16(table).CharBytes() == 16
    ensures IsShipped(FontAsc32(table)) && FontAsc32(table).CharBytes() == 64
    ensures IsShipped(FontAsc48(table)) && FontAsc48(table).CharBytes() == 144
  {
  }

  /** The glyph of `index` lies inside the table; slicing past the end panics. */
  predicate GlyphInTable(f: AsciiFont, index: char)
  {
    (index as int) * f.CharBytes() + f.CharBytes() <= |f.data|
  }

  /** The bytes of the glyph of `index`. */
  function GlyphBytes(f: AsciiFont, index: char): (s: seq<bv8>)
    requires GlyphInTable(f, index)
    ensures |s| == f.CharBytes()
    ensures forall i :: 0 <= i < |s| ==> s[i] == f.data[(index as int) * f.CharBytes() + i]
  {
    var offset := (index as int) * f.CharBytes();
    f.data[offset .. offset + f.CharBytes()]
  }

  /** Bit k of a byte string read most significant bit first. */
  function Bit(s: seq<bv8>, k: nat): bool
    requires k < 8 * |s|
  {
    (s[k / 8] >> (7 - k % 8)) & 1 == 1
  }

  /** Bits 8i .. 8i+n-1 of `s`, in reading order, packed into the low n
      bits of a byte: the writer the big-endian bit reader undoes. */
  function Repack(s: seq<bv8>, i: nat, n: nat): bv8
    requires i < |s| && n <= 8
  {
    if n == 0 then 0
    else (Repack(s, i, n - 1) << 1) | (if Bit(s, 8 * i + n - 1) then 1 else 0)
  }

  /** One reading step: appending the next lower bit to the bits above it. */
  lemma ShiftStep(b: bv8, n: nat)
    requires 1 <= n <= 8
    ensures ((b >> (8 - (n - 1))) << 1) | ((b >> (8 - n)) & 1) == b >> (8 - n)
  {
  }

  /** Bit 8i + n - 1 of the string is bit 8 - n of byte i. */
  lemma BitOfByte(s: seq<bv8>, i: nat, n: nat)
    requires i < |s| && 1 <= n <= 8
    ensures (if Bit(s, 8 * i + n - 1) then 1 else 0) == (s[i] >> (8 - n)) & 1
  {
    var k := 8 * i + n - 1;
    assert k / 8 == i && k % 8 == n - 1;
  }

  /** Packing the next bit read below the high n - 1 bits of byte i gives
      its high n bits. */
  lemma ReadStep(s: seq<bv8>, i: nat, n: nat)
    requires i < |s| && 1 <= n <= 8
    ensures ((s[i] >> (8 - (n - 1))) << 1) | (if Bit(s, 8 * i + n - 1) then 1 else 0) == s[i] >> (8 - n)
  {
    BitOfByte(s, i, n);
    ShiftStep(s[i], n);
  }

  lemma {:induction false} RepackReadsHighBits(s: seq<bv8>, i: nat, n: nat)
    requires i < |s| && n <= 8
    ensures Repack(s, i, n) == s[i] >> (8 - n)
  {
    if n > 0 {
      RepackReadsHighBits(s, i, n - 1);
      ReadStep(s, i, n);
    }
  }

  /** Reading the eight bits of a byte most significant first and packing
      them back in that order gives the byte back. */
  lemma BitReaderRoundTrip(s: seq<bv8>, i: nat)
    requires i < |s|
    ensures Repack(s, i, 8) == s[i]
  {
    RepackReadsHighBits(s, i, 8);
  }

  /** `map_to_data`: reads the glyph of `index` bit by bit, emitting the
      foreground pixel for a set bit and the black pixel for a clear one. */
  method MapToData<T>(f: AsciiFont, index: char, rgb: RGB, toPix: RGB -> T) returns (data: seq<T>)
    requires GlyphInTable(f, index)
    ensures |data| == 8 * f.CharBytes()
    ensures forall k :: 0 <= k < |data| ==>
      data[k] == (if Bit(GlyphBytes(f, index), k) then toPix(rgb) else toPix(BLACK))
    ensures toPix(rgb) != toPix(BLACK) ==>
      forall k :: 0 <= k < |data| ==> (data[k] == toPix(rgb) <==> Bit(GlyphBytes(f, index), k))
  {
    var bytes := GlyphBytes(f, index);
    data := [];
    var pos := 0;
    while pos < 8 * |bytes|
      invariant pos <= 8 * |bytes|
      invariant |data| == pos
      invariant forall k :: 0 <= k < pos ==> data[k] == (if Bit(bytes, k) then toPix(rgb) else toPix(BLACK))
    {
      if Bit(bytes, pos) {
        data := data + [toPix(rgb)];
      } else {
        data := data + [toPix(BLACK)];
      }
      pos := pos + 1;
    }
  }

  /** An extracted glyph: an owned pixel buffer and the font's cell size. */
  datatype CharBitMap<T> = CharBitMap(data: seq<T>, width: nat, height: nat)
  {
    /** The buffer holds the whole cell, so viewing it cannot fail. */
    predicate Viewable()
    {
      Area(width, height) <= |data|
    }

    /** `CharBitMap::bitmap`: the glyph viewed as a bitmap. The pixel size
        only enters the construction error, which cannot arise here. */
    function Bitmap(): (b: BitMap<T>)
      requires Viewable()
      ensures b.Valid() && b.width == width && b.height == height && b.data == data
    {
      AreaIsProduct(width, height);
      New(data, width, height, 0).value
    }
  }

  /** `char_bitmap`: the glyph of `index` at the font's cell size. For the
      shipped fonts the buffer is exactly one cell, so `bitmap()` succeeds. */
  method CharBitmap<T>(f: AsciiFont, index: char, rgb: RGB, toPix: RGB -> T) returns (g: CharBitMap<T>)
    requires GlyphInTable(f, index)
    ensures g.width == f.width && g.height == f.height
    ensures |g.data| == 8 * f.CharBytes()
    ensures forall k :: 0 <= k < |g.data| ==>
      g.data[k] == (if Bit(GlyphBytes(f, index), k) then toPix(rgb) else toPix(BLACK))
    ensures IsShipped(f) ==> |g.data| == f.width * f.height && g.Viewable()
    ensures IsShipped(f) ==> forall pixBytes: nat :: New(g.data, g.width, g.height, pixBytes).Ok?
  {
    var data := MapToData(f, index, rgb, toPix);
    if IsShipped(f) {
      ShippedCharBytesExact(f);
      AreaIsProduct(f.width, f.height);
    }
    g := CharBitMap(data, f.width, f.height);
  }
}
