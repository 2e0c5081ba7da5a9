# bitmap-rs drawing engine, modelled in Dafny

A model of the drawing engine of the `bitmap` crate: a width × height view
over a flat, caller-owned pixel buffer, with the operations drawn on it
(`draw_pix`, `bitblit`, `draw_text`), the two pixel formats (`RGB565`,
`ARGB32`), and the extraction of a glyph from a packed bitmap font.

Layout, one module per source file (the draw operations of `src/lib.rs` get a
module of their own so the font module can sit between them):

- `pix_type.dfy`, module `PixType`: `RGB`, `BLACK`/`WHITE`, the two pixel
  formats with their `rgb` packing, `blend` and `Default`.
- `bitmap.dfy`, module `BitMaps`: `BitMapError`, `Point`, the view `BitMap`,
  `new`, the raw `get`/`set` exactly as written, and corrected accessors
  `At`/`Put`.
- `asc_fonts.dfy`, module `AscFonts`: `AsciiFont`, `char_bytes`, the
  most-significant-bit-first bit reader, `map_to_data`, `char_bitmap`,
  `CharBitMap::bitmap` and the four shipped font sizes.
- `draw.dfy`, module `Draw`: `draw_pix`, `bitblit` (its two nested loops as
  two recursive functions), the same `bitblit` with a view as its own
  source, and `draw_text`.

Modelling choices:

- The view is a value `BitMap(data, width, height)`; each draw operation
  returns the updated view instead of writing through shared cells. The
  public constructor takes an exclusive borrow, so two distinct views never
  share a buffer. One view can still be aliased with itself: `bitblit` takes
  `&self` and the source as two shared borrows, so `b.bitblit(p, &b)` is
  accepted, and its loop then reads cells it has already written. `Bitblit`
  models a source that is a different view; `BitblitSelf` models the
  self-blit, reading every source pixel from the view as written so far.
- Pixel counts `width * height` are computed by `Area`, which
  `AreaIsProduct` proves equal to that product.
- `Valid()` (`width * height <= |data|`) is what `new` establishes and the
  draw operations require; the raw `Get`/`Set` do not require it.
- The pixel type is a type parameter `T`; `T::rgb` is passed in as a function
  `toPix: RGB -> T`, and `size_of::<T>()` as `pixBytes` (2 for `RGB565`,
  4 for `ARGB32`, see `RGB565_BYTES`/`ARGB32_BYTES`).
- `get`/`set` index the slice after their bound test; when the offset is past
  the buffer Rust panics. The model returns `Access.Panic` there.
- `bitblit` reads the source through `get` and writes through `set`, always at
  coordinates strictly inside both views. There the raw accessors never panic
  and coincide with `At`/`Put` (the last ensures of `Get` and `Set`), so the
  model's blit uses `At`/`Put`.
- Pixel offsets `width * y + x` are computed by `Offset`, which
  `OffsetIsRowMajor` proves equal to that product.

Behaviour of the code worth noting:

- The glyph offset is `code * (width * height / 8)`: the byte count per glyph
  is rounded down before it is multiplied. For the four shipped fonts
  nothing is lost to the rounding (`ShippedCharBytesExact`).
- The bit order is fixed: most significant bit first, through the big-endian
  bit reader.
- `bitblit` guards each source read with `if let Some(..)`, but the loop
  bounds keep every read inside the source, so the guard never skips a
  pixel.
- The bound test of `get`/`set` is `>`, not `>=` (see Findings).

## Model

| member | source | states |
|---|---|---|
| PixType.Rgb565 | src/pix_type.rs:18-20 | bits 15..11 hold `red >> 3`, bits 10..5 hold `green >> 2`, bits 4..0 hold `blue >> 3` |
| PixType.Rgb565SameIffTruncationsAgree | src/pix_type.rs:19 | two colours pack to the same 16-bit pixel if and only if they agree after clearing the low 3/2/3 bits of red/green/blue |
| PixType.Rgb565IgnoresLowBits | src/pix_type.rs:19 | packing a colour and packing its truncation give the same pixel: the loss is truncation, not rounding |
| PixType.Argb32 | src/pix_type.rs:32-34 | the top byte is always 0xFF, and bytes 2, 1, 0 read back give the original colour |
| PixType.Argb32Injective | src/pix_type.rs:33 | distinct colours give distinct 32-bit pixels (lossless) |
| PixType.KnownNativeValues | src/pix_type.rs:7-46 | native values: white 0xFFFF / 0xFFFFFFFF, black 0x0000 / 0xFF000000, primaries 0xF800, 0x07E0, 0x001F, and both defaults 0 |
| BitMaps.New | src/lib.rs:58-65 | succeeds if and only if the buffer holds width × height pixels, keeping buffer, width and height; otherwise `NotEnoughBuffer` with both sizes in bytes |
| BitMaps.Get | src/lib.rs:67-74 | absent exactly when `x > width` or `y > height`; panics exactly when the test passes but the offset is past the buffer; otherwise the element at `width * y + x`; inside a valid view equals `At` |
| BitMaps.Set | src/lib.rs:76-83 | a no-op past the `>` test; panics exactly when the offset is past the buffer; otherwise writes only that offset; inside a valid view equals `Put` |
| BitMaps.At | src/lib.rs:67-74 | corrected read: present exactly for x < width and y < height, and then the pixel at `width * y + x` |
| BitMaps.Put | src/lib.rs:76-83 | corrected write: a read afterwards sees the new pixel at (x, y), when inside the view, and the old pixel everywhere else; the buffer past the view is untouched |
| BitMaps.GetPastRightEdgeReadsNextRow | src/lib.rs:67-74 | `get(width, y)` is accepted and returns pixel (0, y + 1) |
| BitMaps.SetPastRightEdgeWritesNextRow | src/lib.rs:76-83 | `set(width, y, v)` is accepted and overwrites pixel (0, y + 1) |
| BitMaps.BottomEdgePanics | src/lib.rs:67-83 | over a buffer of exactly width × height pixels, `get`/`set` on row `height` panic |
| BitMaps.OffByOneExample | src/lib.rs:67-74 | on a 2 × 2 view, `get(2, 0)` returns pixel (0, 1) and `get(0, 2)` panics, where the corrected read reports both absent |
| Draw.DrawPix | src/lib.rs:87-98 | `OverFlowX{x, width}` when x >= width, checked before `OverFlowY{y, height}`, the view unchanged on error; on success exactly pixel (x, y) becomes `T::rgb(color)` and nothing else changes |
| Draw.Bitblit | src/lib.rs:102-108 | fails exactly on the same origin tests with the same errors; on success the view keeps its shape |
| Draw.BitblitCells | src/lib.rs:110-121 | for a source that is a different view: every destination cell in `[x, min(x + src.width, width)) × [y, min(y + src.height, height))` holds source pixel (i - x, j - y); every other cell and the buffer past the view are unchanged |
| Draw.BitblitSelf | src/lib.rs:102-121 | `b.bitblit(p, &b)`: the same origin tests with the same errors; on success the view keeps its shape |
| Draw.BitblitSelfCells | src/lib.rs:110-121 | for `b.bitblit(p, &b)`: every cell of the clipped rectangle ends with the value its cell `p` up and to the left ends with, or the original pixel there when that cell is outside the rectangle (or `p` is the origin); every other cell and the buffer past the view are unchanged |
| Draw.BitblitSelfVersusCopy | src/lib.rs:113-117 | the self-blit agrees with a blit from an unaliased copy in every cell whose source cell is never written, and at origin (0, 0) both leave the view unchanged |
| Draw.SelfBlitSmearsWhereCopyShifts | src/lib.rs:113-117 | on a 3 × 1 view over [1, 2, 3] at (1, 0) the self-blit gives [1, 1, 1], where a blit from a copy gives [1, 1, 2] |
| Draw.BitblitInsideCopiesAll | src/lib.rs:110-119 | a source that fits in the view appears whole, pixel for pixel, at the offset |
| Draw.BitblitIdempotent | src/lib.rs:113-119 | blitting the same source at the same place twice gives the same view as once |
| Draw.DrawGlyphs | src/lib.rs:134-140 | the glyph loop keeps the view's shape and validity whatever the glyphs; what it paints is stated by the three lemmas below |
| Draw.DrawText | src/lib.rs:124-143 | fails only on its own origin tests, with the same errors as `draw_pix`; otherwise succeeds, whatever the glyphs, keeping the view's shape |
| Draw.DrawGlyphsPaints | src/lib.rs:134-140 | glyph k, placed at the start plus the widths of the glyphs before it, shows in every cell of its clipped rectangle whenever that position lies inside the view |
| Draw.DrawGlyphsFrame | src/lib.rs:134-140 | no cell outside the glyphs' cells, and nothing past the view, changes |
| Draw.BreakEqualsSkip | src/lib.rs:135-140 | stopping at the first failed blit gives the same view as skipping failed glyphs and going on |
| AscFonts.ShippedCharBytesExact | src/asc_fonts.rs:11-13 | for every shipped font size, `width * height / 8` loses nothing to rounding: 8 × char_bytes = width × height |
| AscFonts.ShippedFontsAreShipped | src/asc_fonts.rs:51-54 | the four shipped fonts are 8×12, 8×16, 16×32 and 24×48, with 12, 16, 64 and 144 bytes per glyph |
| AscFonts.GlyphBytes | src/asc_fonts.rs:17-18 | the glyph of code c is exactly the bytes `[c * char_bytes, (c + 1) * char_bytes)` of the table |
| AscFonts.BitReaderRoundTrip | src/asc_fonts.rs:18-19 | the bit order is most significant first: re-packing the eight bits read from a byte gives the byte back |
| AscFonts.MapToData | src/asc_fonts.rs:15-27 | 8 × char_bytes pixels; pixel k is `T::rgb(color)` when bit k of the glyph is set and `T::rgb(BLACK)` otherwise, so that, when the two pixels differ, a pixel is the foreground exactly when its bit is set |
| AscFonts.CharBitMap.Bitmap | src/asc_fonts.rs:46-48 | a glyph whose buffer holds its cell is viewed as a valid bitmap with exactly the glyph's buffer, width and height |
| AscFonts.CharBitmap | src/asc_fonts.rs:29-36 | the glyph carries the font's width and height and the decoded pixels; for the shipped fonts it has exactly width × height pixels, so `bitmap()` always succeeds |

## Findings

| source | as written | input that shows it | evidently intended | confidence | as-written member | corrected member |
|---|---|---|---|---|---|---|
| src/lib.rs:68 | `get` returns None only for `x > width` or `y > height` | 2 × 2 view over 4 pixels: `get(2, 0)` returns pixel (0, 1); `get(0, 2)` indexes element 4 and panics | None for `x >= width` or `y >= height` | not executed; high | BitMaps.GetPastRightEdgeReadsNextRow | BitMaps.At |
| src/lib.rs:77 | `set` ignores only `x > width` or `y > height` | same view: `set(2, 0, v)` overwrites pixel (0, 1); `set(0, 2, v)` panics | ignore `x >= width` or `y >= height` | not executed; high | BitMaps.SetPastRightEdgeWritesNextRow | BitMaps.Put |

`bitblit` is the only caller of `get`/`set` in the core, and it never passes
an edge coordinate, so the draw operations are not affected; the model's
`Bitblit` uses the corrected accessors, which agree with the originals there.

## Left out

- Machine integers: `usize` arithmetic is modelled with unbounded `nat`, so the overflow of `width * height`, `topleft.x + bitmap.width`, `current_x += width` and `index * char_bytes` on huge inputs is not modelled.
- The `Cell`/`as_slice_of_cells` shared-mutation mechanism: views are values and operations return the updated view. The one aliasing the crate allows, a view blitted onto itself, is modelled by `BitblitSelf`.
- Draw.Bitblit: assumes the source is a different view from the destination; `b.bitblit(p, &b)` is modelled by `BitblitSelf` instead, whose result differs (`SelfBlitSmearsWhereCopyShifts`). `draw_text` blits glyphs it owns, never the view itself, so it uses `Bitblit`.
- The display strings of `BitMapError` (`thiserror`).
- The `bitter` crate: replaced by the explicit bit function `Bit`.
- The contents of the embedded font tables: the table is a caller-supplied byte sequence.
- The free function `char_bitmap(char, size, color)` called by `draw_text` is not part of this model: `DrawText` takes the already extracted glyphs, one per character, so its `size` and `color` arguments do not appear.
- AscFonts.MapToData: requires the glyph's bytes to lie inside the table, where the source panics on the slice index.
- Draw.DrawText: requires every glyph's buffer to hold its cell, where `bitmap().unwrap()` would panic; `CharBitmap` proves this for every shipped font, and the font fields are private, so no other font exists.
- `draw_pix` converts the colour before its bound tests; the conversion is pure, so the order is not modelled.
- `Point::from((x, y))`: a plain constructor.
- Line, rectangle, fill and clear operations, and the example binaries: no implementation of the operations is part of this model.
