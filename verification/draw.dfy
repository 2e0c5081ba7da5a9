/** The draw operations on a bitmap view: one pixel, a clipping blit of
    another view, and a line of text from already extracted glyphs. */
module Draw {
  import opened PixType
  import opened BitMaps
  import opened AscFonts

  function Min(a: nat, b: nat): nat
  {
    if a < b then a else b
  }

  /** The test each draw operation makes before writing anything: the
      origin must lie in the view, x checked before y. */
  function OriginCheck<T>(b: BitMap<T>, p: Point): (e: Option<BitMapError>)
    ensures e.None? <==> p.x < b.width && p.y < b.height
    ensures p.x >= b.width ==> e == Some(OverFlowX(p.x, b.width))
    ensures p.x < b.width && p.y >= b.height ==> e == Some(OverFlowY(p.y, b.height))
  {
    if p.x >= b.width then Some(OverFlowX(p.x, b.width))
    else if p.y >= b.height then Some(OverFlowY(p.y, b.height))
    else None
  }

  /** `draw_pix`: writes the converted colour at `p`, or reports which
      coordinate lies outside the view and leaves the view as it was. */
  function DrawPix<T>(b: BitMap<T>, p: Point, color: RGB, toPix: RGB -> T): (r: Result<BitMap<T>>)
    requires b.Valid()
    ensures r.Err? <==> p.x >= b.width || p.y >= b.height
    ensures p.x >= b.width ==> r == Err(OverFlowX(p.x, b.width))
    ensures p.x < b.width && p.y >= b.height ==> r == Err(OverFlowY(p.y, b.height))
    ensures r.Ok? ==> r.value.width == b.width && r.value.height == b.height && |r.value.data| == |b.data|
    ensures r.Ok? ==> r.value.Valid()
    ensures r.Ok? ==> forall i: nat, j: nat ::
      At(r.value, i, j) == (if i == p.x && j == p.y then Some(toPix(color)) else At(b, i, j))
    ensures r.Ok? ==> forall k :: Area(b.width, b.height) <= k < |b.data| ==> r.value.data[k] == b.data[k]
  {
    match OriginCheck(b, p)
    case Some(e) => Err(e)
    case None => Ok(Put(b, p.x, p.y, toPix(color)))
  }

  /** The inner loop of `bitblit`: copies rows j .. yend-1 of destination
      column i from the source pixel at (i - tx, row - ty). */
  function BlitColumn<T>(dst: BitMap<T>, src: BitMap<T>, tx: nat, ty: nat, i: nat, j: nat, yend: nat): (r: BitMap<T>)
    requires dst.Valid() && src.Valid() && tx <= i && ty <= j
    ensures r.width == dst.width && r.height == dst.height && |r.data| == |dst.data|
    ensures r.Valid()
    decreases yend - j
  {
    if j >= yend then dst
    else
      var next := match At(src, i - tx, j - ty)
        case Some(v) => Put(dst, i, j, v)
        case None => dst;
      BlitColumn(next, src, tx, ty, i, j + 1, yend)
  }

  /** The outer loop of `bitblit`: columns i .. xend-1, each over rows ty .. yend-1. */
  function BlitColumns<T>(dst: BitMap<T>, src: BitMap<T>, tx: nat, ty: nat, i: nat, xend: nat, yend: nat): (r: BitMap<T>)
    requires dst.Valid() && src.Valid() && tx <= i
    ensures r.width == dst.width && r.height == dst.height && |r.data| == |dst.data|
    ensures r.Valid()
    decreases xend - i
  {
    if i >= xend then dst
    else BlitColumns(BlitColumn(dst, src, tx, ty, i, ty, yend), src, tx, ty, i + 1, xend, yend)
  }

  /** Cell (x, y) of the destination receives a source pixel when a blit
      places `src` at `p`: the source rectangle clipped to the view. */
  predicate InClip<T>(dst: BitMap<T>, p: Point, src: BitMap<T>, x: nat, y: nat)
  {
    p.x <= x < p.x + src.width && x < dst.width && p.y <= y < p.y + src.height && y < dst.height
  }

  /** `bitblit`: after the origin test, copies `src` into the view at `p`,
      clipped at the right and bottom edges of the view. */
  function Bitblit<T>(dst: BitMap<T>, p: Point, src: BitMap<T>): (r: Result<BitMap<T>>)
    requires dst.Valid() && src.Valid()
    ensures r.Err? <==> p.x >= dst.width || p.y >= dst.height
    ensures p.x >= dst.width ==> r == Err(OverFlowX(p.x, dst.width))
    ensures p.x < dst.width && p.y >= dst.height ==> r == Err(OverFlowY(p.y, dst.height))
    ensures r.Ok? ==> r.value.width == dst.width && r.value.height == dst.height && |r.value.data| == |dst.data|
    ensures r.Ok? ==> r.value.Valid()
  {
    match OriginCheck(dst, p)
    case Some(e) => Err(e)
    case None =>
      var xend := Min(p.x + src.width, dst.width);
      var yend := Min(p.y + src.height, dst.height);
      Ok(BlitColumns(dst, src, p.x, p.y, p.x, xend, yend))
  }

  lemma {:induction false} BlitColumnCells<T>(dst: BitMap<T>, src: BitMap<T>, tx: nat, ty: nat, i: nat, j: nat, yend: nat)
    requires dst.Valid() && src.Valid() && tx <= i && ty <= j
    requires i < dst.width && i < tx + src.width
    requires yend <= dst.height && yend <= ty + src.height
    ensures var r := BlitColumn(dst, src, tx, ty, i, j, yend);
      && (forall x: nat, y: nat :: At(r, x, y) == (if x == i && j <= y < yend then At(src, x - tx, y - ty) else At(dst, x, y)))
      && (forall k :: Area(dst.width, dst.height) <= k < |dst.data| ==> r.data[k] == dst.data[k])
    decreases yend - j
  {
    if j < yend {
      var v := At(src, i - tx, j - ty).value;
      var next := Put(dst, i, j, v);
      assert BlitColumn(dst, src, tx, ty, i, j, yend) == BlitColumn(next, src, tx, ty, i, j + 1, yend);
      BlitColumnCells(next, src, tx, ty, i, j + 1, yend);
      var r := BlitColumn(next, src, tx, ty, i, j + 1, yend);
      forall x: nat, y: nat
        ensures At(r, x, y) == (if x == i && j <= y < yend then At(src, x - tx, y - ty) else At(dst, x, y))
      {
        assert At(r, x, y) == (if x == i && j + 1 <= y < yend then At(src, x - tx, y - ty) else At(next, x, y));
        assert At(next, x, y) == (if x == i && y == j then Some(v) else At(dst, x, y));
      }
    }
  }

  lemma {:induction false} BlitColumnsCells<T>(dst: BitMap<T>, src: BitMap<T>, tx: nat, ty: nat, i: nat, xend: nat, yend: nat)
    requires dst.Valid() && src.Valid() && tx <= i
    requires xend <= dst.width && xend <= tx + src.width
    requires ty <= yend <= dst.height && yend <= ty + src.height
    ensures var r := BlitColumns(dst, src, tx, ty, i, xend, yend);
      && (forall x: nat, y: nat :: At(r, x, y) == (if i <= x < xend && ty <= y < yend then At(src, x - tx, y - ty) else At(dst, x, y)))
      && (forall k :: Area(dst.width, dst.height) <= k < |dst.data| ==> r.data[k] == dst.data[k])
    decreases xend - i
  {
    if i < xend {
      var mid := BlitColumn(dst, src, tx, ty, i, ty, yend);
      var r := BlitColumns(dst, src, tx, ty, i, xend, yend);
      BlitColumnCells(dst, src, tx, ty, i, ty, yend);
      BlitColumnsCells(mid, src, tx, ty, i + 1, xend, yend);
      forall x: nat, y: nat
        ensures At(r, x, y) == (if i <= x < xend && ty <= y < yend then At(src, x - tx, y - ty) else At(dst, x, y))
      {
        assert At(r, x, y) == (if i + 1 <= x < xend && ty <= y < yend then At(src, x - tx, y - ty) else At(mid, x, y));
        assert At(mid, x, y) == (if x == i && ty <= y < yend then At(src, x - tx, y - ty) else At(dst, x, y));
      }
    }
  }

  /** A blit whose origin lies in the view succeeds; every cell of the
      clipped rectangle holds the corresponding source pixel, and every other
      cell, and the buffer past the view, is unchanged. */
  lemma BitblitCells<T>(dst: BitMap<T>, p: Point, src: BitMap<T>)
    requires dst.Valid() && src.Valid() && p.x < dst.width && p.y < dst.height
    ensures Bitblit(dst, p, src).Ok?
    ensures forall x: nat, y: nat ::
      At(Bitblit(dst, p, src).value, x, y) == (if InClip(dst, p, src, x, y) then At(src, x - p.x, y - p.y) else At(dst, x, y))
    ensures forall k :: Area(dst.width, dst.height) <= k < |dst.data| ==> Bitblit(dst, p, src).value.data[k] == dst.data[k]
  {
    var xend := Min(p.x + src.width, dst.width);
    var yend := Min(p.y + src.height, dst.height);
    BlitColumnsCells(dst, src, p.x, p.y, p.x, xend, yend);
  }

  /** A source that fits entirely in the view appears whole at the offset. */
  lemma BitblitInsideCopiesAll<T>(dst: BitMap<T>, p: Point, src: BitMap<T>)
    requires dst.Valid() && src.Valid()
    requires 0 < src.width && 0 < src.height
    requires p.x + src.width <= dst.width && p.y + src.height <= dst.height
    ensures Bitblit(dst, p, src).Ok?
    ensures forall x: nat, y: nat :: x < src.width && y < src.height ==>
      At(Bitblit(dst, p, src).value, p.x + x, p.y + y) == At(src, x, y)
  {
    BitblitCells(dst, p, src);
  }

  /** Blitting the same source at the same place twice is the same as once. */
  lemma BitblitIdempotent<T>(dst: BitMap<T>, p: Point, src: BitMap<T>)
    requires dst.Valid() && src.Valid() && p.x < dst.width && p.y < dst.height
    ensures Bitblit(dst, p, src).Ok?
    ensures Bitblit(Bitblit(dst, p, src).value, p, src) == Bitblit(dst, p, src)
  {
    BitblitCells(dst, p, src);
    var once := Bitblit(dst, p, src).value;
    BitblitCells(once, p, src);
    var twice := Bitblit(once, p, src).value;
    ViewsEqualByPixels(twice, once);
  }

  /** The inner loop of `bitblit` when the source is the view itself
      (`b.bitblit(p, &b)`, two shared borrows of one buffer): each read sees
      the writes made before it. */
  function SelfBlitColumn<T>(b: BitMap<T>, tx: nat, ty: nat, i: nat, j: nat, yend: nat): (r: BitMap<T>)
    requires b.Valid() && tx <= i && ty <= j
    ensures r.width == b.width && r.height == b.height && |r.data| == |b.data|
    ensures r.Valid()
    decreases yend - j
  {
    if j >= yend then b
    else
      var next := match At(b, i - tx, j - ty)
        case Some(v) => Put(b, i, j, v)
        case None => b;
      SelfBlitColumn(next, tx, ty, i, j + 1, yend)
  }

  /** The outer loop of `bitblit` over a view blitted onto itself. */
  function SelfBlitColumns<T>(b: BitMap<T>, tx: nat, ty: nat, i: nat, xend: nat, yend: nat): (r: BitMap<T>)
    requires b.Valid() && tx <= i
    ensures r.width == b.width && r.height == b.height && |r.data| == |b.data|
    ensures r.Valid()
    decreases xend - i
  {
    if i >= xend then b
    else SelfBlitColumns(SelfBlitColumn(b, tx, ty, i, ty, yend), tx, ty, i + 1, xend, yend)
  }

  /** `b.bitblit(p, &b)`: the same origin test and clipping as `Bitblit`,
      with every source read taken from the view as written so far. */
  function BitblitSelf<T>(b: BitMap<T>, p: Point): (r: Result<BitMap<T>>)
    requires b.Valid()
    ensures r.Err? <==> p.x >= b.width || p.y >= b.height
    ensures p.x >= b.width ==> r == Err(OverFlowX(p.x, b.width))
    ensures p.x < b.width && p.y >= b.height ==> r == Err(OverFlowY(p.y, b.height))
    ensures r.Ok? ==> r.value.width == b.width && r.value.height == b.height && |r.value.data| == |b.data|
    ensures r.Ok? ==> r.value.Valid()
  {
    match OriginCheck(b, p)
    case Some(e) => Err(e)
    case None =>
      var xend := Min(p.x + b.width, b.width);
      var yend := Min(p.y + b.height, b.height);
      Ok(SelfBlitColumns(b, p.x, p.y, p.x, xend, yend))
  }

  /** What a self-blit at `p` leaves in cell (x, y), defined independently
      of the loops: a cell of the clipped rectangle takes the final value of
      the cell `p` up and to the left of it, so the pixel that lands there
      is the original one found by stepping back by `p` until the step
      leaves the rectangle. At `p` = (0, 0) nothing moves. */
  function SelfBlitPixel<T>(b: BitMap<T>, p: Point, x: nat, y: nat): Option<T>
    requires b.Valid()
    decreases x + y
  {
    if InClip(b, p, b, x, y) && (p.x > 0 || p.y > 0) then SelfBlitPixel(b, p, x - p.x, y - p.y)
    else At(b, x, y)
  }

  /** Cell (x, y) comes before cell (i, j) in the loops' column-by-column order. */
  predicate Visited(x: nat, y: nat, i: nat, j: nat)
  {
    x < i || (x == i && y < j)
  }

  /** The loops' invariant: the cells of the clipped rectangle visited so
      far hold their final value, the rest still hold the original pixel. */
  ghost predicate SelfBlitSoFar<T>(b: BitMap<T>, p: Point, m: BitMap<T>, i: nat, j: nat)
    requires b.Valid() && m.Valid()
  {
    && m.width == b.width && m.height == b.height && |m.data| == |b.data|
    && (forall x: nat, y: nat :: At(m, x, y) ==
          (if InClip(b, p, b, x, y) && Visited(x, y, i, j) then SelfBlitPixel(b, p, x, y) else At(b, x, y)))
    && (forall k :: Area(b.width, b.height) <= k < |b.data| ==> m.data[k] == b.data[k])
  }

  /** The pixel a self-blit reads for cell (i, j) of the clipped rectangle,
      as the invariant describes it, is already that cell's final value. */
  lemma SelfBlitReadIsFinal<T>(b: BitMap<T>, p: Point, i: nat, j: nat, read: Option<T>)
    requires b.Valid() && InClip(b, p, b, i, j)
    requires read == (if InClip(b, p, b, i - p.x, j - p.y) && Visited(i - p.x, j - p.y, i, j)
                      then SelfBlitPixel(b, p, i - p.x, j - p.y) else At(b, i - p.x, j - p.y))
    ensures read == SelfBlitPixel(b, p, i, j)
  {
    var x, y := i - p.x, j - p.y;
    if p.x > 0 || p.y > 0 {
      assert SelfBlitPixel(b, p, i, j) == SelfBlitPixel(b, p, x, y);
      if InClip(b, p, b, x, y) {
        assert Visited(x, y, i, j);
      } else {
        assert SelfBlitPixel(b, p, x, y) == At(b, x, y);
      }
    } else {
      assert SelfBlitPixel(b, p, i, j) == At(b, i, j);
    }
  }

  /** The inner loop's first pass, unfolded. */
  lemma SelfBlitColumnUnfold<T>(m: BitMap<T>, tx: nat, ty: nat, i: nat, j: nat, yend: nat)
    requires m.Valid() && tx <= i && ty <= j < yend
    requires At(m, i - tx, j - ty).Some?
    ensures SelfBlitColumn(m, tx, ty, i, j, yend) == SelfBlitColumn(Put(m, i, j, At(m, i - tx, j - ty).value), tx, ty, i, j + 1, yend)
  {
  }

  /** One pass of the inner loop keeps the invariant, one cell further on. */
  lemma SelfBlitStep<T>(b: BitMap<T>, p: Point, m: BitMap<T>, i: nat, j: nat)
    requires b.Valid() && m.Valid() && SelfBlitSoFar(b, p, m, i, j)
    requires p.x <= i < b.width && p.y <= j < b.height
    ensures At(m, i - p.x, j - p.y).Some?
    ensures SelfBlitSoFar(b, p, Put(m, i, j, At(m, i - p.x, j - p.y).value), i, j + 1)
  {
    var sx, sy := i - p.x, j - p.y;
    assert At(m, sx, sy) == (if InClip(b, p, b, sx, sy) && Visited(sx, sy, i, j) then SelfBlitPixel(b, p, sx, sy) else At(b, sx, sy));
    SelfBlitReadIsFinal(b, p, i, j, At(m, sx, sy));
    var v := At(m, sx, sy).value;
    var next := Put(m, i, j, v);
    forall x: nat, y: nat
      ensures At(next, x, y) ==
        (if InClip(b, p, b, x, y) && Visited(x, y, i, j + 1) then SelfBlitPixel(b, p, x, y) else At(b, x, y))
    {
      assert At(next, x, y) == (if x == i && y == j then Some(v) else At(m, x, y));
    }
  }

  lemma {:induction false} SelfBlitColumnCells<T>(b: BitMap<T>, p: Point, m: BitMap<T>, i: nat, j: nat)
    requires b.Valid() && m.Valid() && SelfBlitSoFar(b, p, m, i, j)
    requires p.x <= i < b.width && p.y <= j <= b.height
    ensures SelfBlitColumn(m, p.x, p.y, i, j, b.height).Valid()
    ensures SelfBlitSoFar(b, p, SelfBlitColumn(m, p.x, p.y, i, j, b.height), i, b.height)
    decreases b.height - j
  {
    if j < b.height {
      SelfBlitStep(b, p, m, i, j);
      var next := Put(m, i, j, At(m, i - p.x, j - p.y).value);
      SelfBlitColumnUnfold(m, p.x, p.y, i, j, b.height);
      SelfBlitColumnCells(b, p, next, i, j + 1);
    }
  }

  lemma {:induction false} SelfBlitColumnsCells<T>(b: BitMap<T>, p: Point, m: BitMap<T>, i: nat)
    requires b.Valid() && m.Valid() && SelfBlitSoFar(b, p, m, i, p.y)
    requires p.x <= i <= b.width && p.y <= b.height
    ensures SelfBlitColumns(m, p.x, p.y, i, b.width, b.height).Valid()
    ensures SelfBlitSoFar(b, p, SelfBlitColumns(m, p.x, p.y, i, b.width, b.height), b.width, p.y)
    decreases b.width - i
  {
    if i < b.width {
      SelfBlitColumnCells(b, p, m, i, p.y);
      var mid := SelfBlitColumn(m, p.x, p.y, i, p.y, b.height);
      assert SelfBlitSoFar(b, p, mid, i + 1, p.y) by {
        forall x: nat, y: nat | InClip(b, p, b, x, y)
          ensures Visited(x, y, i, b.height) == Visited(x, y, i + 1, p.y)
        {
        }
      }
      SelfBlitColumnsCells(b, p, mid, i + 1);
    }
  }

  /** A view blitted onto itself at an origin inside it: every cell of the
      clipped rectangle ends with `SelfBlitPixel`, every other cell and the
      buffer past the view are unchanged. */
  lemma BitblitSelfCells<T>(b: BitMap<T>, p: Point)
    requires b.Valid() && p.x < b.width && p.y < b.height
    ensures BitblitSelf(b, p).Ok?
    ensures forall x: nat, y: nat :: At(BitblitSelf(b, p).value, x, y) == SelfBlitPixel(b, p, x, y)
    ensures forall k :: Area(b.width, b.height) <= k < |b.data| ==> BitblitSelf(b, p).value.data[k] == b.data[k]
  {
    assert SelfBlitSoFar(b, p, b, p.x, p.y);
    SelfBlitColumnsCells(b, p, b, p.x);
    var r := BitblitSelf(b, p).value;
    forall x: nat, y: nat
      ensures At(r, x, y) == SelfBlitPixel(b, p, x, y)
    {
      if !InClip(b, p, b, x, y) {
        assert At(r, x, y) == At(b, x, y);
      }
    }
  }

  /** The self-blit agrees with a blit from a copy of the view in every
      cell whose source cell lies outside the clipped rectangle, that is,
      was never written; at origin (0, 0) both leave the view as it was. */
  lemma BitblitSelfVersusCopy<T>(b: BitMap<T>, p: Point)
    requires b.Valid() && p.x < b.width && p.y < b.height
    ensures BitblitSelf(b, p).Ok? && Bitblit(b, p, b).Ok?
    ensures forall x: nat, y: nat :: !InClip(b, p, b, x, y) || !InClip(b, p, b, x - p.x, y - p.y) ==>
      At(BitblitSelf(b, p).value, x, y) == At(Bitblit(b, p, b).value, x, y)
    ensures p == Point(0, 0) ==> BitblitSelf(b, p) == Bitblit(b, p, b) == Ok(b)
  {
    BitblitSelfCells(b, p);
    BitblitCells(b, p, b);
    forall x: nat, y: nat | InClip(b, p, b, x, y) && !InClip(b, p, b, x - p.x, y - p.y)
      ensures At(BitblitSelf(b, p).value, x, y) == At(Bitblit(b, p, b).value, x, y)
    {
      if p.x > 0 || p.y > 0 {
        assert SelfBlitPixel(b, p, x, y) == SelfBlitPixel(b, p, x - p.x, y - p.y);
      }
    }
    if p == Point(0, 0) {
      ViewsEqualByPixels(BitblitSelf(b, p).value, b);
      ViewsEqualByPixels(Bitblit(b, p, b).value, b);
    }
  }

  /** Where the self-blit and a blit from a copy of the view differ: on a
      3 × 1 view over [1, 2, 3] at (1, 0), the loop reads the pixel it has
      just written into column 1 and smears pixel 0 across the row, while a
      copy shifts the row. */
  lemma SelfBlitSmearsWhereCopyShifts()
    ensures BitblitSelf(BitMap([1, 2, 3], 3, 1), Point(1, 0)) == Ok(BitMap([1, 1, 1], 3, 1))
    ensures Bitblit(BitMap([1, 2, 3], 3, 1), Point(1, 0), BitMap([1, 2, 3], 3, 1)) == Ok(BitMap([1, 1, 2], 3, 1))
  {
    var b, p := BitMap([1, 2, 3], 3, 1), Point(1, 0);
    BitblitSelfCells(b, p);
    BitblitCells(b, p, b);
    var smeared, shifted := BitMap([1, 1, 1], 3, 1), BitMap([1, 1, 2], 3, 1);
    forall x: nat, y: nat
      ensures At(BitblitSelf(b, p).value, x, y) == At(smeared, x, y)
      ensures At(Bitblit(b, p, b).value, x, y) == At(shifted, x, y)
    {
      if x < 3 && y < 1 {
        assert SelfBlitPixel(b, p, x, y) == Some(1) by {
          if x == 2 {
            assert SelfBlitPixel(b, p, 2, 0) == SelfBlitPixel(b, p, 1, 0);
          }
        }
      }
    }
    ViewsEqualByPixels(BitblitSelf(b, p).value, smeared);
    ViewsEqualByPixels(Bitblit(b, p, b).value, shifted);
  }

  /** The `draw_text` loop: blits each glyph at the cursor and moves the
      cursor right by the glyph's width; the first failing blit ends the
      loop, and the failure is not reported. */
  function DrawGlyphs<T>(b: BitMap<T>, cx: nat, y: nat, glyphs: seq<CharBitMap<T>>): (r: BitMap<T>)
    requires b.Valid() && forall k :: 0 <= k < |glyphs| ==> glyphs[k].Viewable()
    ensures r.width == b.width && r.height == b.height && |r.data| == |b.data|
    ensures r.Valid()
    decreases |glyphs|
  {
    if |glyphs| == 0 then b
    else
      match Bitblit(b, Point(cx, y), glyphs[0].Bitmap())
      case Err(_) => b
      case Ok(next) => DrawGlyphs(next, cx + glyphs[0].width, y, glyphs[1..])
  }

  /** `draw_text` over glyphs already extracted from the font, one per
      character: the only error it reports is its own origin test. */
  function DrawText<T>(b: BitMap<T>, p: Point, glyphs: seq<CharBitMap<T>>): (r: Result<BitMap<T>>)
    requires b.Valid() && forall k :: 0 <= k < |glyphs| ==> glyphs[k].Viewable()
    ensures r.Err? <==> p.x >= b.width || p.y >= b.height
    ensures p.x >= b.width ==> r == Err(OverFlowX(p.x, b.width))
    ensures p.x < b.width && p.y >= b.height ==> r == Err(OverFlowY(p.y, b.height))
    ensures r.Ok? ==> r.value.width == b.width && r.value.height == b.height && |r.value.data| == |b.data|
  {
    match OriginCheck(b, p)
    case Some(e) => Err(e)
    case None => Ok(DrawGlyphs(b, p.x, p.y, glyphs))
  }

  /** Where glyph k goes: the start plus the widths of the glyphs before it. */
  function Cursor<T>(cx: nat, glyphs: seq<CharBitMap<T>>, k: nat): nat
    requires k <= |glyphs|
    decreases k
  {
    if k == 0 then cx else Cursor(cx + glyphs[0].width, glyphs[1..], k - 1)
  }

  lemma {:induction false} CursorMonotone<T>(cx: nat, glyphs: seq<CharBitMap<T>>, k: nat)
    requires k <= |glyphs|
    ensures cx <= Cursor(cx, glyphs, k)
    ensures 0 < k ==> cx + glyphs[0].width <= Cursor(cx, glyphs, k)
    decreases k
  {
    if k > 0 {
      CursorMonotone(cx + glyphs[0].width, glyphs[1..], k - 1);
    }
  }

  /** Cell (x, y) lies in the cell of glyph k of a line drawn from (cx, ty). */
  predicate InGlyph<T>(cx: nat, ty: nat, glyphs: seq<CharBitMap<T>>, k: nat, x: nat, y: nat)
    requires k < |glyphs|
  {
    Cursor(cx, glyphs, k) <= x < Cursor(cx, glyphs, k) + glyphs[k].width && ty <= y < ty + glyphs[k].height
  }

  /** Drawing a line of glyphs changes no cell outside the glyphs' cells,
      nor the buffer past the view. */
  lemma {:induction false} DrawGlyphsFrame<T>(b: BitMap<T>, cx: nat, y: nat, glyphs: seq<CharBitMap<T>>)
    requires b.Valid() && forall k :: 0 <= k < |glyphs| ==> glyphs[k].Viewable()
    ensures forall i: nat, j: nat ::
      (forall k :: 0 <= k < |glyphs| ==> !InGlyph(cx, y, glyphs, k, i, j)) ==>
      At(DrawGlyphs(b, cx, y, glyphs), i, j) == At(b, i, j)
    ensures forall k :: Area(b.width, b.height) <= k < |b.data| ==> DrawGlyphs(b, cx, y, glyphs).data[k] == b.data[k]
    decreases |glyphs|
  {
    if |glyphs| > 0 {
      var g := glyphs[0].Bitmap();
      var rest := glyphs[1..];
      if cx < b.width && y < b.height {
        BitblitCells(b, Point(cx, y), g);
        var next := Bitblit(b, Point(cx, y), g).value;
        DrawGlyphsFrame(next, cx + glyphs[0].width, y, rest);
        var cx' := cx + glyphs[0].width;
        forall i: nat, j: nat | (forall k :: 0 <= k < |glyphs| ==> !InGlyph(cx, y, glyphs, k, i, j))
          ensures At(DrawGlyphs(b, cx, y, glyphs), i, j) == At(b, i, j)
        {
          assert !InGlyph(cx, y, glyphs, 0, i, j);
          forall k | 0 <= k < |rest|
            ensures !InGlyph(cx', y, rest, k, i, j)
          {
            assert !InGlyph(cx, y, glyphs, k + 1, i, j);
          }
        }
      }
    }
  }

  /** The first glyph of a line shows in its clipped cell: the later
      glyphs all lie to its right. */
  /** Drawing a line leaves every cell left of its start as it was: each
      blit writes only at or right of the cursor, which never moves left. */
  lemma {:induction false} DrawGlyphsLeftUnchanged<T>(b: BitMap<T>, cx: nat, y: nat, glyphs: seq<CharBitMap<T>>)
    requires b.Valid() && forall m :: 0 <= m < |glyphs| ==> glyphs[m].Viewable()
    ensures forall i: nat, j: nat :: i < cx ==> At(DrawGlyphs(b, cx, y, glyphs), i, j) == At(b, i, j)
    decreases |glyphs|
  {
    if |glyphs| > 0 && cx < b.width && y < b.height {
      var g := glyphs[0].Bitmap();
      BitblitCells(b, Point(cx, y), g);
      var next := Bitblit(b, Point(cx, y), g).value;
      DrawGlyphsLeftUnchanged(next, cx + glyphs[0].width, y, glyphs[1..]);
    }
  }

  /** Glyph k is drawn, clipped to the view, whenever its cursor lies inside
      the view: every cell it covers shows the glyph's pixel, since the
      glyphs before it were placed and the glyphs after it lie further right. */
  lemma {:induction false} DrawGlyphsPaints<T>(b: BitMap<T>, cx: nat, y: nat, glyphs: seq<CharBitMap<T>>, k: nat)
    requires b.Valid() && forall m :: 0 <= m < |glyphs| ==> glyphs[m].Viewable()
    requires y < b.height && k < |glyphs| && Cursor(cx, glyphs, k) < b.width
    ensures forall i: nat, j: nat :: InClip(b, Point(Cursor(cx, glyphs, k), y), glyphs[k].Bitmap(), i, j) ==>
      At(DrawGlyphs(b, cx, y, glyphs), i, j) == At(glyphs[k].Bitmap(), i - Cursor(cx, glyphs, k), j - y)
    decreases k
  {
    CursorMonotone(cx, glyphs, k);
    var g := glyphs[0].Bitmap();
    var rest := glyphs[1..];
    BitblitCells(b, Point(cx, y), g);
    var next := Bitblit(b, Point(cx, y), g).value;
    if k == 0 {
      var cx' := cx + glyphs[0].width;
      assert DrawGlyphs(b, cx, y, glyphs) == DrawGlyphs(next, cx', y, rest);
      DrawGlyphsLeftUnchanged(next, cx', y, rest);
    } else {
      DrawGlyphsPaints(next, cx + glyphs[0].width, y, rest, k - 1);
    }
  }

  /** `draw_text` as if the loop went on past a failing blit, still moving
      the cursor: an independent reading of the swallowing policy. */
  function DrawGlyphsSkipping<T>(b: BitMap<T>, cx: nat, y: nat, glyphs: seq<CharBitMap<T>>): (r: BitMap<T>)
    requires b.Valid() && forall k :: 0 <= k < |glyphs| ==> glyphs[k].Viewable()
    ensures r.Valid()
    decreases |glyphs|
  {
    if |glyphs| == 0 then b
    else
      match Bitblit(b, Point(cx, y), glyphs[0].Bitmap())
      case Err(_) => DrawGlyphsSkipping(b, cx + glyphs[0].width, y, glyphs[1..])
      case Ok(next) => DrawGlyphsSkipping(next, cx + glyphs[0].width, y, glyphs[1..])
  }

  lemma {:induction false} SkippingPastRightEdgeIsIdentity<T>(b: BitMap<T>, cx: nat, y: nat, glyphs: seq<CharBitMap<T>>)
    requires b.Valid() && forall k :: 0 <= k < |glyphs| ==> glyphs[k].Viewable()
    requires b.width <= cx
    ensures DrawGlyphsSkipping(b, cx, y, glyphs) == b
    decreases |glyphs|
  {
    if |glyphs| > 0 {
      SkippingPastRightEdgeIsIdentity(b, cx + glyphs[0].width, y, glyphs[1..]);
    }
  }

  /** Stopping at the first failed blit loses nothing: within the view's
      rows a blit fails only once the cursor has passed the right edge, and
      the cursor never moves left, so every later blit would fail too. */
  lemma {:induction false} BreakEqualsSkip<T>(b: BitMap<T>, cx: nat, y: nat, glyphs: seq<CharBitMap<T>>)
    requires b.Valid() && forall k :: 0 <= k < |glyphs| ==> glyphs[k].Viewable()
    requires y < b.height
    ensures DrawGlyphs(b, cx, y, glyphs) == DrawGlyphsSkipping(b, cx, y, glyphs)
    decreases |glyphs|
  {
    if |glyphs| > 0 {
      var g := glyphs[0].Bitmap();
      match Bitblit(b, Point(cx, y), g)
      case Err(_) =>
        SkippingPastRightEdgeIsIdentity(b, cx + glyphs[0].width, y, glyphs[1..]);
      case Ok(next) =>
        BreakEqualsSkip(next, cx + glyphs[0].width, y, glyphs[1..]);
    }
  }
}
