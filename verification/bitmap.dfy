/** The bitmap view: a width × height window over a flat, caller-owned
    pixel buffer, its construction check and its raw accessors. */
module BitMaps {

  datatype Option<T> = None | Some(value: T)

  /** Errors reported by construction and by the draw operations. Sizes in
      `NotEnoughBuffer` are in bytes. */
  datatype BitMapError =
    | NotEnoughBuffer(buffer: nat, total: nat)
    | OverFlowX(x: nat, width: nat)
    | OverFlowY(y: nat, height: nat)

  datatype Result<T> = Ok(value: T) | Err(error: BitMapError)

  /** The outcome of a raw accessor whose bound test can let an index past
      the end of the buffer through, where the slice index panics. */
  datatype Access<T> = Done(value: T) | Panic

  /** Pixel coordinates, origin at the top-left corner of a view. */
  datatype Point = Point(x: nat, y: nat)

  /** A view of `width` × `height` pixels stored row by row in `data`; the
      buffer may be longer than the view. */
  datatype BitMap<T> = BitMap(data: seq<T>, width: nat, height: nat)
  {
    /** What construction establishes: the buffer holds the whole view. */
    predicate Valid()
    {
      Area(width, height) <= |data|
    }
  }

  /** The number of pixels in a width × height view, that is
      `width * height` (see `AreaIsProduct`), counted row by row so that the
      solver sees no product of variables. */
  function Area(width: nat, height: nat): nat
  {
    if height == 0 then 0 else width + Area(width, height - 1)
  }

  lemma {:induction false} AreaIsProduct(width: nat, height: nat)
    ensures Area(width, height) == width * height
  {
    if height > 0 {
      AreaIsProduct(width, height - 1);
    }
  }

  /** Row-major position of pixel (x, y) in a buffer with rows of `width`,
      that is `width * y + x` (see `OffsetIsRowMajor`), written as y whole
      rows stepped over so that the solver sees no product of variables. */
  function Offset(width: nat, x: nat, y: nat): nat
  {
    if y == 0 then x else width + Offset(width, x, y - 1)
  }

  lemma {:induction false} OffsetIsRowMajor(width: nat, x: nat, y: nat)
    ensures Offset(width, x, y) == width * y + x
  {
    if y > 0 {
      OffsetIsRowMajor(width, x, y - 1);
    }
  }

  lemma {:induction false} OffsetInView(width: nat, height: nat, x: nat, y: nat)
    requires x < width && y < height
    ensures Offset(width, x, y) < Area(width, height)
  {
    if y > 0 {
      OffsetInView(width, height - 1, x, y - 1);
    }
  }

  /** Distinct in-row coordinates have distinct offsets. */
  lemma {:induction false} OffsetInjective(width: nat, x1: nat, y1: nat, x2: nat, y2: nat)
    requires x1 < width && x2 < width
    requires Offset(width, x1, y1) == Offset(width, x2, y2)
    ensures x1 == x2 && y1 == y2
  {
    if y1 > 0 && y2 > 0 {
      OffsetInjective(width, x1, y1 - 1, x2, y2 - 1);
    }
  }

  /** Inside a valid view every pixel's offset is inside the buffer. */
  lemma OffsetInBuffer<T>(b: BitMap<T>, x: nat, y: nat)
    ensures b.Valid() && x < b.width && y < b.height ==> Offset(b.width, x, y) < |b.data|
  {
    if b.Valid() && x < b.width && y < b.height {
      OffsetInView(b.width, b.height, x, y);
    }
  }

  /** Column `width` of row y has the offset of column 0 of row y + 1. */
  lemma OffsetWrapsToNextRow(width: nat, y: nat)
    ensures Offset(width, width, y) == Offset(width, 0, y + 1)
  {
    OffsetIsRowMajor(width, width, y);
    OffsetIsRowMajor(width, 0, y + 1);
  }

  /** Every position inside the view is the offset of a pixel of the view. */
  lemma {:induction false} OffsetCovers(width: nat, height: nat, k: nat) returns (x: nat, y: nat)
    requires k < Area(width, height)
    ensures x < width && y < height && Offset(width, x, y) == k
  {
    if k < width {
      x, y := k, 0;
    } else {
      x, y := OffsetCovers(width, height - 1, k - width);
      y := y + 1;
    }
  }

  /** `BitMap::new`: refuses a buffer too short for the view; the error
      reports both sizes in bytes of `pixBytes` each. */
  function New<T>(data: seq<T>, width: nat, height: nat, pixBytes: nat): (r: Result<BitMap<T>>)
    ensures r.Ok? <==> width * height <= |data|
    ensures r.Ok? ==> r.value.Valid()
    ensures r.Ok? ==> r.value.data == data && r.value.width == width && r.value.height == height
    ensures r.Err? ==> r.error == NotEnoughBuffer(|data| * pixBytes, width * height * pixBytes)
  {
    AreaIsProduct(width, height);
    if |data| < width * height then
      Err(NotEnoughBuffer(|data| * pixBytes, width * height * pixBytes))
    else
      Ok(BitMap(data, width, height))
  }

  /** Corrected read: the pixel at (x, y) when it lies inside the view. */
  function At<T>(b: BitMap<T>, x: nat, y: nat): (r: Option<T>)
    requires b.Valid()
    ensures r.Some? <==> x < b.width && y < b.height
    ensures r.Some? ==> Offset(b.width, x, y) < |b.data| && r.value == b.data[Offset(b.width, x, y)]
  {
    if x >= b.width || y >= b.height then None
    else
      OffsetInView(b.width, b.height, x, y);
      Some(b.data[Offset(b.width, x, y)])
  }

  /** Corrected write: replaces pixel (x, y) when it lies inside the view. A
      read after the write sees the new pixel there and the old one
      everywhere else; the buffer beyond the view is untouched. */
  function Put<T>(b: BitMap<T>, x: nat, y: nat, v: T): (r: BitMap<T>)
    requires b.Valid()
    ensures r.width == b.width && r.height == b.height && |r.data| == |b.data|
    ensures r.Valid()
    ensures forall i: nat, j: nat :: At(r, i, j) == (if i == x && j == y && x < b.width && y < b.height then Some(v) else At(b, i, j))
    ensures forall k :: Area(b.width, b.height) <= k < |b.data| ==> r.data[k] == b.data[k]
  {
    if x >= b.width || y >= b.height then b
    else
      WriteInsideView(b, x, y, v);
      b.(data := b.data[Offset(b.width, x, y) := v])
  }

  /** Replacing the element at the offset of an in-view pixel changes that
      pixel only. */
  lemma WriteInsideView<T>(b: BitMap<T>, x: nat, y: nat, v: T)
    requires b.Valid() && x < b.width && y < b.height
    ensures Offset(b.width, x, y) < Area(b.width, b.height) <= |b.data|
    ensures var r := b.(data := b.data[Offset(b.width, x, y) := v]);
      && r.Valid()
      && forall i: nat, j: nat :: At(r, i, j) == (if i == x && j == y then Some(v) else At(b, i, j))
  {
    OffsetInView(b.width, b.height, x, y);
    var r := b.(data := b.data[Offset(b.width, x, y) := v]);
    forall i: nat, j: nat
      ensures At(r, i, j) == (if i == x && j == y then Some(v) else At(b, i, j))
    {
      if i < b.width && j < b.height {
        OffsetInView(b.width, b.height, i, j);
        if Offset(b.width, i, j) == Offset(b.width, x, y) {
          OffsetInjective(b.width, i, j, x, y);
        }
      }
    }
  }

  /** Two views of the same shape that agree on every pixel and on the
      buffer past the view are the same view. */
  lemma ViewsEqualByPixels<T>(a: BitMap<T>, b: BitMap<T>)
    requires a.Valid() && b.Valid()
    requires a.width == b.width && a.height == b.height && |a.data| == |b.data|
    requires forall x: nat, y: nat :: At(a, x, y) == At(b, x, y)
    requires forall k :: Area(a.width, a.height) <= k < |a.data| ==> a.data[k] == b.data[k]
    ensures a == b
  {
    forall k | 0 <= k < |a.data|
      ensures a.data[k] == b.data[k]
    {
      if k < Area(a.width, a.height) {
        var x, y := OffsetCovers(a.width, a.height, k);
        assert At(a, x, y) == At(b, x, y);
      }
    }
  }

  /** `BitMap::get` as written: the bound test is `>`, so column `width` and
      row `height` pass it, and the slice index panics when the computed
      offset is past the buffer. */
  function Get<T>(b: BitMap<T>, x: nat, y: nat): (r: Access<Option<T>>)
    ensures r == Done(None) <==> x > b.width || y > b.height
    ensures r.Panic? <==> x <= b.width && y <= b.height && |b.data| <= Offset(b.width, x, y)
    ensures r.Done? && r.value.Some? ==> Offset(b.width, x, y) < |b.data| && r.value.value == b.data[Offset(b.width, x, y)]
    ensures b.Valid() && x < b.width && y < b.height ==> r == Done(At(b, x, y))
  {
    OffsetInBuffer(b, x, y);
    if x > b.width || y > b.height then Done(None)
    else if Offset(b.width, x, y) < |b.data| then Done(Some(b.data[Offset(b.width, x, y)]))
    else Panic
  }

  /** `BitMap::set` as written: a silent no-op past the `>` bound test, a
      panic when the computed offset is past the buffer, otherwise a write of
      that one offset. */
  function Set<T>(b: BitMap<T>, x: nat, y: nat, v: T): (r: Access<BitMap<T>>)
    ensures x > b.width || y > b.height ==> r == Done(b)
    ensures r.Panic? <==> x <= b.width && y <= b.height && |b.data| <= Offset(b.width, x, y)
    ensures r.Done? ==> r.value.width == b.width && r.value.height == b.height && |r.value.data| == |b.data|
    ensures r.Done? && x <= b.width && y <= b.height ==>
      && r.value.data[Offset(b.width, x, y)] == v
      && forall k :: 0 <= k < |b.data| && k != Offset(b.width, x, y) ==> r.value.data[k] == b.data[k]
    ensures b.Valid() && x < b.width && y < b.height ==> r == Done(Put(b, x, y, v))
  {
    OffsetInBuffer(b, x, y);
    if x > b.width || y > b.height then Done(b)
    else if Offset(b.width, x, y) < |b.data| then Done(b.(data := b.data[Offset(b.width, x, y) := v]))
    else Panic
  }

  /** Off-by-one in `get`: column `width` of row y is accepted and reads the
      first pixel of row y + 1. */
  lemma GetPastRightEdgeReadsNextRow<T>(b: BitMap<T>, y: nat)
    requires b.Valid() && 0 < b.width && y + 1 < b.height
    ensures Get(b, b.width, y) == Done(At(b, 0, y + 1))
  {
    OffsetWrapsToNextRow(b.width, y);
  }

  /** Off-by-one in `set`: column `width` of row y is accepted and overwrites
      the first pixel of row y + 1. */
  lemma SetPastRightEdgeWritesNextRow<T>(b: BitMap<T>, y: nat, v: T)
    requires b.Valid() && 0 < b.width && y + 1 < b.height
    ensures Set(b, b.width, y, v) == Done(Put(b, 0, y + 1, v))
  {
    OffsetWrapsToNextRow(b.width, y);
    OffsetInView(b.width, b.height, 0, y + 1);
  }

  /** Off-by-one in `get`/`set`: row `height` is accepted, and over a buffer
      of exactly width × height pixels the index is past the end. */
  lemma BottomEdgePanics<T>(b: BitMap<T>, x: nat, v: T)
    requires |b.data| == b.width * b.height && x <= b.width
    ensures Get(b, x, b.height).Panic?
    ensures Set(b, x, b.height, v).Panic?
  {
    OffsetIsRowMajor(b.width, x, b.height);
  }

  /** A 2 × 2 view over four pixels: `get(2, 0)` yields pixel (0, 1) and
      `get(0, 2)` panics, where a `>=` test would report both as absent. */
  lemma OffByOneExample()
    ensures Get(BitMap([10, 11, 12, 13], 2, 2), 2, 0) == Done(Some(12))
    ensures Get(BitMap([10, 11, 12, 13], 2, 2), 0, 2) == Panic
    ensures At(BitMap([10, 11, 12, 13], 2, 2), 2, 0) == None
    ensures At(BitMap([10, 11, 12, 13], 2, 2), 0, 2) == None
  {
  }
}
