/**
 * Compositing (webpfex/overlay.go): clearing a canvas, and pasting an overlay
 * canvas onto it at an offset, either replacing the cells or alpha-blending
 * the overlay over them.
 *
 * Each operator is a nested loop over canvas cells and is proved against a
 * function on images (`Cleared`, `Composited`); the lemmas about those
 * functions say what ends up where.
 */
module Overlay {
  import opened Wrappers
  import opened Ints
  import opened Colors
  import opened Canvases

  /** The alpha every blended colour gets, whatever either input's alpha is. */
  const OPAQUE: u16 := 0xFFFF

  /**
   * One blended channel: the overlay channel weighted by `alpha / 0xFFFF`
   * plus the destination channel weighted by the rest, truncated to uint16.
   * The source computes the weights in float64; here the weighted sum is the
   * exact rational, floored. It lies between the two channels, and the end
   * weights give one of them exactly.
   */
  function BlendChannel(with: u16, dst: u16, alpha: u16): (r: u16)
    ensures alpha == 0xFFFF ==> r == with
    ensures alpha == 0 ==> r == dst
    ensures dst <= with ==> dst <= r <= with
    ensures with <= dst ==> with <= r <= dst
  {
    var num := with * alpha + dst * (0xFFFF - alpha);
    WeightedBounds(with, dst, alpha);
    num / 0xFFFF
  }

  /** The weighted sum lies between the sums with all weight on either channel. */
  lemma WeightedBounds(w: u16, d: u16, a: u16)
    ensures a == 0xFFFF ==> w * a + d * (0xFFFF - a) == w * 0xFFFF
    ensures a == 0 ==> w * a + d * (0xFFFF - a) == d * 0xFFFF
    ensures d <= w ==> d * 0xFFFF <= w * a + d * (0xFFFF - a) <= w * 0xFFFF
    ensures w <= d ==> w * 0xFFFF <= w * a + d * (0xFFFF - a) <= d * 0xFFFF
  {
    var n := w * a + d * (0xFFFF - a);
    assert n == d * 0xFFFF + (w - d) * a;
    if d <= w {
      MulMonotone(0, a, w - d);
      MulMonotone(a, 0xFFFF, w - d);
    } else {
      MulMonotone(0, a, d - w);
      MulMonotone(a, 0xFFFF, d - w);
    }
  }

  /**
   * The colour of one blended cell: R, G and B blended by the overlay's alpha
   * alone, alpha forced to opaque. So a blended colour is opaque whatever
   * either alpha is; over an opaque overlay it takes the overlay's R, G and
   * B, and under a transparent one it keeps the destination's.
   */
  function OverlayColor(color: Color, with: Color): (r: Color)
    ensures r.A() == OPAQUE
    ensures with.A() == 0xFFFF ==> r.Rgba() == (with.R(), with.G(), with.B(), OPAQUE)
    ensures with.A() == 0 ==> r.Rgba() == (color.R(), color.G(), color.B(), OPAQUE)
  {
    var wA := with.A();
    var bR := BlendChannel(with.R(), color.R(), wA);
    var bG := BlendChannel(with.G(), color.G(), wA);
    var bB := BlendChannel(with.B(), color.B(), wA);
    MakeColorRgba(bR, bG, bB, OPAQUE)
  }

  /** The image after clearing: the same size, every cell `color`. */
  function Cleared(img: Image, color: Color): (r: Image)
    requires img.Valid()
    ensures r.Valid() && r.width == img.width && r.height == img.height
  {
    Image(img.width, img.height, seq(|img.grid|, _ => color.Value()))
  }

  lemma ClearedPixels(img: Image, color: Color)
    requires img.Valid()
    ensures forall x: u32, y: u32 :: x < img.width && y < img.height ==>
      Cleared(img, color).Pixel(x, y) == color
  {
    forall x: u32, y: u32 | x < img.width && y < img.height
      ensures Cleared(img, color).Pixel(x, y) == color
    {
      ToIndexInRange(img.width, img.height, x, y);
    }
  }

  /**
   * The overlay placed at the offset neither panics nor wraps: it is empty, or
   * it lies inside the destination. Exactly then the loops of the two overlay
   * operators finish: otherwise the first cell past the destination's edge
   * makes `WriteAt` (or `At`) panic before any `x + xOffset` can wrap.
   */
  predicate Fits(dstWidth: u32, dstHeight: u32, width: u32, height: u32, xOffset: u32, yOffset: u32)
  {
    width == 0 || height == 0 || (xOffset + width <= dstWidth && yOffset + height <= dstHeight)
  }

  /** The destination cell (x, y) lies under the overlay. */
  predicate Covered(with: Image, xOffset: u32, yOffset: u32, x: int, y: int)
  {
    xOffset <= x < xOffset + with.width && yOffset <= y < yOffset + with.height
  }

  /**
   * The colour a destination cell ends with: under the overlay, the overlay's
   * cell (replace) or the overlay's cell blended over the destination's
   * (blend); elsewhere the destination's own.
   */
  function CompositePixel(dst: Image, with: Image, xOffset: u32, yOffset: u32, blend: bool, x: u32, y: u32): Color
    requires dst.Valid() && with.Valid() && x < dst.width && y < dst.height
  {
    if Covered(with, xOffset, yOffset, x, y) then
      var over := with.Pixel(x - xOffset, y - yOffset);
      if blend then OverlayColor(dst.Pixel(x, y), over) else over
    else
      dst.Pixel(x, y)
  }

  /** The destination after the overlay is pasted at (xOffset, yOffset). */
  function Composited(dst: Image, with: Image, xOffset: u32, yOffset: u32, blend: bool): (r: Image)
    requires dst.Valid() && with.Valid()
    ensures r.Valid() && r.width == dst.width && r.height == dst.height
  {
    Image(dst.width, dst.height,
      seq(|dst.grid|, i requires 0 <= i < |dst.grid| =>
        IndexCoordinates(dst.width, dst.height, i);
        CompositePixel(dst, with, xOffset, yOffset, blend, i % dst.width, i / dst.width).Value()))
  }

  /** Cell by cell, `Composited` is `CompositePixel`. */
  lemma CompositedPixels(dst: Image, with: Image, xOffset: u32, yOffset: u32, blend: bool)
    requires dst.Valid() && with.Valid()
    ensures forall x: u32, y: u32 :: x < dst.width && y < dst.height ==>
      Composited(dst, with, xOffset, yOffset, blend).Pixel(x, y)
      == CompositePixel(dst, with, xOffset, yOffset, blend, x, y)
  {
    var r := Composited(dst, with, xOffset, yOffset, blend);
    forall x: u32, y: u32 | x < dst.width && y < dst.height
      ensures r.Pixel(x, y) == CompositePixel(dst, with, xOffset, yOffset, blend, x, y)
    {
      ToIndexInRange(dst.width, dst.height, x, y);
      var i := ToIndex(dst.width, x, y);
      IndexCoordinates(dst.width, dst.height, i);
      ToIndexInjective(dst.width, dst.height, x, y, i % dst.width, i / dst.width);
    }
  }

  /**
   * Replacing: every overlay cell (x, y) lands at (x + xOffset, y + yOffset)
   * exactly, and every destination cell outside the overlay is unchanged.
   */
  lemma ReplacedCells(dst: Image, with: Image, xOffset: u32, yOffset: u32)
    requires dst.Valid() && with.Valid()
    requires Fits(dst.width, dst.height, with.width, with.height, xOffset, yOffset)
    ensures forall x: u32, y: u32 :: x < with.width && y < with.height ==>
      xOffset + x < dst.width && yOffset + y < dst.height &&
      Composited(dst, with, xOffset, yOffset, false).Pixel(xOffset + x, yOffset + y) == with.Pixel(x, y)
    ensures forall x: u32, y: u32 :: x < dst.width && y < dst.height && !Covered(with, xOffset, yOffset, x, y) ==>
      Composited(dst, with, xOffset, yOffset, false).Pixel(x, y) == dst.Pixel(x, y)
  {
    CompositedPixels(dst, with, xOffset, yOffset, false);
    forall x: u32, y: u32 | x < with.width && y < with.height
      ensures xOffset + x < dst.width && yOffset + y < dst.height
      ensures Composited(dst, with, xOffset, yOffset, false).Pixel(xOffset + x, yOffset + y) == with.Pixel(x, y)
    {
      var dx: u32, dy: u32 := xOffset + x, yOffset + y;
      assert CompositePixel(dst, with, xOffset, yOffset, false, dx, dy) == with.Pixel(x, y);
    }
  }

  /**
   * Blending: every covered cell becomes `OverlayColor` of its old colour and
   * the overlay's cell (see `OverlayColor`); every cell outside the
   * overlay is unchanged.
   */
  lemma BlendedCells(dst: Image, with: Image, xOffset: u32, yOffset: u32)
    requires dst.Valid() && with.Valid()
    requires Fits(dst.width, dst.height, with.width, with.height, xOffset, yOffset)
    ensures forall x: u32, y: u32 :: x < with.width && y < with.height ==>
      xOffset + x < dst.width && yOffset + y < dst.height &&
      Composited(dst, with, xOffset, yOffset, true).Pixel(xOffset + x, yOffset + y)
      == OverlayColor(dst.Pixel(xOffset + x, yOffset + y), with.Pixel(x, y))
    ensures forall x: u32, y: u32 :: x < dst.width && y < dst.height && !Covered(with, xOffset, yOffset, x, y) ==>
      Composited(dst, with, xOffset, yOffset, true).Pixel(x, y) == dst.Pixel(x, y)
  {
    CompositedPixels(dst, with, xOffset, yOffset, true);
    forall x: u32, y: u32 | x < with.width && y < with.height
      ensures xOffset + x < dst.width && yOffset + y < dst.height
      ensures Composited(dst, with, xOffset, yOffset, true).Pixel(xOffset + x, yOffset + y)
              == OverlayColor(dst.Pixel(xOffset + x, yOffset + y), with.Pixel(x, y))
    {
      BlendedCell(dst, with, xOffset, yOffset, x, y);
    }
  }

  /** One overlay cell (x, y), blended at its place in the destination. */
  lemma BlendedCell(dst: Image, with: Image, xOffset: u32, yOffset: u32, x: u32, y: u32)
    requires dst.Valid() && with.Valid()
    requires Fits(dst.width, dst.height, with.width, with.height, xOffset, yOffset)
    requires x < with.width && y < with.height
    ensures xOffset + x < dst.width && yOffset + y < dst.height
    ensures CompositePixel(dst, with, xOffset, yOffset, true, xOffset + x, yOffset + y)
            == OverlayColor(dst.Pixel(xOffset + x, yOffset + y), with.Pixel(x, y))
  {
    var dx: u32, dy: u32 := xOffset + x, yOffset + y;
    assert Covered(with, xOffset, yOffset, dx, dy) && dx - xOffset == x && dy - yOffset == y;
  }

  /**
   * The loop state of the overlay operators: the overlay rows before `row`,
   * and the cells before `col` in row `row`, are composited; every other cell
   * still has its colour from `start`.
   */
  ghost predicate PastedUpTo(cur: Image, start: Image, with: Image, xOffset: u32, yOffset: u32, blend: bool, row: int, col: int)
    requires cur.Valid() && start.Valid() && with.Valid()
    requires cur.width == start.width && cur.height == start.height
  {
    forall x: u32, y: u32 :: x < cur.width && y < cur.height ==>
      cur.Pixel(x, y) ==
        if Covered(with, xOffset, yOffset, x, y) && (y - yOffset < row || (y - yOffset == row && x - xOffset < col))
        then CompositePixel(start, with, xOffset, yOffset, blend, x, y)
        else start.Pixel(x, y)
  }

  /** One iteration of an overlay loop: cell (col, row) of the overlay is pasted. */
  lemma PasteStep(cur: Image, start: Image, with: Image, xOffset: u32, yOffset: u32, blend: bool, row: u32, col: u32, c: Color)
    requires cur.Valid() && start.Valid() && with.Valid()
    requires cur.width == start.width && cur.height == start.height
    requires Fits(cur.width, cur.height, with.width, with.height, xOffset, yOffset)
    requires row < with.height && col < with.width
    requires PastedUpTo(cur, start, with, xOffset, yOffset, blend, row, col)
    ensures xOffset + col < cur.width && yOffset + row < cur.height
    ensures cur.Pixel(xOffset + col, yOffset + row) == start.Pixel(xOffset + col, yOffset + row)
    ensures CompositePixel(start, with, xOffset, yOffset, blend, xOffset + col, yOffset + row)
            == if blend then OverlayColor(start.Pixel(xOffset + col, yOffset + row), with.Pixel(col, row))
               else with.Pixel(col, row)
    ensures c == CompositePixel(start, with, xOffset, yOffset, blend, xOffset + col, yOffset + row) ==>
      var next := cur.Set(xOffset + col, yOffset + row, c);
      next.Valid() && next.width == cur.width && next.height == cur.height &&
      PastedUpTo(next, start, with, xOffset, yOffset, blend, row, col + 1)
  {
    var dx: u32, dy: u32 := xOffset + col, yOffset + row;
    SetPixels(cur, dx, dy, c);
  }

  /** A finished overlay row is the start of the next one. */
  lemma NextRow(cur: Image, start: Image, with: Image, xOffset: u32, yOffset: u32, blend: bool, row: int)
    requires cur.Valid() && start.Valid() && with.Valid()
    requires cur.width == start.width && cur.height == start.height
    requires PastedUpTo(cur, start, with, xOffset, yOffset, blend, row, with.width)
    ensures PastedUpTo(cur, start, with, xOffset, yOffset, blend, row + 1, 0)
  {
  }

  /** After the last overlay row, the loop state is the composited image. */
  lemma PastedAll(cur: Image, start: Image, with: Image, xOffset: u32, yOffset: u32, blend: bool)
    requires cur.Valid() && start.Valid() && with.Valid()
    requires cur.width == start.width && cur.height == start.height
    requires PastedUpTo(cur, start, with, xOffset, yOffset, blend, with.height, 0)
    ensures cur == Composited(start, with, xOffset, yOffset, blend)
  {
    CompositedPixels(start, with, xOffset, yOffset, blend);
    ImageExtensionality(cur, Composited(start, with, xOffset, yOffset, blend));
  }

  /** ClearCanvas: writes `color` into every cell, row by row. */
  method ClearCanvas(canvas: Canvas, color: Color)
    requires canvas.Valid()
    modifies canvas.grid
    ensures canvas.View() == Cleared(old(canvas.View()), color)
  {
    ghost var start := canvas.View();
    var y: u32 := 0;
    while y < canvas.height
      invariant y <= canvas.height
      invariant forall px: u32, py: u32 :: px < canvas.width && py < canvas.height ==>
        canvas.View().Pixel(px, py) == if py < y then color else start.Pixel(px, py)
    {
      var x: u32 := 0;
      while x < canvas.width
        invariant x <= canvas.width
        invariant forall px: u32, py: u32 :: px < canvas.width && py < canvas.height ==>
          canvas.View().Pixel(px, py) == if py < y || (py == y && px < x) then color else start.Pixel(px, py)
      {
        ghost var before := canvas.View();
        var fault := canvas.WriteAt(x, y, color);
        SetPixels(before, x, y, color);
        x := x + 1;
      }
      y := y + 1;
    }
    ClearedPixels(start, color);
    ImageExtensionality(canvas.View(), Cleared(start, color));
  }

  /** The body of the replacing loop: overlay cell (x, y) is copied to (x + xOffset, y + yOffset). */
  method ReplaceCellAt(canvas: Canvas, with: Canvas, xOffset: u32, yOffset: u32, x: u32, y: u32)
    requires canvas.Valid() && with.Valid() && canvas.grid != with.grid
    requires x < with.width && y < with.height
    requires xOffset + x < canvas.width && yOffset + y < canvas.height
    modifies canvas.grid
    ensures canvas.View() == old(canvas.View()).Set(xOffset + x, yOffset + y, with.View().Pixel(x, y))
  {
    var dstX, dstY := AddU32(x, xOffset), AddU32(y, yOffset);
    var c := with.At(x, y);
    var fault := canvas.WriteAt(dstX, dstY, c.value);
  }

  /**
   * The body of the blending loop: overlay cell (x, y) is blended over the
   * destination cell (x + xOffset, y + yOffset), which is read first.
   */
  method BlendCellAt(canvas: Canvas, with: Canvas, xOffset: u32, yOffset: u32, x: u32, y: u32)
    requires canvas.Valid() && with.Valid() && canvas.grid != with.grid
    requires x < with.width && y < with.height
    requires xOffset + x < canvas.width && yOffset + y < canvas.height
    modifies canvas.grid
    ensures canvas.View() == old(canvas.View()).Set(xOffset + x, yOffset + y,
      OverlayColor(old(canvas.View()).Pixel(xOffset + x, yOffset + y), with.View().Pixel(x, y)))
  {
    var dstX, dstY := AddU32(x, xOffset), AddU32(y, yOffset);
    var overlay := with.At(x, y);
    var color := canvas.At(dstX, dstY);
    var blended := OverlayColor(color.value, overlay.value);
    assert blended == OverlayColor(canvas.View().Pixel(dstX, dstY), with.View().Pixel(x, y));
    var fault := canvas.WriteAt(dstX, dstY, blended);
  }

  /**
   * OverlayCanvas: copies every cell of `with` to the offset position,
   * replacing what was there. `with` is another canvas and is only read.
   */
  method OverlayCanvas(canvas: Canvas, with: Canvas, xOffset: u32, yOffset: u32)
    requires canvas.Valid() && with.Valid() && canvas.grid != with.grid
    requires Fits(canvas.width, canvas.height, with.width, with.height, xOffset, yOffset)
    modifies canvas.grid
    ensures canvas.View() == Composited(old(canvas.View()), with.View(), xOffset, yOffset, false)
  {
    ghost var start := canvas.View();
    ghost var over := with.View();
    var y: u32 := 0;
    while y < with.height
      invariant y <= with.height
      invariant PastedUpTo(canvas.View(), start, over, xOffset, yOffset, false, y, 0)
    {
      var x: u32 := 0;
      while x < with.width
        invariant x <= with.width
        invariant PastedUpTo(canvas.View(), start, over, xOffset, yOffset, false, y, x)
      {
        ghost var before := canvas.View();
        PasteStep(before, start, over, xOffset, yOffset, false, y, x, over.Pixel(x, y));
        ReplaceCellAt(canvas, with, xOffset, yOffset, x, y);
        x := x + 1;
      }
      NextRow(canvas.View(), start, over, xOffset, yOffset, false, y);
      y := y + 1;
    }
    PastedAll(canvas.View(), start, over, xOffset, yOffset, false);
  }

  /**
   * OverlayBlendCanvas: blends every cell of `with` over the offset position.
   * Each destination cell is read before it is written, once.
   */
  method OverlayBlendCanvas(canvas: Canvas, with: Canvas, xOffset: u32, yOffset: u32)
    requires canvas.Valid() && with.Valid() && canvas.grid != with.grid
    requires Fits(canvas.width, canvas.height, with.width, with.height, xOffset, yOffset)
    modifies canvas.grid
    ensures canvas.View() == Composited(old(canvas.View()), with.View(), xOffset, yOffset, true)
  {
    ghost var start := canvas.View();
    ghost var over := with.View();
    var y: u32 := 0;
    while y < with.height
      invariant y <= with.height
      invariant PastedUpTo(canvas.View(), start, over, xOffset, yOffset, true, y, 0)
    {
      var x: u32 := 0;
      while x < with.width
        invariant x <= with.width
        invariant PastedUpTo(canvas.View(), start, over, xOffset, yOffset, true, y, x)
      {
        ghost var before := canvas.View();
        PasteStep(before, start, over, xOffset, yOffset, true, y, x,
                  OverlayColor(before.Pixel(xOffset + x, yOffset + y), over.Pixel(x, y)));
        BlendCellAt(canvas, with, xOffset, yOffset, x, y);
        x := x + 1;
      }
      NextRow(canvas.View(), start, over, xOffset, yOffset, true, y);
      y := y + 1;
    }
    PastedAll(canvas.View(), start, over, xOffset, yOffset, true);
  }
}
