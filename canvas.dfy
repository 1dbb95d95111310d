/**
 * A fixed-size, row-major grid of packed colours (canvas/canvas.go).
 *
 * `Image` is the value a canvas holds; `Canvas` is the object the source
 * updates in place, a class over an array whose `View()` is an `Image`. The
 * source's panics on an out-of-range coordinate are an `OutOfBounds` result.
 */
module Canvases {
  import opened Wrappers
  import opened Ints
  import opened Colors

  /** The two panics of `At` and `WriteAt`; the x check is made first. */
  datatype OutOfBounds = XOutOfBounds(x: u32, width: u32) | YOutOfBounds(y: u32, height: u32)

  /** toIndex: `y * width + x` in wrapping uint32 arithmetic. */
  function ToIndex(width: u32, x: u32, y: u32): (i: u32)
    ensures i == (y * width + x) % U32_LIMIT
  {
    assert (y * width) % U32_LIMIT + x == y * width + x - (y * width) / U32_LIMIT * U32_LIMIT;
    AddU32(MulU32(y, width), x)
  }

  /**
   * When `width * height` fits in 32 bits, no in-bounds coordinate makes the
   * uint32 arithmetic of `ToIndex` wrap, and the index lies in the grid.
   */
  lemma ToIndexInRange(width: u32, height: u32, x: u32, y: u32)
    requires width * height < U32_LIMIT && x < width && y < height
    ensures ToIndex(width, x, y) == y * width + x < width * height
  {
    MulMonotone(y + 1, height, width);
    MulMonotone(y, height, width);
  }

  /** Distinct in-bounds coordinates have distinct indexes. */
  lemma ToIndexInjective(width: u32, height: u32, x1: u32, y1: u32, x2: u32, y2: u32)
    requires width * height < U32_LIMIT
    requires x1 < width && y1 < height && x2 < width && y2 < height
    requires ToIndex(width, x1, y1) == ToIndex(width, x2, y2)
    ensures x1 == x2 && y1 == y2
  {
    ToIndexInRange(width, height, x1, y1);
    ToIndexInRange(width, height, x2, y2);
    RowMajorUnique(width, x1, y1, x2, y2);
  }

  lemma RowMajorUnique(width: nat, x1: nat, y1: nat, x2: nat, y2: nat)
    requires x1 < width && x2 < width
    requires y1 * width + x1 == y2 * width + x2
    ensures x1 == x2 && y1 == y2
  {
    if y1 < y2 {
      MulMonotone(y1 + 1, y2, width);
      assert false;
    } else if y2 < y1 {
      MulMonotone(y2 + 1, y1, width);
      assert false;
    }
  }

  /** Every index of a `width * height` grid is the index of one in-bounds coordinate. */
  lemma IndexCoordinates(width: u32, height: u32, i: int)
    requires width * height < U32_LIMIT && 0 <= i < width * height
    ensures width > 0
    ensures i % width < width && i / width < height
    ensures ToIndex(width, i % width, i / width) == i
  {
    var x, y := i % width, i / width;
    assert i == y * width + x;
    if y >= height {
      MulMonotone(height, y, width);
      assert false;
    }
    ToIndexInRange(width, height, x, y);
  }

  /** The state of a canvas: its size and its grid of raw colour words, index `y * width + x`. */
  datatype Image = Image(width: u32, height: u32, grid: seq<u64>) {

    predicate Valid()
    {
      width * height < U32_LIMIT && |grid| == width * height
    }

    /** The colour at an in-bounds coordinate. */
    function Pixel(x: u32, y: u32): Color
      requires Valid() && x < width && y < height
    {
      ToIndexInRange(width, height, x, y);
      MakeColor(grid[ToIndex(width, x, y)])
    }

    /** What `At` returns: the colour, or the panic, x checked before y. */
    function At(x: u32, y: u32): (r: Result<Color, OutOfBounds>)
      requires Valid()
      ensures r.Success? <==> x < width && y < height
      ensures r.Failure? ==> (r.error.XOutOfBounds? <==> x >= width)
    {
      if !(x < width) then Failure(XOutOfBounds(x, width))
      else if !(y < height) then Failure(YOutOfBounds(y, height))
      else Success(Pixel(x, y))
    }

    /** The image with one in-bounds cell replaced. */
    function Set(x: u32, y: u32, c: Color): Image
      requires Valid() && x < width && y < height
    {
      ToIndexInRange(width, height, x, y);
      Image(width, height, grid[ToIndex(width, x, y) := c.Value()])
    }

    /** What `WriteAt` does: the new image, or the panic, x checked before y. */
    function Write(x: u32, y: u32, c: Color): (r: Result<Image, OutOfBounds>)
      requires Valid()
      ensures r.Success? <==> x < width && y < height
      ensures r.Failure? ==> r.error == At(x, y).error
    {
      if !(x < width) then Failure(XOutOfBounds(x, width))
      else if !(y < height) then Failure(YOutOfBounds(y, height))
      else Success(Set(x, y, c))
    }
  }

  /** The zeroed grid `MakeCanvas` allocates. */
  function Blank(width: u32, height: u32): (img: Image)
    requires width * height < U32_LIMIT
    ensures img.Valid() && img.width == width && img.height == height
  {
    Image(width, height, seq(width * height, _ => 0))
  }

  /** Every cell of a new canvas reads as `MakeColor(0)`. */
  lemma BlankPixels(width: u32, height: u32)
    requires width * height < U32_LIMIT
    ensures forall x: u32, y: u32 :: x < width && y < height ==>
      Blank(width, height).At(x, y) == Success(MakeColor(0))
  {
    forall x: u32, y: u32 | x < width && y < height
      ensures Blank(width, height).At(x, y) == Success(MakeColor(0))
    {
      ToIndexInRange(width, height, x, y);
    }
  }

  /**
   * Reading after writing: a write changes the cell written, which then reads
   * as the colour written, and leaves every other cell and both dimensions as
   * they were.
   */
  lemma SetPixels(img: Image, x: u32, y: u32, c: Color)
    requires img.Valid() && x < img.width && y < img.height
    ensures img.Set(x, y, c).Valid()
    ensures img.Set(x, y, c).width == img.width && img.Set(x, y, c).height == img.height
    ensures forall px: u32, py: u32 :: px < img.width && py < img.height ==>
      img.Set(x, y, c).Pixel(px, py) == if px == x && py == y then c else img.Pixel(px, py)
  {
    var w := img.width;
    ToIndexInRange(w, img.height, x, y);
    var j := ToIndex(w, x, y);
    var after := img.Set(x, y, c);
    assert after.grid == img.grid[j := c.Value()];
    forall px: u32, py: u32 | px < w && py < img.height
      ensures after.Pixel(px, py) == if px == x && py == y then c else img.Pixel(px, py)
    {
      ToIndexInRange(w, img.height, px, py);
      var i := ToIndex(w, px, py);
      if (px != x || py != y) && i == j {
        ToIndexInjective(w, img.height, px, py, x, y);
        assert false;
      }
      assert after.grid[i] == if i == j then c.Value() else img.grid[i];
    }
  }

  /** The same read-after-write property stated on `Write` and `At`. */
  lemma WriteThenAt(img: Image, x: u32, y: u32, c: Color, px: u32, py: u32)
    requires img.Valid() && x < img.width && y < img.height
    ensures img.Write(x, y, c).Success?
    ensures img.Write(x, y, c).value.Valid()
    ensures img.Write(x, y, c).value.At(px, py)
            == if px == x && py == y then Success(c) else img.At(px, py)
  {
    SetPixels(img, x, y, c);
  }

  /** Two images of one size that agree on every pixel are equal. */
  lemma ImageExtensionality(a: Image, b: Image)
    requires a.Valid() && b.Valid() && a.width == b.width && a.height == b.height
    requires forall x: u32, y: u32 :: x < a.width && y < a.height ==> a.Pixel(x, y) == b.Pixel(x, y)
    ensures a == b
  {
    forall i | 0 <= i < |a.grid|
      ensures a.grid[i] == b.grid[i]
    {
      IndexCoordinates(a.width, a.height, i);
      var x: u32, y: u32 := i % a.width, i / a.width;
      assert a.Pixel(x, y) == b.Pixel(x, y);
    }
  }

  /**
   * The canvas object. Its size is fixed at construction (the source has no
   * setters, so `width` and `height` are constants, and `Width()`/`Height()`
   * read them); the grid is updated in place.
   */
  class Canvas {
    const width: u32
    const height: u32
    const grid: array<u64>

    ghost predicate Valid()
    {
      width * height < U32_LIMIT && grid.Length == width * height
    }

    ghost function View(): (img: Image)
      reads grid
      ensures img.Valid() <==> Valid()
    {
      Image(width, height, grid[..])
    }

    /** MakeCanvas: a zeroed grid of `width * height` colours. */
    constructor (width: u32, height: u32)
      requires width * height < U32_LIMIT
      ensures Valid() && fresh(grid)
      ensures this.width == width && this.height == height
      ensures View() == Blank(width, height)
    {
      this.width := width;
      this.height := height;
      this.grid := new u64[MulU32(width, height)](_ => 0);
      new;
      assert grid[..] == Blank(width, height).grid;
    }

    /** Reads one cell; out of bounds, it reports the panic instead. */
    method At(x: u32, y: u32) returns (r: Result<Color, OutOfBounds>)
      requires Valid()
      ensures r == View().At(x, y)
    {
      if !(x < width) {
        return Failure(XOutOfBounds(x, width));
      } else if !(y < height) {
        return Failure(YOutOfBounds(y, height));
      }
      ToIndexInRange(width, height, x, y);
      r := Success(MakeColor(grid[ToIndex(width, x, y)]));
    }

    /**
     * Writes one cell; out of bounds, it reports the panic and changes
     * nothing.
     */
    method WriteAt(x: u32, y: u32, c: Color) returns (fault: Option<OutOfBounds>)
      requires Valid()
      modifies grid
      ensures old(View()).Write(x, y, c).Success? ==>
        fault == None && View() == old(View()).Write(x, y, c).value
      ensures old(View()).Write(x, y, c).Failure? ==>
        fault == Some(old(View()).Write(x, y, c).error) && View() == old(View())
    {
      if !(x < width) {
        return Some(XOutOfBounds(x, width));
      } else if !(y < height) {
        return Some(YOutOfBounds(y, height));
      }
      ToIndexInRange(width, height, x, y);
      grid[ToIndex(width, x, y)] := c.Value();
      fault := None;
    }
  }
}
