/**
 * Frame extraction (webpfex/io.go): the canvas is allocated at the dump's
 * size, cleared to its background colour, and each frame's delta is pasted
 * over it in turn, replacing or blending as the frame says; after every frame
 * the whole canvas is saved as a PNG named after the frame number. The frame
 * rate handed to the video encoder comes from the first frame's duration.
 *
 * Decoding a frame and writing a PNG are foreign: the decoded deltas are a
 * parameter, and the saved files are the returned snapshots and their names.
 */
module Extract {
  import opened Ints
  import opened Colors
  import opened Canvases
  import opened Overlay
  import opened Strings
  import opened Strconv
  import opened Info

  /** Every delta is a well-formed image. */
  predicate AllValid(deltas: seq<Image>)
  {
    forall j | 0 <= j < |deltas| :: deltas[j].Valid()
  }

  /**
   * The canvas after the first `k` frames: the background, then each delta
   * pasted at its frame's offset.
   */
  function Replay(info: AWebpInfo, deltas: seq<Image>, k: nat): (r: Image)
    requires info.width * info.height < U32_LIMIT
    requires k <= |info.frameInfos| && k <= |deltas| && AllValid(deltas)
    ensures r.Valid() && r.width == info.width && r.height == info.height
  {
    if k == 0 then Cleared(Blank(info.width, info.height), info.backgroundColor)
    else
      var f := info.frameInfos[k - 1];
      Composited(Replay(info, deltas, k - 1), deltas[k - 1], f.xOffset, f.yOffset, f.blend)
  }

  /** The canvases saved after each of the first `k` frames. */
  function Replays(info: AWebpInfo, deltas: seq<Image>, k: nat): (r: seq<Image>)
    requires info.width * info.height < U32_LIMIT
    requires k <= |info.frameInfos| && k <= |deltas| && AllValid(deltas)
    ensures |r| == k
  {
    if k == 0 then [] else Replays(info, deltas, k - 1) + [Replay(info, deltas, k)]
  }

  /** The j-th snapshot is the canvas after frames 0 to j. */
  lemma {:induction false} ReplaysAt(info: AWebpInfo, deltas: seq<Image>, k: nat, j: nat)
    requires info.width * info.height < U32_LIMIT
    requires k <= |info.frameInfos| && k <= |deltas| && AllValid(deltas)
    requires j < k
    ensures Replays(info, deltas, k)[j] == Replay(info, deltas, j + 1)
  {
    var init := Replays(info, deltas, k - 1);
    assert Replays(info, deltas, k) == init + [Replay(info, deltas, k)];
    if j < k - 1 {
      ReplaysAt(info, deltas, k - 1, j);
    }
  }

  /** The file names of the snapshots of the first `k` frames, in order. */
  function Names(frameInfos: seq<AWebpFrameInfo>, k: nat): (r: seq<string>)
    requires k <= |frameInfos|
    ensures |r| == k
  {
    if k == 0 then [] else Names(frameInfos, k - 1) + [SnapshotName(frameInfos[k - 1].number)]
  }

  /** The j-th name is the j-th frame's. */
  lemma {:induction false} NamesAt(frameInfos: seq<AWebpFrameInfo>, k: nat, j: nat)
    requires j < k <= |frameInfos|
    ensures Names(frameInfos, k)[j] == SnapshotName(frameInfos[j].number)
  {
    var init := Names(frameInfos, k - 1);
    assert Names(frameInfos, k) == init + [SnapshotName(frameInfos[k - 1].number)];
    if j < k - 1 {
      NamesAt(frameInfos, k - 1, j);
    }
  }

  /** A cell that none of the first `k` frames covers still has the background colour. */
  lemma {:induction false} ReplayUncovered(info: AWebpInfo, deltas: seq<Image>, k: nat, x: u32, y: u32)
    requires info.width * info.height < U32_LIMIT
    requires k <= |info.frameInfos| && k <= |deltas| && AllValid(deltas)
    requires x < info.width && y < info.height
    requires forall j | 0 <= j < k :: !Covered(deltas[j], info.frameInfos[j].xOffset, info.frameInfos[j].yOffset, x, y)
    ensures Replay(info, deltas, k).Pixel(x, y) == info.backgroundColor
  {
    if k == 0 {
      ClearedPixels(Blank(info.width, info.height), info.backgroundColor);
    } else {
      var f := info.frameInfos[k - 1];
      ReplayUncovered(info, deltas, k - 1, x, y);
      CompositedPixels(Replay(info, deltas, k - 1), deltas[k - 1], f.xOffset, f.yOffset, f.blend);
    }
  }

  /**
   * A cell the latest frame covers without blending shows that frame's delta,
   * whatever came before.
   */
  lemma ReplayReplaced(info: AWebpInfo, deltas: seq<Image>, k: nat, x: u32, y: u32)
    requires info.width * info.height < U32_LIMIT
    requires 0 < k <= |info.frameInfos| && k <= |deltas| && AllValid(deltas)
    requires x < info.width && y < info.height
    requires !info.frameInfos[k - 1].blend
    requires Covered(deltas[k - 1], info.frameInfos[k - 1].xOffset, info.frameInfos[k - 1].yOffset, x, y)
    ensures Replay(info, deltas, k).Pixel(x, y)
      == deltas[k - 1].Pixel(x - info.frameInfos[k - 1].xOffset, y - info.frameInfos[k - 1].yOffset)
  {
    var f := info.frameInfos[k - 1];
    CompositedPixels(Replay(info, deltas, k - 1), deltas[k - 1], f.xOffset, f.yOffset, f.blend);
  }

  /** A cell the latest frame blends over is opaque, whatever the alphas of the delta and of the canvas. */
  lemma ReplayBlendedOpaque(info: AWebpInfo, deltas: seq<Image>, k: nat, x: u32, y: u32)
    requires info.width * info.height < U32_LIMIT
    requires 0 < k <= |info.frameInfos| && k <= |deltas| && AllValid(deltas)
    requires x < info.width && y < info.height
    requires info.frameInfos[k - 1].blend
    requires Covered(deltas[k - 1], info.frameInfos[k - 1].xOffset, info.frameInfos[k - 1].yOffset, x, y)
    ensures Replay(info, deltas, k).Pixel(x, y).A() == OPAQUE
  {
    var f := info.frameInfos[k - 1];
    var before := Replay(info, deltas, k - 1);
    CompositedPixels(before, deltas[k - 1], f.xOffset, f.yOffset, f.blend);
  }

  /**
   * A decoded frame as a canvas of its own: a fresh grid holding the
   * image's cells. Decoding itself is foreign; the decoded image is given.
   */
  method LoadFrame(img: Image) returns (c: Canvas)
    requires img.Valid()
    ensures c.Valid() && fresh(c.grid) && c.View() == img
  {
    c := new Canvas(img.width, img.height);
    var n := |img.grid|;
    for i := 0 to n
      invariant forall j | 0 <= j < i :: c.grid[j] == img.grid[j]
    {
      c.grid[i] := img.grid[i];
    }
    assert c.grid[..] == img.grid;
  }

  /** The extension of every saved frame. */
  const PNG_EXTENSION: string := ".png"

  /**
   * The file name `%09d.png` of a frame: the number zero-padded to nine
   * digits, so at least nine digits and the extension.
   */
  function SnapshotName(number: u32): (name: string)
    ensures |name| >= 13
    ensures name[|name| - 4..] == PNG_EXTENSION
  {
    ZeroPad(FormatDecimal(number), 9) + PNG_EXTENSION
  }

  /** Below 10^9 the padding makes every name the same length, 13 characters. */
  lemma SnapshotNameLength(number: u32)
    ensures number < 1_000_000_000 ==> |SnapshotName(number)| == 13
  {
    assert Pow10(9) == 1_000_000_000;
    FormatDecimalLength(number, 9);
  }

  function Pow10(k: nat): nat
  {
    if k == 0 then 1 else 10 * Pow10(k - 1)
  }

  /** A number below 10^k has at most k decimal digits (and at least one). */
  lemma {:induction false} FormatDecimalLength(n: nat, k: nat)
    ensures 1 <= k && n < Pow10(k) ==> |FormatDecimal(n)| <= k
    decreases n
  {
    if n >= 10 && 1 <= k && n < Pow10(k) {
      FormatDecimalLength(n / 10, k - 1);
    }
  }

  /** The digits of a file name read back as the frame number, so distinct frames get distinct files. */
  lemma SnapshotNameDigits(number: u32)
    ensures AllDigits(SnapshotName(number)[..|SnapshotName(number)| - 4])
    ensures DecimalValue(SnapshotName(number)[..|SnapshotName(number)| - 4]) == number
  {
    var digits := FormatDecimal(number);
    ZeroPadValue(digits, 9);
    var name := SnapshotName(number);
    assert name[..|name| - 4] == ZeroPad(digits, 9);
  }

  lemma SnapshotNameInjective(m: u32, n: u32)
    requires SnapshotName(m) == SnapshotName(n)
    ensures m == n
  {
    SnapshotNameDigits(m);
    SnapshotNameDigits(n);
  }

  /**
   * One frame of the extraction loop: the frame's delta, loaded as a canvas,
   * pasted at the frame's offset, blended or replacing as the frame says.
   */
  method PasteFrame(canvas: Canvas, frameInfo: AWebpFrameInfo, delta: Image)
    requires canvas.Valid() && delta.Valid()
    requires Fits(canvas.width, canvas.height, delta.width, delta.height, frameInfo.xOffset, frameInfo.yOffset)
    modifies canvas.grid
    ensures canvas.View() == Composited(old(canvas.View()), delta, frameInfo.xOffset, frameInfo.yOffset, frameInfo.blend)
  {
    var overlay := LoadFrame(delta);
    if frameInfo.blend {
      OverlayBlendCanvas(canvas, overlay, frameInfo.xOffset, frameInfo.yOffset);
    } else {
      OverlayCanvas(canvas, overlay, frameInfo.xOffset, frameInfo.yOffset);
    }
  }

  /**
   * ExtractWebpFramesAsPng past the parse: one canvas, cleared once, with
   * every frame's delta pasted over it in order, and a snapshot and a file
   * name after each frame.
   */
  method ExtractFrames(info: AWebpInfo, deltas: seq<Image>) returns (snapshots: seq<Image>, names: seq<string>)
    requires info.width * info.height < U32_LIMIT
    requires |deltas| == |info.frameInfos| && AllValid(deltas)
    requires forall j | 0 <= j < |deltas| ::
      Fits(info.width, info.height, deltas[j].width, deltas[j].height, info.frameInfos[j].xOffset, info.frameInfos[j].yOffset)
    ensures snapshots == Replays(info, deltas, |deltas|)
    ensures names == Names(info.frameInfos, |deltas|)
  {
    var canvas := new Canvas(info.width, info.height);
    ClearCanvas(canvas, info.backgroundColor);
    snapshots, names := [], [];
    var i := 0;
    while i < |info.frameInfos|
      invariant 0 <= i <= |deltas|
      invariant canvas.Valid() && canvas.width == info.width && canvas.height == info.height
      invariant canvas.View() == Replay(info, deltas, i)
      invariant snapshots == Replays(info, deltas, i)
      invariant names == Names(info.frameInfos, i)
    {
      var frameInfo := info.frameInfos[i];
      PasteFrame(canvas, frameInfo, deltas[i]);
      assert canvas.View() == Replay(info, deltas, i + 1);
      var snapshot := Image(canvas.width, canvas.height, canvas.grid[..]);
      assert Replays(info, deltas, i + 1) == Replays(info, deltas, i) + [snapshot];
      snapshots := snapshots + [snapshot];
      var name := SnapshotName(frameInfo.number);
      assert Names(info.frameInfos, i + 1) == Names(info.frameInfos, i) + [name];
      names := names + [name];
      i := i + 1;
    }
  }

  /**
   * The frame rate of ConvertWebpToMp4: 1000 over the first frame's duration
   * in whole milliseconds, both divisions truncating. No frames is an index
   * panic, and a duration under a millisecond a division by zero.
   */
  function FrameRate(info: AWebpInfo): (r: Outcome<int>)
    ensures |info.frameInfos| == 0 <==> r == Panic(IndexOutOfRange(0, 0))
    ensures |info.frameInfos| > 0 ==>
      (r == Panic(DivideByZero) <==> Abs(info.frameInfos[0].duration) < MILLISECOND)
  {
    if |info.frameInfos| == 0 then Panic(IndexOutOfRange(0, 0))
    else
      var milliseconds := Quo(info.frameInfos[0].duration, MILLISECOND);
      if milliseconds == 0 then Panic(DivideByZero)
      else Ok(Quo(1000, milliseconds))
  }

  /**
   * For a first frame of at least a millisecond, the rate is the number of
   * whole frame durations that fit in one second.
   */
  lemma FrameRatePositive(info: AWebpInfo)
    requires |info.frameInfos| > 0 && info.frameInfos[0].duration >= MILLISECOND
    ensures var ms := info.frameInfos[0].duration / MILLISECOND;
      FrameRate(info).Ok? && FrameRate(info).value * ms <= 1000 < (FrameRate(info).value + 1) * ms
  {
    var ms := info.frameInfos[0].duration / MILLISECOND;
    assert Quo(info.frameInfos[0].duration, MILLISECOND) == ms;
    assert Quo(1000, ms) == 1000 / ms;
  }

  /** A 40 ms frame, as a dump reports it, gives 25 frames per second. */
  lemma FrameRateOfFortyMilliseconds(info: AWebpInfo)
    requires |info.frameInfos| > 0 && info.frameInfos[0].duration == 40 * MILLISECOND
    ensures FrameRate(info) == Ok(25)
  {
  }
}
