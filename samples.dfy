/**
 * The sample dump of webpfex/info_test.go, line by line: the canvas-size
 * line, the background line and the first three frame lines, each parsed by
 * its stage to the values the tests expect. A frame line is given as its
 * nine leading columns, its two trailing ones and the run of spaces after
 * each column (the last run, at the end of the line, is empty), indented by
 * two spaces.
 */
module InfoSamples {
  import opened Wrappers
  import opened Ints
  import opened Strings
  import opened Strconv
  import opened Colors
  import opened Info

  const CANVAS_LINE: string := "Canvas size: 640 x 640"
  const BACKGROUND_LINE: string := "Background color : 0xFFFFFFFF  Loop Count : 0"

  const FRAME_HEAD_1: seq<string> := ["1:", "640", "640", "no", "0", "0", "40", "none", "no"]
  const FRAME_TRAILER_1: seq<string> := ["22710", "lossy"]
  const FRAME_RUNS_1: seq<string> := ["   ", "   ", "    ", "        ", "        ", "       ", "       ", "    ", "      ", "       ", ""]
  const FRAME_LINE_1: string := "  " + Spaced(FRAME_HEAD_1 + FRAME_TRAILER_1, FRAME_RUNS_1)

  const FRAME_HEAD_2: seq<string> := ["2:", "640", "577", "yes", "0", "28", "40", "none", "yes"]
  const FRAME_TRAILER_2: seq<string> := ["25074", "lossy"]
  const FRAME_RUNS_2: seq<string> := ["   ", "   ", "   ", "        ", "       ", "       ", "       ", "   ", "      ", "       ", ""]
  const FRAME_LINE_2: string := "  " + Spaced(FRAME_HEAD_2 + FRAME_TRAILER_2, FRAME_RUNS_2)

  const FRAME_HEAD_3: seq<string> := ["3:", "640", "574", "yes", "0", "28", "80", "none", "yes"]
  const FRAME_TRAILER_3: seq<string> := ["24066", "lossy"]
  const FRAME_LINE_3: string := "  " + Spaced(FRAME_HEAD_3 + FRAME_TRAILER_3, FRAME_RUNS_2)

  /** The canvas-size line gives a 640 x 640 canvas. */
  lemma SampleCanvasSize()
    ensures ParseAWebpInfoCanvasSize(CANVAS_LINE) == Ok((640, 640))
  {
    CanvasLineParts();
    CanvasSizeLineComplete("640", "640");
    SplitNone(CANVAS_LINE, '\n');
    Numeral640();
  }

  /** The background line gives the colour 0xFFFFFFFF. */
  lemma SampleBackground()
    ensures ParseAWebpInfoBackgroundColor(BACKGROUND_LINE) == Ok(MakeColor(0xFFFFFFFF))
  {
    BackgroundMatch();
    LiteralDigits();
    HexFFFFFFFF();
    var r := ParseAWebpInfoBackgroundColor(BACKGROUND_LINE);
    assert r.Ok? && r.value.Value() == 0xFFFFFFFF;
  }

  /** Frame 1: 640 x 640, no alpha, at (0, 0), 40 ms, no blending. */
  lemma SampleFrame1()
    ensures ParseAWebpFrameInfo(FRAME_LINE_1) == Ok(AWebpFrameInfo(1, 640, 640, false, 0, 0, 40 * MILLISECOND, false))
  {
    Head1();
    TrailerWords(FRAME_TRAILER_1);
    RunsAreSeparators(FRAME_RUNS_1);
    SampleLine(FRAME_LINE_1, AWebpFrameInfo(1, 640, 640, false, 0, 0, 40 * MILLISECOND, false), 40, FRAME_HEAD_1, FRAME_TRAILER_1, FRAME_RUNS_1);
  }

  /** Frame 2: 640 x 577, alpha, at (0, 28), 40 ms, blending. */
  lemma SampleFrame2()
    ensures ParseAWebpFrameInfo(FRAME_LINE_2) == Ok(AWebpFrameInfo(2, 640, 577, true, 0, 28, 40 * MILLISECOND, true))
  {
    Head2();
    TrailerWords(FRAME_TRAILER_2);
    RunsAreSeparators(FRAME_RUNS_2);
    SampleLine(FRAME_LINE_2, AWebpFrameInfo(2, 640, 577, true, 0, 28, 40 * MILLISECOND, true), 40, FRAME_HEAD_2, FRAME_TRAILER_2, FRAME_RUNS_2);
  }

  /** Frame 3: 640 x 574, alpha, at (0, 28), 80 ms, blending. */
  lemma SampleFrame3()
    ensures ParseAWebpFrameInfo(FRAME_LINE_3) == Ok(AWebpFrameInfo(3, 640, 574, true, 0, 28, 80 * MILLISECOND, true))
  {
    Head3();
    TrailerWords(FRAME_TRAILER_3);
    RunsAreSeparators(FRAME_RUNS_2);
    SampleLine(FRAME_LINE_3, AWebpFrameInfo(3, 640, 574, true, 0, 28, 80 * MILLISECOND, true), 80, FRAME_HEAD_3, FRAME_TRAILER_3, FRAME_RUNS_2);
  }

  /** A sample frame line is a frame line as `webpmux -info` writes it, indented by two spaces. */
  lemma SampleLine(line: string, fi: AWebpFrameInfo, durationMs: i64, head: seq<string>, trailer: seq<string>, seps: seq<string>)
    requires 0 <= durationMs < 1000 && fi.duration == durationMs * MILLISECOND && fi.number != 0
    requires head == FrameLineHead(fi, durationMs, "none")
    requires forall k | 0 <= k < |trailer| :: IsWord(trailer[k])
    requires |seps| == 9 + |trailer|
    requires forall k | 0 <= k < |seps| :: AllSpace(seps[k])
    requires forall k | 0 <= k < |seps| - 1 :: |seps[k]| > 0
    requires line == "  " + Spaced(head + trailer, seps)
    ensures ParseAWebpFrameInfo(line) == Ok(fi)
  {
    assert IsWord("none") by {
      assert forall i | 0 <= i < 4 :: "none"[i] in {'n', 'o', 'e'};
    }
    FrameLineRoundTrip("  ", fi, durationMs, "none", trailer, seps);
  }

  lemma CanvasLineParts()
    ensures CANVAS_LINE == CANVAS_SIZE_PREFIX + "640" + CANVAS_SIZE_SEPARATOR + "640"
    ensures '\n' !in CANVAS_LINE
  {
  }

  lemma BackgroundMatch()
    ensures FindBackground(BACKGROUND_LINE, 0) == Some((0, "0xFFFFFFFF"))
  {
    BackgroundLabel();
    BackgroundColon();
    BackgroundLiteralAt();
    assert BackgroundAt(BACKGROUND_LINE, 0) == Some("0xFFFFFFFF");
  }

  lemma BackgroundLabel()
    ensures HasPrefix(BACKGROUND_LINE, BACKGROUND_LABEL)
  {
    assert BACKGROUND_LINE[..|BACKGROUND_LABEL|] == BACKGROUND_LABEL;
  }

  lemma BackgroundColon()
    ensures SkipRegexSpace(BACKGROUND_LINE, 16) == 17 && BACKGROUND_LINE[17] == ':'
    ensures SkipRegexSpace(BACKGROUND_LINE, 18) == 19
  {
  }

  lemma BackgroundLiteralAt()
    ensures BACKGROUND_LINE[19..21] == "0x"
    ensures forall m | 21 <= m < 29 :: IsUpperHexDigit(BACKGROUND_LINE[m])
    ensures BACKGROUND_LINE[19..29] == "0xFFFFFFFF"
  {
    assert forall m | 19 <= m < 29 :: BACKGROUND_LINE[m] == "0xFFFFFFFF"[m - 19];
  }

  lemma LiteralDigits()
    ensures "0xFFFFFFFF"[2..] == "FFFFFFFF"
  {
    assert forall m | 0 <= m < 8 :: "0xFFFFFFFF"[2..][m] == "FFFFFFFF"[m];
  }

  lemma HexFFFFFFFF()
    ensures HexValue("FFFFFFFF") == 0xFFFFFFFF
  {
    assert "F"[..0] == "";
    assert "FF"[..1] == "F";
    assert "FFF"[..2] == "FF";
    assert "FFFF"[..3] == "FFF";
    assert "FFFFF"[..4] == "FFFF";
    assert "FFFFFF"[..5] == "FFFFF";
    assert "FFFFFFF"[..6] == "FFFFFF";
    assert "FFFFFFFF"[..7] == "FFFFFFF";
  }

  lemma Numeral640()
    ensures DecimalValue("640") == 640 && FormatDecimal(640) == "640"
  {
    assert DecimalValue("6") == 6 by { assert "6"[..0] == ""; }
    assert DecimalValue("64") == 64 by { assert "64"[..1] == "6"; }
    assert "640"[..2] == "64";
  }

  lemma SmallNumerals()
    ensures FormatDecimal(0) == "0" && FormatDecimal(28) == "28"
    ensures FormatDecimal(40) == "40" && FormatDecimal(80) == "80"
    ensures FormatDecimal(1) + ":" == "1:" && FormatDecimal(2) + ":" == "2:" && FormatDecimal(3) + ":" == "3:"
  {
  }

  lemma Head1()
    ensures FrameLineHead(AWebpFrameInfo(1, 640, 640, false, 0, 0, 40 * MILLISECOND, false), 40, "none") == FRAME_HEAD_1
  {
    SmallNumerals();
    Numeral640();
  }

  lemma Head2()
    ensures FrameLineHead(AWebpFrameInfo(2, 640, 577, true, 0, 28, 40 * MILLISECOND, true), 40, "none") == FRAME_HEAD_2
  {
    SmallNumerals();
    Numeral640();
    assert FormatDecimal(577) == "577";
  }

  lemma Head3()
    ensures FrameLineHead(AWebpFrameInfo(3, 640, 574, true, 0, 28, 80 * MILLISECOND, true), 80, "none") == FRAME_HEAD_3
  {
    SmallNumerals();
    Numeral640();
    assert FormatDecimal(574) == "574";
  }

  lemma TrailerWords(trailer: seq<string>)
    requires trailer == FRAME_TRAILER_1 || trailer == FRAME_TRAILER_2 || trailer == FRAME_TRAILER_3
    ensures forall k | 0 <= k < |trailer| :: IsWord(trailer[k])
  {
  }

  lemma RunsAreSeparators(runs: seq<string>)
    requires runs == FRAME_RUNS_1 || runs == FRAME_RUNS_2
    ensures |runs| == 11
    ensures forall k | 0 <= k < |runs| :: AllSpace(runs[k])
    ensures forall k | 0 <= k < |runs| - 1 :: |runs[k]| > 0
  {
  }
}
