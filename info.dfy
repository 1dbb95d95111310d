/**
 * The metadata of an animated WebP (webpfex/info.go): the records that hold
 * it, and the parser that reads them out of the text dump `webpmux -info`
 * prints.
 *
 * Each regular expression of the parser is a string predicate for the one
 * shape it accepts. A parse yields `Ok`, a `ParsingError` (`Fail`), or one of
 * the runtime panics the code reaches on some inputs (`Panic`): a missing
 * match indexed anyway, a short field list, a slice past the end of the
 * lines, a frame number 0.
 */
module Info {
  import opened Wrappers
  import opened Ints
  import opened Strings
  import opened Strconv
  import opened Colors

  /** The runtime panics of the parser and of the frame-rate computation. */
  datatype Fault =
    | IndexOutOfRange(index: int, length: int)
    | SliceOutOfRange(high: int, capacity: int)
    | ZeroFrameNumber
    | FrameCountMismatch(frameCount: u32, length: int)
    | ColorTooBig(literal: string)
    | DivideByZero

  /** A parse failure: why, the text that could not be parsed, and an optional cause. */
  datatype ParsingError = ParsingError(reason: string, input: string, subError: Option<ParsingError>) {

    /** The first line of the message: reason, then the input quoted as `%q` quotes it. */
    function Heading(): (h: string)
      ensures HasPrefix(h, "ParsingError: " + reason + ": ")
      ensures Unquote(h[|"ParsingError: " + reason + ": "|..]) == Some(input)
      ensures '\n' !in reason ==> '\n' !in h
    {
      var prefix := "ParsingError: " + reason + ": ";
      QuoteOneLine(input);
      QuoteRoundTrip(input);
      assert (prefix + Quote(input))[|prefix|..] == Quote(input);
      prefix + Quote(input)
    }

    /**
     * The message: the heading, then the cause's message on the following
     * lines; the heading alone exactly when there is no cause.
     */
    function Error(): (e: string)
      ensures HasPrefix(e, Heading())
      ensures subError.None? <==> e == Heading()
    {
      match subError
      case None => Heading()
      case Some(sub) => Heading() + "\n" + sub.Error()
    }
  }

  /** makeParsingError: an error with no cause. */
  function MakeParsingError(reason: string, input: string): (e: ParsingError)
    ensures e.reason == reason && e.input == input && e.subError == None
  {
    ParsingError(reason, input, None)
  }

  /** A message's first line is its heading, which gives back the reason and the input. */
  lemma ErrorFirstLine(e: ParsingError)
    requires '\n' !in e.reason
    ensures Split(e.Error(), '\n')[0] == e.Heading()
    ensures e.subError == None ==> Split(e.Error(), '\n') == [e.Heading()]
  {
    match e.subError {
      case None =>
        SplitNone(e.Heading(), '\n');
      case Some(sub) =>
        SplitFirst(e.Heading(), '\n', sub.Error());
    }
  }

  /** The result of a parser: a value, a parse failure, or a panic. */
  datatype Outcome<+T> = Ok(value: T) | Fail(error: ParsingError) | Panic(fault: Fault) {

    predicate IsFailure()
    {
      !Ok?
    }

    function PropagateFailure<U>(): Outcome<U>
      requires !Ok?
    {
      if Fail? then Fail(error) else Panic(fault)
    }

    function Extract(): T
      requires Ok?
    {
      value
    }
  }

  /** A parsed option, or a parse failure with this reason and input. */
  function Require<T>(x: Option<T>, reason: string, input: string): (r: Outcome<T>)
    ensures x.Some? ==> r == Ok(x.value)
    ensures x.None? ==> r == Fail(MakeParsingError(reason, input))
  {
    if x.Some? then Ok(x.value) else Fail(MakeParsingError(reason, input))
  }

  /** One frame of the frame table. `duration` is in nanoseconds, as Go's `time.Duration`. */
  datatype AWebpFrameInfo = AWebpFrameInfo(
    number: u32,
    width: u32,
    height: u32,
    alpha: bool,
    xOffset: u32,
    yOffset: u32,
    duration: i64,
    blend: bool)

  /** MakeAWebpFrameInfo: the record, or a panic for frame number 0. */
  function MakeAWebpFrameInfo(number: u32, width: u32, height: u32, alpha: bool,
                              xOffset: u32, yOffset: u32, duration: i64, blend: bool): (r: Outcome<AWebpFrameInfo>)
    ensures r.Ok? <==> number != 0
    ensures r.Ok? ==> r.value == AWebpFrameInfo(number, width, height, alpha, xOffset, yOffset, duration, blend)
    ensures !r.Ok? ==> r == Panic(ZeroFrameNumber)
  {
    if number == 0 then Panic(ZeroFrameNumber)
    else Ok(AWebpFrameInfo(number, width, height, alpha, xOffset, yOffset, duration, blend))
  }

  /** The whole dump: canvas size, background colour, and the frame table. */
  datatype AWebpInfo = AWebpInfo(
    width: u32,
    height: u32,
    backgroundColor: Color,
    frameCount: u32,
    frameInfos: seq<AWebpFrameInfo>)

  /**
   * MakeAWebpInfo: the record, or a panic when the frame count differs from
   * the number of frames, the latter taken as a uint32.
   */
  function MakeAWebpInfo(width: u32, height: u32, backgroundColor: Color,
                         frameCount: u32, frameInfos: seq<AWebpFrameInfo>): (r: Outcome<AWebpInfo>)
    ensures r.Ok? <==> frameCount == |frameInfos| % U32_LIMIT
    ensures r.Ok? ==> r.value == AWebpInfo(width, height, backgroundColor, frameCount, frameInfos)
    ensures !r.Ok? ==> r == Panic(FrameCountMismatch(frameCount, |frameInfos|))
    ensures |frameInfos| == frameCount ==> r.Ok?
  {
    ModOfSmall(|frameInfos|, U32_LIMIT);
    if frameCount != |frameInfos| % U32_LIMIT then Panic(FrameCountMismatch(frameCount, |frameInfos|))
    else Ok(AWebpInfo(width, height, backgroundColor, frameCount, frameInfos))
  }

  const NOT_ANIMATED_MARK: string := "No features present."
  const NOT_ANIMATED: string := "Not an animated WEBP"
  const FAILED_WIDTH: string := "Failed parsing width"
  const FAILED_HEIGHT: string := "Failed parsing height"
  const FAILED_BACKGROUND: string := "Failed parsing background color"
  const FAILED_FRAME_COUNT: string := "Failed parsing frame count"
  const FAILED_FRAME_INFO: string := "Failed parsing frame info"
  const FAILED_NUMBER: string := "Failed parsing frame number"
  const FAILED_ALPHA: string := "Failed parsing alpha"
  const FAILED_X_OFFSET: string := "Failed parsing x offset"
  const FAILED_Y_OFFSET: string := "Failed parsing y offset"
  const FAILED_DURATION: string := "Failed parsing duration"
  const FAILED_BLEND: string := "Failed parsing blend"

  /** The panic of indexing submatch 1 of a regular expression that did not match. */
  const NO_MATCH: Fault := IndexOutOfRange(1, 0)

  /**
   * The first line on which `f` finds something, with its index; a
   * multi-line `^...` pattern that cannot cross a line break matches at the
   * first line that has it.
   */
  function FindFirst<T>(lines: seq<string>, f: string -> Option<T>): (r: Option<(nat, T)>)
    ensures r.None? ==> forall j | 0 <= j < |lines| :: f(lines[j]).None?
    ensures r.Some? ==> r.value.0 < |lines| && f(lines[r.value.0]) == Some(r.value.1)
    ensures r.Some? ==> forall j | 0 <= j < r.value.0 :: f(lines[j]).None?
    decreases |lines|
  {
    if |lines| == 0 then None
    else if f(lines[0]).Some? then Some((0, f(lines[0]).value))
    else
      match FindFirst(lines[1..], f)
      case None => None
      case Some((j, v)) => Some((j + 1, v))
  }

  const CANVAS_SIZE_PREFIX: string := "Canvas size: "
  const CANVAS_SIZE_SEPARATOR: string := " x "

  /** The two numerals of a line that is exactly `Canvas size: (\d+) x (\d+)`. */
  function CanvasSizeLine(line: string): (r: Option<(string, string)>)
    ensures r.Some? ==> |r.value.0| > 0 && AllDigits(r.value.0) && |r.value.1| > 0 && AllDigits(r.value.1)
    ensures r.Some? ==> line == CANVAS_SIZE_PREFIX + r.value.0 + CANVAS_SIZE_SEPARATOR + r.value.1
  {
    if !HasPrefix(line, CANVAS_SIZE_PREFIX) then None
    else
      var rest := line[|CANVAS_SIZE_PREFIX|..];
      var n := DigitRunLength(rest);
      var after := rest[n..];
      if n == 0 || !HasPrefix(after, CANVAS_SIZE_SEPARATOR) then None
      else
        var h := after[|CANVAS_SIZE_SEPARATOR|..];
        if |h| == 0 || !AllDigits(h) then None
        else
          assert rest == rest[..n] + CANVAS_SIZE_SEPARATOR + h;
          assert line == CANVAS_SIZE_PREFIX + rest;
          Some((rest[..n], h))
  }

  /** Every line of that shape is recognised, with its two numerals. */
  lemma CanvasSizeLineComplete(w: string, h: string)
    requires |w| > 0 && AllDigits(w) && |h| > 0 && AllDigits(h)
    ensures CanvasSizeLine(CANVAS_SIZE_PREFIX + w + CANVAS_SIZE_SEPARATOR + h) == Some((w, h))
  {
    var line := CANVAS_SIZE_PREFIX + w + CANVAS_SIZE_SEPARATOR + h;
    var rest := w + CANVAS_SIZE_SEPARATOR + h;
    assert line[..|CANVAS_SIZE_PREFIX|] == CANVAS_SIZE_PREFIX;
    assert line[|CANVAS_SIZE_PREFIX|..] == rest;
    DigitRunOfPrefix(w, CANVAS_SIZE_SEPARATOR + h);
    assert rest == w + (CANVAS_SIZE_SEPARATOR + h);
    assert rest[|w|..] == CANVAS_SIZE_SEPARATOR + h;
    assert rest[..|w|] == w;
    assert (CANVAS_SIZE_SEPARATOR + h)[..|CANVAS_SIZE_SEPARATOR|] == CANVAS_SIZE_SEPARATOR;
    assert (CANVAS_SIZE_SEPARATOR + h)[|CANVAS_SIZE_SEPARATOR|..] == h;
  }

  /**
   * parseAWebpInfoCanvasSize: the numerals of the first canvas-size line as
   * uint32. Without such a line, indexing the missing match panics; a
   * numeral too big for 32 bits fails, reporting the whole dump, and the
   * width is checked (and blamed) first.
   */
  function ParseAWebpInfoCanvasSize(info: string): (r: Outcome<(u32, u32)>)
    ensures r.Panic? <==> FindFirst(Split(info, '\n'), CanvasSizeLine).None?
    ensures r.Panic? ==> r.fault == NO_MATCH
    ensures var m := FindFirst(Split(info, '\n'), CanvasSizeLine);
      m.Some? ==> (r.Ok? <==> DecimalValue(m.value.1.0) < U32_LIMIT && DecimalValue(m.value.1.1) < U32_LIMIT)
    ensures var m := FindFirst(Split(info, '\n'), CanvasSizeLine);
      r.Fail? ==> m.Some? && (r.error.reason == FAILED_WIDTH <==> DecimalValue(m.value.1.0) >= U32_LIMIT)
    ensures r.Fail? ==> r.error.input == info && r.error.subError == None
    ensures r.Fail? ==> r.error.reason == FAILED_WIDTH || r.error.reason == FAILED_HEIGHT
    ensures r.Ok? ==>
      var m := FindFirst(Split(info, '\n'), CanvasSizeLine);
      m.Some? && DecimalValue(m.value.1.0) == r.value.0 && DecimalValue(m.value.1.1) == r.value.1
  {
    match FindFirst(Split(info, '\n'), CanvasSizeLine)
    case None => Panic(NO_MATCH)
    case Some((_, (ws, hs))) =>
      var width :- Require(ParseUint32(ws), FAILED_WIDTH, info);
      var height :- Require(ParseUint32(hs), FAILED_HEIGHT, info);
      Ok((width, height))
  }

  /** The white space of Go's regular expressions, `\s`: tab, line feed, form feed, carriage return, space. */
  predicate IsRegexSpace(c: char)
  {
    c == '\t' || c == '\n' || c == '\U{000C}' || c == '\r' || c == ' '
  }

  /** The end of the run of `\s` characters that starts at `i`; the run may cross lines. */
  function SkipRegexSpace(s: string, i: nat): (j: nat)
    requires i <= |s|
    ensures i <= j <= |s|
    ensures forall k | i <= k < j :: IsRegexSpace(s[k])
    ensures j < |s| ==> !IsRegexSpace(s[j])
    decreases |s| - i
  {
    if i == |s| || !IsRegexSpace(s[i]) then i else SkipRegexSpace(s, i + 1)
  }

  /** `[\dA-F]`: a decimal digit or an upper-case hexadecimal letter. */
  predicate IsUpperHexDigit(c: char)
  {
    IsDigit(c) || 'A' <= c <= 'F'
  }

  const BACKGROUND_LABEL: string := "Background color"

  /**
   * A match of `(?m)^Background color\s*:\s*(0x[\dA-F]{8})` starting at
   * index `i`, giving the submatch. `i` must start a line; neither `\s*` can
   * give back a character, because the character after each is not white
   * space, so the match from `i` is unique.
   */
  function BackgroundAt(s: string, i: nat): (r: Option<string>)
    requires i <= |s|
    ensures r.Some? ==> |r.value| == 10 && r.value[..2] == "0x"
    ensures r.Some? ==> forall k | 2 <= k < 10 :: IsUpperHexDigit(r.value[k])
  {
    if !(i == 0 || s[i - 1] == '\n') || !HasPrefix(s[i..], BACKGROUND_LABEL) then None
    else
      var j := SkipRegexSpace(s, i + |BACKGROUND_LABEL|);
      if j == |s| || s[j] != ':' then None
      else
        var k := SkipRegexSpace(s, j + 1);
        if k + 10 > |s| || s[k..k + 2] != "0x" || !(forall m | k + 2 <= m < k + 10 :: IsUpperHexDigit(s[m])) then None
        else Some(s[k..k + 10])
  }

  /** The leftmost match at or after index `i`, with where it starts: the one `FindStringSubmatch` reports. */
  function FindBackground(s: string, i: nat): (r: Option<(nat, string)>)
    requires i <= |s|
    ensures r.None? <==> forall j | i <= j <= |s| :: BackgroundAt(s, j).None?
    ensures r.Some? ==> i <= r.value.0 <= |s| && BackgroundAt(s, r.value.0) == Some(r.value.1)
    ensures r.Some? ==> forall j | i <= j < r.value.0 :: BackgroundAt(s, j).None?
    decreases |s| - i
  {
    if BackgroundAt(s, i).Some? then Some((i, BackgroundAt(s, i).value))
    else if i == |s| then None
    else FindBackground(s, i + 1)
  }

  /** `0x` or `0X`, then one or more hexadecimal digits. */
  predicate IsHexLiteral(s: string)
  {
    |s| > 2 && (s[..2] == "0x" || s[..2] == "0X") && AllHexDigits(s[2..])
  }

  /**
   * parseHexColor, for the literals it is given here: `0x` or `0X` then one
   * or more hexadecimal digits. The value becomes a colour; a value of 64
   * bits or more panics; anything else is not a colour.
   */
  function ParseHexColor(s: string): (r: Outcome<Option<Color>>)
    ensures !r.Fail?
    ensures r == Ok(None) <==> !IsHexLiteral(s)
    ensures r.Panic? <==> IsHexLiteral(s) && HexValue(s[2..]) >= U64_LIMIT
    ensures r.Panic? ==> r.fault == ColorTooBig(s)
    ensures r.Ok? && r.value.Some? ==> IsHexLiteral(s) && r.value.value.Value() == HexValue(s[2..])
  {
    if IsHexLiteral(s) then
      var v := HexValue(s[2..]);
      if v >= U64_LIMIT then Panic(ColorTooBig(s)) else Ok(Some(MakeColor(v)))
    else Ok(None)
  }

  /** A matched background literal is a colour below 2^32 for parseHexColor. */
  lemma BackgroundLiteral(literal: string)
    requires |literal| == 10 && literal[..2] == "0x"
    requires forall k | 2 <= k < 10 :: IsUpperHexDigit(literal[k])
    ensures AllHexDigits(literal[2..]) && HexValue(literal[2..]) < U32_LIMIT
    ensures ParseHexColor(literal) == Ok(Some(MakeColor(HexValue(literal[2..]))))
  {
    assert AllHexDigits(literal[2..]) && |literal[2..]| == 8;
    EightHexDigits(literal[2..]);
  }

  /**
   * parseAWebpInfoBackgroundColor: the colour whose packed value is the
   * eight hexadecimal digits of the first match. Eight digits are below
   * 2^32, so neither the failure nor the too-big panic can happen; only a
   * missing match panics.
   */
  function ParseAWebpInfoBackgroundColor(info: string): (r: Outcome<Color>)
    ensures !r.Fail?
    ensures r.Panic? <==> FindBackground(info, 0).None?
    ensures r.Panic? ==> r.fault == NO_MATCH
    ensures r.Ok? ==> r.value.Value() < U32_LIMIT
    ensures r.Ok? ==> r.value.Value() == HexValue(FindBackground(info, 0).value.1[2..])
  {
    match FindBackground(info, 0)
    case None => Panic(NO_MATCH)
    case Some((_, literal)) =>
      BackgroundLiteral(literal);
      match ParseHexColor(literal)
      case Panic(fault) => Panic(fault)
      case Fail(error) => Fail(error)
      case Ok(hex) => if hex.None? then Fail(MakeParsingError(FAILED_BACKGROUND, info)) else Ok(hex.value)
  }

  const FRAME_COUNT_PREFIX: string := "Number of frames: "

  /** The numeral of a line that starts `Number of frames: ` and a digit: the whole digit run. */
  function FrameCountLine(line: string): (r: Option<string>)
    ensures r.Some? ==> |r.value| > 0 && AllDigits(r.value)
    ensures r.Some? ==> HasPrefix(line, FRAME_COUNT_PREFIX + r.value)
  {
    if !HasPrefix(line, FRAME_COUNT_PREFIX) then None
    else
      var rest := line[|FRAME_COUNT_PREFIX|..];
      var n := DigitRunLength(rest);
      if n == 0 then None
      else
        assert line[..|FRAME_COUNT_PREFIX| + n] == FRAME_COUNT_PREFIX + rest[..n];
        Some(rest[..n])
  }

  /** `yes` is true and `no` is false; nothing else is a flag. */
  function YesNo(field: string): (r: Option<bool>)
    ensures r == Some(true) <==> field == "yes"
    ensures r == Some(false) <==> field == "no"
  {
    if field == "yes" then Some(true) else if field == "no" then Some(false) else None
  }

  /** `fields[k]`, or the index panic. */
  function Field(fields: seq<string>, k: nat): (r: Outcome<string>)
    ensures k < |fields| ==> r == Ok(fields[k])
    ensures k >= |fields| ==> r == Panic(IndexOutOfRange(k, |fields|))
  {
    if k < |fields| then Ok(fields[k]) else Panic(IndexOutOfRange(k, |fields|))
  }

  /** The nanoseconds in one millisecond. */
  const MILLISECOND: int := 1_000_000

  /**
   * parseAWebpFrameInfo: the white-space separated fields of a frame line,
   * read in order and the first failure winning. Field 0 gives the number
   * (its first digit run), 1 and 2 the size, 3 the alpha flag, 4 and 5 the
   * offsets, 6 the duration in milliseconds (kept in nanoseconds, wrapping
   * as int64), 8 the blend flag; field 7 and any after 8 are not read. A
   * missing field panics. Every failure reports the whole line except the
   * blend failure, which reports field 8 alone. Frame number 0 panics, after
   * every field has been read.
   */
  function ParseAWebpFrameInfo(line: string): (r: Outcome<AWebpFrameInfo>)
    ensures r.Fail? ==> r.error.subError == None
    ensures r.Fail? && r.error.reason == FAILED_BLEND ==> 8 < |Fields(line)| && r.error.input == Fields(line)[8]
    ensures r.Fail? && r.error.reason != FAILED_BLEND ==> r.error.input == line
    ensures r.Panic? ==> r.fault == ZeroFrameNumber || r.fault.IndexOutOfRange?
    ensures r.Ok? ==>
      var f := Fields(line);
      |f| >= 9 && r.value.number != 0 &&
      ParseUint32(FirstDigitRun(f[0])) == Some(r.value.number) &&
      ParseUint32(f[1]) == Some(r.value.width) && ParseUint32(f[2]) == Some(r.value.height) &&
      YesNo(f[3]) == Some(r.value.alpha) &&
      ParseUint32(f[4]) == Some(r.value.xOffset) && ParseUint32(f[5]) == Some(r.value.yOffset) &&
      ParseInt64(f[6]).Some? && r.value.duration == WrapI64(ParseInt64(f[6]).value * MILLISECOND) &&
      YesNo(f[8]) == Some(r.value.blend)
  {
    var fields := Fields(line);
    var f0 :- Field(fields, 0);
    var number :- Require(ParseUint32(FirstDigitRun(f0)), FAILED_NUMBER, line);
    var f1 :- Field(fields, 1);
    var width :- Require(ParseUint32(f1), FAILED_WIDTH, line);
    var f2 :- Field(fields, 2);
    var height :- Require(ParseUint32(f2), FAILED_HEIGHT, line);
    var f3 :- Field(fields, 3);
    var alpha :- Require(YesNo(f3), FAILED_ALPHA, line);
    var f4 :- Field(fields, 4);
    var xOffset :- Require(ParseUint32(f4), FAILED_X_OFFSET, line);
    var f5 :- Field(fields, 5);
    var yOffset :- Require(ParseUint32(f5), FAILED_Y_OFFSET, line);
    var f6 :- Field(fields, 6);
    var durationMs :- Require(ParseInt64(f6), FAILED_DURATION, line);
    var duration := WrapI64(durationMs * MILLISECOND);
    var f8 :- Field(fields, 8);
    var blend :- Require(YesNo(f8), FAILED_BLEND, f8);
    MakeAWebpFrameInfo(number, width, height, alpha, xOffset, yOffset, duration, blend)
  }

  /** The fields parseAWebpFrameInfo reads, in the order it reads them, and the reason each one's failure gives. */
  const FIELD_ORDER: seq<nat> := [0, 1, 2, 3, 4, 5, 6, 8]
  const FIELD_REASONS: seq<string> :=
    [FAILED_NUMBER, FAILED_WIDTH, FAILED_HEIGHT, FAILED_ALPHA, FAILED_X_OFFSET, FAILED_Y_OFFSET, FAILED_DURATION, FAILED_BLEND]

  /** The i-th field read (field `FIELD_ORDER[i]`) has the form its conversion accepts. */
  predicate FieldParses(field: string, i: nat)
  {
    if i == 0 then ParseUint32(FirstDigitRun(field)).Some?
    else if i == 3 || i == 7 then YesNo(field).Some?
    else if i == 6 then ParseInt64(field).Some?
    else ParseUint32(field).Some?
  }

  /** The first `i` fields read are present and parse. */
  predicate ParsedBefore(f: seq<string>, i: nat)
    requires i <= 8
  {
    forall j | 0 <= j < i :: FIELD_ORDER[j] < |f| && FieldParses(f[FIELD_ORDER[j]], j)
  }

  /**
   * The fields are read in `FIELD_ORDER`, and the first one missing or
   * malformed decides the outcome: a missing one panics with its index.
   */
  lemma FrameInfoMissingField(line: string, i: nat)
    requires i < 8 && ParsedBefore(Fields(line), i)
    requires FIELD_ORDER[i] >= |Fields(line)|
    ensures ParseAWebpFrameInfo(line) == Panic(IndexOutOfRange(FIELD_ORDER[i], |Fields(line)|))
  {
    ParsedFields(Fields(line), i);
    if i == 0 {
    } else if i == 1 {
    } else if i == 2 {
    } else if i == 3 {
    } else if i == 4 {
    } else if i == 5 {
    } else if i == 6 {
    } else {
    }
  }

  /**
   * A malformed one, after all before it parsed, fails with its own reason,
   * reporting the line (the blend field reports itself).
   */
  lemma FrameInfoBadField(line: string, i: nat)
    requires i < 8 && ParsedBefore(Fields(line), i)
    requires FIELD_ORDER[i] < |Fields(line)| && !FieldParses(Fields(line)[FIELD_ORDER[i]], i)
    ensures var f := Fields(line);
      ParseAWebpFrameInfo(line) == Fail(MakeParsingError(FIELD_REASONS[i], if i == 7 then f[8] else line))
  {
    ParsedFields(Fields(line), i);
    if i == 0 {
    } else if i == 1 {
    } else if i == 2 {
    } else if i == 3 {
    } else if i == 4 {
    } else if i == 5 {
    } else if i == 6 {
    } else {
    }
  }

  /**
   * A frame line panics on frame number 0, or on the first missing field
   * read: with the line's field count as the length, that field's index is
   * the count itself, or 8 when only the dispose field (7) is missing too.
   */
  lemma FrameInfoPanicIndex(line: string)
    requires ParseAWebpFrameInfo(line).Panic?
    ensures var p := ParseAWebpFrameInfo(line).fault; var n := |Fields(line)|;
      p == ZeroFrameNumber || p == IndexOutOfRange(n, n) || (n == 7 && p == IndexOutOfRange(8, 7))
  {
    var f := Fields(line);
    var i := FirstUnparsed(f);
    assert FIELD_ORDER == [0, 1, 2, 3, 4, 5, 6, 8];
    if i == 8 {
      FrameInfoAllFields(line);
    } else if FIELD_ORDER[i] < |f| {
      FrameInfoBadField(line, i);
    } else {
      FrameInfoMissingField(line, i);
      if i > 0 {
        assert FIELD_ORDER[i - 1] < |f|;
      }
    }
  }

  /** The position in `FIELD_ORDER` of the first field read that is missing or malformed, 8 if none. */
  lemma FirstUnparsed(f: seq<string>) returns (i: nat)
    ensures i <= 8 && ParsedBefore(f, i)
    ensures i < 8 ==> !(FIELD_ORDER[i] < |f| && FieldParses(f[FIELD_ORDER[i]], i))
  {
    i := 0;
    while i < 8 && FIELD_ORDER[i] < |f| && FieldParses(f[FIELD_ORDER[i]], i)
      invariant i <= 8 && ParsedBefore(f, i)
    {
      i := i + 1;
    }
  }

  /** `ParsedBefore`, field by field. */
  lemma ParsedFields(f: seq<string>, i: nat)
    requires i <= 8 && ParsedBefore(f, i)
    ensures i > 0 ==> 0 < |f| && ParseUint32(FirstDigitRun(f[0])).Some?
    ensures i > 1 ==> 1 < |f| && ParseUint32(f[1]).Some?
    ensures i > 2 ==> 2 < |f| && ParseUint32(f[2]).Some?
    ensures i > 3 ==> 3 < |f| && YesNo(f[3]).Some?
    ensures i > 4 ==> 4 < |f| && ParseUint32(f[4]).Some?
    ensures i > 5 ==> 5 < |f| && ParseUint32(f[5]).Some?
    ensures i > 6 ==> 6 < |f| && ParseInt64(f[6]).Some?
    ensures i > 7 ==> 8 < |f| && YesNo(f[8]).Some?
  {
    assert FIELD_ORDER == [0, 1, 2, 3, 4, 5, 6, 8];
    if i > 0 { assert FieldParses(f[FIELD_ORDER[0]], 0); }
    if i > 1 { assert FieldParses(f[FIELD_ORDER[1]], 1); }
    if i > 2 { assert FieldParses(f[FIELD_ORDER[2]], 2); }
    if i > 3 { assert FieldParses(f[FIELD_ORDER[3]], 3); }
    if i > 4 { assert FieldParses(f[FIELD_ORDER[4]], 4); }
    if i > 5 { assert FieldParses(f[FIELD_ORDER[5]], 5); }
    if i > 6 { assert FieldParses(f[FIELD_ORDER[6]], 6); }
    if i > 7 { assert FieldParses(f[FIELD_ORDER[7]], 7); }
  }

  /**
   * Once every field read parses, the frame number alone decides: 0 panics,
   * any other number gives the frame.
   */
  lemma FrameInfoAllFields(line: string)
    requires ParsedBefore(Fields(line), 8)
    ensures var f := Fields(line);
      ParseAWebpFrameInfo(line).Ok? <==> |f| > 0 && ParseUint32(FirstDigitRun(f[0])) != Some(0)
    ensures !ParseAWebpFrameInfo(line).Ok? ==> ParseAWebpFrameInfo(line) == Panic(ZeroFrameNumber)
  {
    ParsedFields(Fields(line), 8);
  }

  function YesNoWord(b: bool): string
  {
    if b then "yes" else "no"
  }

  /**
   * The fields of a frame line as `webpmux -info` writes them: number and
   * colon, width, height, alpha, offsets, duration in milliseconds, dispose
   * method, blend, then anything else.
   */
  function FrameLineFields(fi: AWebpFrameInfo, durationMs: int, dispose: string, extra: seq<string>): seq<string>
  {
    FrameLineHead(fi, durationMs, dispose) + extra
  }

  function FrameLineHead(fi: AWebpFrameInfo, durationMs: int, dispose: string): (head: seq<string>)
    ensures |head| == 9
  {
    [FormatDecimal(fi.number) + ":", FormatDecimal(fi.width), FormatDecimal(fi.height), YesNoWord(fi.alpha),
     FormatDecimal(fi.xOffset), FormatDecimal(fi.yOffset), FormatInt(durationMs), dispose, YesNoWord(fi.blend)]
  }

  lemma HeadWords(fi: AWebpFrameInfo, durationMs: int, dispose: string)
    requires IsWord(dispose)
    ensures forall k | 0 <= k < 9 :: IsWord(FrameLineHead(fi, durationMs, dispose)[k])
  {
    var head := FrameLineHead(fi, durationMs, dispose);
    NumeralIsWord(FormatDecimal(fi.number));
    ConcatIsWord(FormatDecimal(fi.number), ":");
    NumeralIsWord(FormatDecimal(fi.width));
    NumeralIsWord(FormatDecimal(fi.height));
    NumeralIsWord(FormatDecimal(fi.xOffset));
    NumeralIsWord(FormatDecimal(fi.yOffset));
    FormatIntIsWord(durationMs);
    YesNoIsWord(fi.alpha);
    YesNoIsWord(fi.blend);
    forall k | 0 <= k < 9
      ensures IsWord(head[k])
    {
      if k == 0 {
        assert head[0] == FormatDecimal(fi.number) + ":";
      } else if k == 3 {
        assert head[3] == YesNoWord(fi.alpha);
      } else if k == 8 {
        assert head[8] == YesNoWord(fi.blend);
      } else if k == 6 {
        assert head[6] == FormatInt(durationMs);
      } else if k == 7 {
        assert head[7] == dispose;
      }
    }
  }

  lemma ConcatIsWord(a: string, b: string)
    requires IsWord(a) && IsWord(b)
    ensures IsWord(a + b)
  {
    forall i | 0 <= i < |a + b|
      ensures !IsSpace((a + b)[i])
    {
      if i < |a| {
        assert (a + b)[i] == a[i];
      } else {
        assert (a + b)[i] == b[i - |a|];
      }
    }
  }

  lemma YesNoIsWord(b: bool)
    ensures IsWord(YesNoWord(b))
  {
    var w := YesNoWord(b);
    assert forall i | 0 <= i < |w| :: w[i] in {'y', 'e', 's', 'n', 'o'};
  }

  lemma NumeralIsWord(s: string)
    requires |s| > 0 && AllDigits(s)
    ensures IsWord(s)
  {
  }

  lemma FormatIntIsWord(v: int)
    ensures IsWord(FormatInt(v))
  {
    if v < 0 {
      var s := "-" + FormatDecimal(-v);
      assert forall i | 1 <= i < |s| :: s[i] == FormatDecimal(-v)[i - 1];
    }
  }

  /**
   * Every frame line written that way, with any leading white space and any
   * white space between and after the columns (column-aligned, as `webpmux
   * -info` prints its table), is parsed back into the frame it describes
   * (for a non-zero frame number, and with the duration the number of
   * milliseconds times 1 ms).
   */
  lemma FrameLineRoundTrip(pad: string, fi: AWebpFrameInfo, durationMs: i64, dispose: string, extra: seq<string>, seps: seq<string>)
    requires AllSpace(pad)
    requires fi.number != 0 && fi.duration == WrapI64(durationMs * MILLISECOND)
    requires IsWord(dispose) && forall k | 0 <= k < |extra| :: IsWord(extra[k])
    requires |seps| == 9 + |extra|
    requires forall k | 0 <= k < |seps| :: AllSpace(seps[k])
    requires forall k | 0 <= k < |seps| - 1 :: |seps[k]| > 0
    ensures ParseAWebpFrameInfo(pad + Spaced(FrameLineFields(fi, durationMs, dispose, extra), seps)) == Ok(fi)
  {
    var line := pad + Spaced(FrameLineFields(fi, durationMs, dispose, extra), seps);
    FrameLineFieldsSplit(pad, fi, durationMs, dispose, extra, seps);
    ParseFrameLineFields(line, fi, durationMs, dispose, extra);
  }

  lemma FrameLineFieldsSplit(pad: string, fi: AWebpFrameInfo, durationMs: int, dispose: string, extra: seq<string>, seps: seq<string>)
    requires AllSpace(pad)
    requires IsWord(dispose) && forall k | 0 <= k < |extra| :: IsWord(extra[k])
    requires |seps| == 9 + |extra|
    requires forall k | 0 <= k < |seps| :: AllSpace(seps[k])
    requires forall k | 0 <= k < |seps| - 1 :: |seps[k]| > 0
    ensures Fields(pad + Spaced(FrameLineFields(fi, durationMs, dispose, extra), seps)) == FrameLineFields(fi, durationMs, dispose, extra)
  {
    var fs := FrameLineFields(fi, durationMs, dispose, extra);
    HeadWords(fi, durationMs, dispose);
    WordsAppend(FrameLineHead(fi, durationMs, dispose), extra);
    FieldsSkipSpace(pad, Spaced(fs, seps));
    FieldsSpaced(fs, seps);
  }

  lemma WordsAppend(a: seq<string>, b: seq<string>)
    requires forall k | 0 <= k < |a| :: IsWord(a[k])
    requires forall k | 0 <= k < |b| :: IsWord(b[k])
    ensures forall k | 0 <= k < |a + b| :: IsWord((a + b)[k])
  {
  }

  lemma ParseFrameLineFields(line: string, fi: AWebpFrameInfo, durationMs: i64, dispose: string, extra: seq<string>)
    requires Fields(line) == FrameLineFields(fi, durationMs, dispose, extra)
    requires fi.number != 0 && fi.duration == WrapI64(durationMs * MILLISECOND)
    ensures ParseAWebpFrameInfo(line) == Ok(fi)
  {
    var head := FrameLineHead(fi, durationMs, dispose);
    var fs := Fields(line);
    FrameHeadParses(fi, durationMs, dispose);
    assert forall k | 0 <= k < 9 :: fs[k] == head[k];
    ParsedAll(fs);
    FrameInfoAllFields(line);
  }

  /** Each field written for a frame converts back to the frame's value. */
  lemma FrameHeadParses(fi: AWebpFrameInfo, durationMs: i64, dispose: string)
    ensures var head := FrameLineHead(fi, durationMs, dispose);
      ParseUint32(FirstDigitRun(head[0])) == Some(fi.number) &&
      ParseUint32(head[1]) == Some(fi.width) && ParseUint32(head[2]) == Some(fi.height) &&
      YesNo(head[3]) == Some(fi.alpha) &&
      ParseUint32(head[4]) == Some(fi.xOffset) && ParseUint32(head[5]) == Some(fi.yOffset) &&
      ParseInt64(head[6]) == Some(durationMs as int) && YesNo(head[8]) == Some(fi.blend)
  {
    var head := FrameLineHead(fi, durationMs, dispose);
    FirstDigitRunOfPrefix(FormatDecimal(fi.number), ":");
    ParseFormatUint32(fi.number);
    FrameHeadNumerals(fi, durationMs, dispose);
    FrameHeadFlags(fi, durationMs, dispose);
  }

  lemma FrameHeadNumerals(fi: AWebpFrameInfo, durationMs: i64, dispose: string)
    ensures var head := FrameLineHead(fi, durationMs, dispose);
      ParseUint32(head[1]) == Some(fi.width) && ParseUint32(head[2]) == Some(fi.height) &&
      ParseUint32(head[4]) == Some(fi.xOffset) && ParseUint32(head[5]) == Some(fi.yOffset)
  {
    ParseFormatUint32(fi.width);
    ParseFormatUint32(fi.height);
    ParseFormatUint32(fi.xOffset);
    ParseFormatUint32(fi.yOffset);
  }

  lemma FrameHeadFlags(fi: AWebpFrameInfo, durationMs: i64, dispose: string)
    ensures var head := FrameLineHead(fi, durationMs, dispose);
      YesNo(head[3]) == Some(fi.alpha) && ParseInt64(head[6]) == Some(durationMs as int) && YesNo(head[8]) == Some(fi.blend)
  {
    ParseFormatInt64(durationMs);
  }

  /** The converse of `ParsedFields`: every field read present and parsing is `ParsedBefore(f, 8)`. */
  lemma ParsedAll(f: seq<string>)
    requires |f| >= 9 && ParseUint32(FirstDigitRun(f[0])).Some?
    requires ParseUint32(f[1]).Some? && ParseUint32(f[2]).Some? && YesNo(f[3]).Some?
    requires ParseUint32(f[4]).Some? && ParseUint32(f[5]).Some? && ParseInt64(f[6]).Some? && YesNo(f[8]).Some?
    ensures ParsedBefore(f, 8)
  {
    assert FIELD_ORDER == [0, 1, 2, 3, 4, 5, 6, 8];
  }

  /**
   * One frame line as the frame loop sees it: a parse failure is replaced by
   * "Failed parsing frame info" for the whole line, without its cause; a
   * panic goes through. The line parser is a parameter (it is
   * `ParseAWebpFrameInfo`), so that the loop's proofs need nothing of it.
   */
  function FrameLineOutcome<T>(parse: string -> Outcome<T>, line: string): (r: Outcome<T>)
    ensures !parse(line).Fail? ==> r == parse(line)
    ensures parse(line).Fail? ==> r == Fail(MakeParsingError(FAILED_FRAME_INFO, line))
  {
    match parse(line)
    case Fail(_) => Fail(MakeParsingError(FAILED_FRAME_INFO, line))
    case other => other
  }

  /**
   * The frame loop over `lines`, in order: the frames of all lines, or the
   * outcome of the first line that does not parse.
   */
  function ParseFrameLines<T>(parse: string -> Outcome<T>, lines: seq<string>): (r: Outcome<seq<T>>)
    ensures r.Ok? ==> |r.value| == |lines|
    ensures r.Ok? ==> forall k | 0 <= k < |lines| :: parse(lines[k]) == Ok(r.value[k])
    ensures !r.Ok? ==>
      exists k | 0 <= k < |lines| ::
        !FrameLineOutcome(parse, lines[k]).Ok? && r == FrameLineOutcome(parse, lines[k]).PropagateFailure() &&
        forall j | 0 <= j < k :: parse(lines[j]).Ok?
    decreases |lines|
  {
    if |lines| == 0 then Ok([])
    else
      var init := lines[..|lines| - 1];
      var last := lines[|lines| - 1];
      match ParseFrameLines(parse, init)
      case Ok(frames) =>
        (match FrameLineOutcome(parse, last)
         case Ok(fi) => Ok(frames + [fi])
         case Fail(e) => Fail(e)
         case Panic(f) => Panic(f))
      case Fail(e) => Fail(e)
      case Panic(f) => Panic(f)
  }

  /**
   * What parseAWebpInfoFrames computes: the frame count from the first
   * frame-count line, then the frames of lines 5 to 5 + count of the dump
   * split at line feeds. A missing count line panics; a count too big for
   * 32 bits fails, reporting the whole dump; too few lines for the slice
   * panic; otherwise the frame loop decides. The line parser is a parameter,
   * as for `ParseFrameLines` (it is `ParseAWebpFrameInfo`).
   */
  function FrameTable<T>(parse: string -> Outcome<T>, info: string): (r: Outcome<(u32, seq<T>)>)
    ensures var lines := Split(info, '\n');
      match FindFirst(lines, FrameCountLine)
      case None => r == Panic(NO_MATCH)
      case Some((_, numeral)) =>
        var count := DecimalValue(numeral);
        if count >= U32_LIMIT then r == Fail(MakeParsingError(FAILED_FRAME_COUNT, info))
        else if 5 + count > |lines| then r == Panic(SliceOutOfRange(5 + count, |lines|))
        else
          var frames := ParseFrameLines(parse, lines[5..5 + count]);
          if frames.Ok? then r == Ok((count as u32, frames.value)) else r == frames.PropagateFailure()
    ensures r.Ok? ==> |r.value.1| == r.value.0
    ensures r.Ok? ==>
      5 + r.value.0 <= |Split(info, '\n')| &&
      ParseFrameLines(parse, Split(info, '\n')[5..5 + r.value.0]) == Ok(r.value.1)
    ensures r.Fail? ==> r.error.subError == None
  {
    var lines := Split(info, '\n');
    match FindFirst(lines, FrameCountLine)
    case None => Panic(NO_MATCH)
    case Some((_, numeral)) => FramesAfterCount(parse, info, lines, numeral)
  }

  /** The frame table once the count line is found, its numeral `numeral`. */
  function FramesAfterCount<T>(parse: string -> Outcome<T>, info: string, lines: seq<string>, numeral: string): (r: Outcome<(u32, seq<T>)>)
    requires |numeral| > 0 && AllDigits(numeral)
    ensures var count := DecimalValue(numeral);
      if count >= U32_LIMIT then r == Fail(MakeParsingError(FAILED_FRAME_COUNT, info))
      else if 5 + count > |lines| then r == Panic(SliceOutOfRange(5 + count, |lines|))
      else
        var frames := ParseFrameLines(parse, lines[5..5 + count]);
        if frames.Ok? then r == Ok((count as u32, frames.value)) else r == frames.PropagateFailure()
    ensures r.Ok? ==> |r.value.1| == r.value.0
    ensures r.Ok? ==> 5 + r.value.0 <= |lines| && ParseFrameLines(parse, lines[5..5 + r.value.0]) == Ok(r.value.1)
    ensures r.Fail? ==> r.error.subError == None
  {
    var frameCount :- Require(ParseUint32(numeral), FAILED_FRAME_COUNT, info);
    if 5 + frameCount > |lines| then Panic(SliceOutOfRange(5 + frameCount, |lines|))
    else
      var frameInfos :- ParseFrameLines(parse, lines[5..5 + frameCount]);
      Ok((frameCount, frameInfos))
  }

  /** Once a prefix of the lines fails, so do all the lines, with the same outcome. */
  lemma {:induction false} ParseFrameLinesStops<T>(parse: string -> Outcome<T>, lines: seq<string>, i: nat)
    requires i <= |lines| && !ParseFrameLines(parse, lines[..i]).Ok?
    ensures ParseFrameLines(parse, lines) == ParseFrameLines(parse, lines[..i])
    decreases |lines| - i
  {
    if i < |lines| {
      var next := lines[..i + 1];
      assert next[..|next| - 1] == lines[..i];
      ParseFrameLinesStops(parse, lines, i + 1);
    } else {
      assert lines[..i] == lines;
    }
  }

  /** parseAWebpInfoFrames: the frame count, the slice of frame lines, and the frame loop over them. */
  method ParseAWebpInfoFrames(info: string) returns (r: Outcome<(u32, seq<AWebpFrameInfo>)>)
    ensures r == FrameTable(ParseAWebpFrameInfo, info)
  {
    var lines := Split(info, '\n');
    var found := FindFirst(lines, FrameCountLine);
    if found.None? {
      return Panic(NO_MATCH);
    }
    var parsed := ParseUint32(found.value.1);
    if parsed.None? {
      return Fail(MakeParsingError(FAILED_FRAME_COUNT, info));
    }
    var frameCount := parsed.value;
    if 5 + frameCount > |lines| {
      return Panic(SliceOutOfRange(5 + frameCount, |lines|));
    }
    var frameLines := lines[5..5 + frameCount];
    var frames := ParseFrameLoop(ParseAWebpFrameInfo, frameLines);
    r := match frames
      case Ok(frameInfos) => Ok((frameCount, frameInfos))
      case Fail(e) => Fail(e)
      case Panic(f) => Panic(f);
  }

  /**
   * The loop of parseAWebpInfoFrames over its frame lines: each line's frame
   * is appended in turn, and the first line that fails or panics ends it.
   */
  method ParseFrameLoop<T>(parse: string -> Outcome<T>, frameLines: seq<string>) returns (r: Outcome<seq<T>>)
    ensures r == ParseFrameLines(parse, frameLines)
  {
    var frameInfos: seq<T> := [];
    var i := 0;
    while i < |frameLines|
      invariant 0 <= i <= |frameLines|
      invariant ParseFrameLines(parse, frameLines[..i]) == Ok(frameInfos)
    {
      var fi := FrameLineOutcome(parse, frameLines[i]);
      assert frameLines[..i + 1][..i] == frameLines[..i];
      if !fi.Ok? {
        r := if fi.Fail? then Fail(fi.error) else Panic(fi.fault);
        ParseFrameLinesStops(parse, frameLines, i + 1);
        return;
      }
      frameInfos := frameInfos + [fi.value];
      i := i + 1;
    }
    assert frameLines[..i] == frameLines;
    r := Ok(frameInfos);
  }

  /**
   * The three stages' outcomes in order: the first that fails or panics ends
   * the parse; when all succeed, the record is assembled. The stages are pure,
   * so taking their outcomes as values gives what running them one after the
   * other and stopping at the first error gives.
   */
  function Assemble(size: Outcome<(u32, u32)>, backgroundColor: Outcome<Color>,
                    frames: Outcome<(u32, seq<AWebpFrameInfo>)>): (r: Outcome<AWebpInfo>)
    requires frames.Ok? ==> |frames.value.1| == frames.value.0
    ensures r.Ok? <==> size.Ok? && backgroundColor.Ok? && frames.Ok?
    ensures r.Ok? ==> r.value == AWebpInfo(size.value.0, size.value.1, backgroundColor.value, frames.value.0, frames.value.1)
    ensures !size.Ok? ==> r == size.PropagateFailure()
    ensures size.Ok? && !backgroundColor.Ok? ==> r == backgroundColor.PropagateFailure()
    ensures size.Ok? && backgroundColor.Ok? && !frames.Ok? ==> r == frames.PropagateFailure()
  {
    var s :- size;
    var b :- backgroundColor;
    match frames
    case Fail(e) => Fail(e)
    case Panic(f) => Panic(f)
    case Ok((frameCount, frameInfos)) => MakeAWebpInfo(s.0, s.1, b, frameCount, frameInfos)
  }

  /**
   * ParseAWebpInfo: a dump that says it has no features is not animated;
   * otherwise the canvas size, the background colour and the frame table are
   * parsed in that order, the first failure or panic ending the parse.
   */
  function ParseAWebpInfo(info: string): (r: Outcome<AWebpInfo>)
    ensures Contains(info, NOT_ANIMATED_MARK) ==> r == Fail(MakeParsingError(NOT_ANIMATED, info))
    ensures r.Ok? ==> |r.value.frameInfos| == r.value.frameCount
    ensures r.Fail? ==> r.error.subError == None
  {
    if Contains(info, NOT_ANIMATED_MARK) then Fail(MakeParsingError(NOT_ANIMATED, info))
    else Assemble(ParseAWebpInfoCanvasSize(info), ParseAWebpInfoBackgroundColor(info), FrameTable(ParseAWebpFrameInfo, info))
  }

  /**
   * A successful parse is made of the three stages' results: the size, the
   * background colour (below 2^32), and the frame table.
   */
  lemma ParseAWebpInfoStages(info: string)
    requires ParseAWebpInfo(info).Ok?
    ensures !Contains(info, NOT_ANIMATED_MARK)
    ensures var a := ParseAWebpInfo(info).value;
      ParseAWebpInfoCanvasSize(info) == Ok((a.width, a.height)) &&
      ParseAWebpInfoBackgroundColor(info) == Ok(a.backgroundColor) &&
      FrameTable(ParseAWebpFrameInfo, info) == Ok((a.frameCount, a.frameInfos)) &&
      a.backgroundColor.Value() < U32_LIMIT
  {
  }

  /**
   * Conversely, a dump that does not say it has no features, and whose three
   * stages all succeed, parses to the record made of their results.
   */
  lemma ParseAWebpInfoSucceeds(info: string)
    requires !Contains(info, NOT_ANIMATED_MARK)
    requires ParseAWebpInfoCanvasSize(info).Ok? && ParseAWebpInfoBackgroundColor(info).Ok?
    requires FrameTable(ParseAWebpFrameInfo, info).Ok?
    ensures var size := ParseAWebpInfoCanvasSize(info).value;
      var table := FrameTable(ParseAWebpFrameInfo, info).value;
      ParseAWebpInfo(info) == Ok(AWebpInfo(size.0, size.1, ParseAWebpInfoBackgroundColor(info).value, table.0, table.1))
  {
  }

  /**
   * A failed parse is the first failing stage's failure, and every stage
   * before it succeeded.
   */
  lemma ParseAWebpInfoFirstFailure(info: string)
    requires !Contains(info, NOT_ANIMATED_MARK)
    ensures !ParseAWebpInfoCanvasSize(info).Ok? ==>
      ParseAWebpInfo(info) == ParseAWebpInfoCanvasSize(info).PropagateFailure()
    ensures ParseAWebpInfoCanvasSize(info).Ok? && !ParseAWebpInfoBackgroundColor(info).Ok? ==>
      ParseAWebpInfo(info) == ParseAWebpInfoBackgroundColor(info).PropagateFailure()
    ensures ParseAWebpInfoCanvasSize(info).Ok? && ParseAWebpInfoBackgroundColor(info).Ok? && !FrameTable(ParseAWebpFrameInfo, info).Ok? ==>
      ParseAWebpInfo(info) == FrameTable(ParseAWebpFrameInfo, info).PropagateFailure()
  {
  }

  /** A panic of the frame loop is the panic of one of its lines. */
  lemma ParseFrameLinesPanic<T>(parse: string -> Outcome<T>, lines: seq<string>) returns (k: nat)
    requires ParseFrameLines(parse, lines).Panic?
    ensures k < |lines| && parse(lines[k]) == Panic(ParseFrameLines(parse, lines).fault)
  {
    k :| 0 <= k < |lines| &&
      !FrameLineOutcome(parse, lines[k]).Ok? &&
      ParseFrameLines(parse, lines) == FrameLineOutcome(parse, lines[k]).PropagateFailure() &&
      forall j | 0 <= j < k :: parse(lines[j]).Ok?;
  }

  /** The frame table panics only by a missing count line, a short dump, a short frame line, or frame number 0. */
  lemma FrameTablePanics(info: string)
    requires FrameTable(ParseAWebpFrameInfo, info).Panic?
    ensures var f := FrameTable(ParseAWebpFrameInfo, info).fault;
      f.IndexOutOfRange? || f.SliceOutOfRange? || f == ZeroFrameNumber
  {
    var lines := Split(info, '\n');
    var found := FindFirst(lines, FrameCountLine);
    if found.Some? {
      var count := DecimalValue(found.value.1);
      if count < U32_LIMIT && 5 + count <= |lines| {
        var frameLines := lines[5..5 + count];
        if ParseFrameLines(ParseAWebpFrameInfo, frameLines).Panic? {
          var k := ParseFrameLinesPanic(ParseAWebpFrameInfo, frameLines);
          FrameInfoPanicIndex(frameLines[k]);
        }
      }
    }
  }

  /** The missing-match panic comes only from a missing count line, never from a frame line. */
  lemma FrameTableNoMatch(info: string)
    ensures FrameTable(ParseAWebpFrameInfo, info) == Panic(NO_MATCH) <==>
      FindFirst(Split(info, '\n'), FrameCountLine).None?
  {
    var lines := Split(info, '\n');
    var found := FindFirst(lines, FrameCountLine);
    if found.Some? {
      var count := DecimalValue(found.value.1);
      if count < U32_LIMIT && 5 + count <= |lines| {
        var frameLines := lines[5..5 + count];
        if ParseFrameLines(ParseAWebpFrameInfo, frameLines).Panic? {
          var k := ParseFrameLinesPanic(ParseAWebpFrameInfo, frameLines);
          FrameInfoPanicIndex(frameLines[k]);
        }
      }
    }
  }

  /**
   * The parse panics only on a missing line, a short dump, a short frame line
   * or frame number 0; in particular the frame-count check of MakeAWebpInfo
   * never fires, as the frame table always holds as many frames as it counts.
   */
  lemma ParseAWebpInfoPanics(info: string)
    requires ParseAWebpInfo(info).Panic?
    ensures var f := ParseAWebpInfo(info).fault;
      f.IndexOutOfRange? || f.SliceOutOfRange? || f == ZeroFrameNumber
    ensures !ParseAWebpInfo(info).fault.FrameCountMismatch?
  {
    if ParseAWebpInfoCanvasSize(info).Ok? && ParseAWebpInfoBackgroundColor(info).Ok? {
      FrameTablePanics(info);
    }
  }
}
