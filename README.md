# webpfex in Dafny

webpfex turns an animated WebP into full PNG frames, and from there into an
MP4. It reads the animation's metadata from the text dump that
`webpmux -info` prints. It then rebuilds every frame on one canvas that it
never resets:

1. clear the canvas to the background colour;
2. paste each frame's decoded delta at its offset, either replacing the cells
   or alpha-blending over them;
3. save a snapshot of the whole canvas after every frame.

This project models that core and proves what it promises:

- `Colors` (`canvas/color.go`): a colour is four 16-bit channels packed
  into one 64-bit word, R in the top bits and A in the bottom. It is built
  by shift-and-add and read back by shift-and-mask.
- `Canvases` (`canvas/canvas.go`): the canvas is a class over an array of
  packed words, indexed row-major. `At` and `WriteAt` are bounds-checked,
  x before y. Each of the source's panics is an `OutOfBounds` result. The
  ghost `View()` of a canvas is an `Image` value.
- `Overlay` (`webpfex/overlay.go`): the three nested-loop operators
  `ClearCanvas`, `OverlayCanvas` and `OverlayBlendCanvas`, and the per-cell
  blend `OverlayColor`. Each loop is proved against a function on images
  (`Cleared`, `Composited`). Lemmas about those functions say what ends up
  in which cell.
- `Info` (`webpfex/info.go`): the records `AWebpInfo` and `AWebpFrameInfo`,
  their constructors, `ParsingError` and its message, and the parser of the
  dump.
  - Each regular expression is a predicate for the one line shape it
    accepts.
  - A parse yields `Ok`, a parse failure (`Fail`), or one of the runtime
    panics the code reaches (`Panic`): a missing match indexed anyway, a
    short field list, a slice past the end of the lines, or frame number 0.
  - The frame-table loop is a method proved against a function of the same
    lines.
- `Extract` (`webpfex/io.go`): the compositing loop of
  `ExtractWebpFramesAsPng` is a method whose snapshots are a left fold
  (`Replay`) of the overlay operators over the frames, taken in their
  stored order. Each snapshot gets the file name of its frame. A function
  models the frame-rate arithmetic of `ConvertWebpToMp4`.
- `InfoSamples` (`webpfex/info_test.go`): the lines of the tests' sample
  dump parse to the values the tests expect.
- Supporting modules: `Ints` covers Go's fixed-width arithmetic, including
  uint32/uint64 wrap-around, int64 wrap and truncating division. `Strings`
  and `Strconv` cover the parts of Go's `strings`, `strconv` and `fmt`
  (`%d`, `%09d`, `%q`) that the core uses, each with its inverse or its
  characterising lemma.

Go's integer types are bounded mathematical integers. Where Go wraps,
truncates or shifts bits out, the model writes that out explicitly.

## Model

| member | source | states |
|---|---|---|
| Ints.AddU32 | canvas/canvas.go:44-46 | a uint32 sum is the exact sum, less 2^32 when that sum reaches 2^32 |
| Ints.MulU32 | canvas/canvas.go:11-13 | a uint32 product is the exact product modulo 2^32, and exact when it fits in 32 bits |
| Ints.AddU64 | canvas/color.go:13-23 | a uint64 sum is exact when it fits in 64 bits, and loses exactly 2^64 when it does not |
| Ints.Shl16U64 | canvas/color.go:13-23 | `v << 16` shifts out the top 16 bits: it is (v mod 2^48)·2^16, so v·2^16 when v is below 2^48 |
| Ints.WrapI64 | webpfex/info.go:207 | an int64 product is the exact product when it is in range, and in any case congruent to it modulo 2^64 |
| Ints.Quo | webpfex/io.go:71 | Go's division truncates toward zero: the magnitude is the quotient of the magnitudes, and a non-zero quotient is negative exactly when the operands' signs differ |
| Colors.MakeColor | canvas/color.go:9-11 | `MakeColor(v).Value() == v` for every 64-bit v |
| Colors.Color.Value | canvas/color.go:25-27 | the packed word determines the colour: the colour of that word is the colour itself |
| Colors.Color.Rgba | canvas/color.go:29-47 | the four channels R, G, B, A side by side, R·2^48 + G·2^32 + B·2^16 + A, are the whole packed word |
| Colors.MakeColorRgba | canvas/color.go:13-47 | the packed word is r·2^48 + g·2^32 + b·2^16 + a; `R`, `G`, `B`, `A` give back r, g, b, a; `Rgba()` is that tuple |
| Colors.Pack | canvas/color.go:13-23 | the uint64 shift-and-add sequence neither carries nor shifts bits out, so it equals the four channels side by side |
| Colors.PackChannels | canvas/color.go:29-43 | each shift-and-mask accessor extracts exactly its own channel from the side-by-side word |
| Colors.ChannelsInverse | canvas/color.go:13-43 | repacking a colour's four channels gives the colour back, so the four fields cover all 64 bits |
| Colors.EqualByValue | canvas/color.go:5-7 | two colours are equal exactly when their packed words are |
| Canvases.ToIndex | canvas/canvas.go:44-46 | the index is y·width + x wrapped to 32 bits, as Go's uint32 arithmetic gives it |
| Canvases.ToIndexInRange | canvas/canvas.go:44-46 | when width·height fits in 32 bits, an in-bounds index does not wrap and lies below width·height |
| Canvases.ToIndexInjective | canvas/canvas.go:44-46 | distinct in-bounds coordinates have distinct indexes |
| Canvases.IndexCoordinates | canvas/canvas.go:44-46 | every grid index is the index of one in-bounds coordinate |
| Canvases.Image.At | canvas/canvas.go:23-31 | reading succeeds exactly in bounds; when it fails, the x check fired exactly when x is out of range |
| Canvases.Image.Write | canvas/canvas.go:33-41 | writing succeeds exactly in bounds and otherwise reports the same panic as a read |
| Canvases.Blank | canvas/canvas.go:11-13 | the zeroed grid has the requested size |
| Canvases.BlankPixels | canvas/canvas.go:11-13 | every cell of a new canvas reads as `MakeColor(0)` |
| Canvases.SetPixels | canvas/canvas.go:33-41 | after a write, the written cell reads as the colour written; every other cell and both dimensions are unchanged |
| Canvases.WriteThenAt | canvas/canvas.go:23-41 | read after write through `Write` and `At`: the written colour at the written cell, the old result anywhere else |
| Canvases.ImageExtensionality | canvas/canvas.go:5-9 | two same-sized images that agree on every pixel are equal |
| Canvases.Canvas.constructor | canvas/canvas.go:11-21 | a new canvas has the given width and height and holds the blank image |
| Canvases.Canvas.At | canvas/canvas.go:23-31 | the method returns what `Image.At` of the canvas's view gives, panic included |
| Canvases.Canvas.WriteAt | canvas/canvas.go:33-41 | in bounds, the view becomes `Write`'s image; out of bounds, the panic is reported and nothing changes |
| Overlay.BlendChannel | webpfex/overlay.go:40-43 | alpha 0xFFFF gives the overlay channel, alpha 0 the destination channel, and any alpha a value between the two |
| Overlay.WeightedBounds | webpfex/overlay.go:40-43 | the weighted sum lies between the sums with all weight on either channel |
| Overlay.OverlayColor | webpfex/overlay.go:39-46 | a blended colour always has alpha 0xFFFF; over an opaque overlay it takes the overlay's R, G, B, and under a transparent one it keeps the destination's |
| Overlay.Cleared | webpfex/overlay.go:6-12 | clearing keeps the size |
| Overlay.ClearedPixels | webpfex/overlay.go:6-12 | after clearing, every cell is the clear colour |
| Overlay.Composited | webpfex/overlay.go:15-37 | compositing keeps the destination's size |
| Overlay.CompositedPixels | webpfex/overlay.go:15-37 | cell by cell, the composited image is the overlay's cell (replace), the overlay's cell blended over the old cell (blend), or the old cell outside the overlay |
| Overlay.ReplacedCells | webpfex/overlay.go:15-21 | when the overlay fits, overlay cell (x, y) lands exactly at (x + xOffset, y + yOffset), and every cell outside the overlay is unchanged |
| Overlay.BlendedCells | webpfex/overlay.go:24-37 | when the overlay fits, each covered cell becomes `OverlayColor(old cell, overlay cell)`, and every cell outside is unchanged |
| Overlay.PasteStep | webpfex/overlay.go:16-35 | one loop iteration: the target cell is in bounds and still has its starting colour, and writing its composited colour extends the loop invariant by one cell |
| Overlay.NextRow | webpfex/overlay.go:16-20 | a finished overlay row is the start of the next |
| Overlay.PastedAll | webpfex/overlay.go:15-37 | after the last row, the canvas is the composited image |
| Overlay.ClearCanvas | webpfex/overlay.go:6-12 | the canvas afterwards is the cleared image of its old contents |
| Overlay.ReplaceCellAt | webpfex/overlay.go:18 | the destination cell at the offset becomes the overlay cell, and nothing else changes |
| Overlay.BlendCellAt | webpfex/overlay.go:27-34 | the destination cell at the offset becomes `OverlayColor` of its old colour and the overlay cell, and nothing else changes |
| Overlay.OverlayCanvas | webpfex/overlay.go:15-21 | for a distinct overlay canvas that fits, the canvas becomes `Composited(old, overlay, …, replace)`; the overlay is only read |
| Overlay.OverlayBlendCanvas | webpfex/overlay.go:24-37 | for a distinct overlay canvas that fits, the canvas becomes `Composited(old, overlay, …, blend)`; the overlay is only read |
| Strings.ContainsIff | webpfex/info.go:42 | `Contains` answers yes exactly when the pattern occurs at some index |
| Strings.Split | webpfex/info.go:103 | a split has at least one piece, and no piece holds the separator |
| Strings.JoinSplit | webpfex/info.go:103 | joining the pieces of a split with the separator gives the string back |
| Strings.SplitJoin | webpfex/info.go:103 | splitting a join of separator-free pieces gives the pieces back |
| Strings.SplitNone | webpfex/info.go:103 | a string without the separator is one piece |
| Strings.SplitFirst | webpfex/info.go:103 | a separator-free prefix before a separator is the first piece |
| Strings.WordLength | webpfex/info.go:168 | the length of the longest prefix without white space, maximal |
| Strings.Fields | webpfex/info.go:168 | every field is non-empty and free of white space |
| Strings.FieldsSkipSpace | webpfex/info.go:168 | leading white space adds no field |
| Strings.FieldsWord | webpfex/info.go:168 | a word followed by a run of white space (empty only at the end of the string) is the first field, and the rest gives the other fields |
| Strings.WordLengthOf | webpfex/info.go:168 | a word ended by white space or by the end of the string is measured whole |
| Strings.FieldsSpaced | webpfex/info.go:168 | words separated by non-empty runs of any white space, with any run after the last, have exactly those words as their fields |
| Strings.DigitRunLength | webpfex/info.go:170 | the longest all-digit prefix, ended by a non-digit or by the end of the string |
| Strings.FirstDigitIndex | webpfex/info.go:170 | the index of the first digit, with no digit before it |
| Strings.FirstDigitRun | webpfex/info.go:170 | what `\d+` finds: the leftmost maximal digit run, and empty exactly when there is no digit |
| Strings.FirstDigitRunOfPrefix | webpfex/info.go:170 | a leading digit run ended by a non-digit is the run found |
| Strings.DigitRunOfPrefix | webpfex/info.go:170 | a leading digit run is measured whole |
| Strconv.DigitValue | webpfex/info.go:72 | a decimal digit's value is below 10 |
| Strconv.ParseUint32 | webpfex/info.go:72-79 | succeeds exactly on a non-empty digit string whose value fits in 32 bits, and gives that value |
| Strconv.ParseInt64 | webpfex/info.go:203 | on a digit string, succeeds exactly when the value fits in int64, and gives that value |
| Strconv.DigitChar | webpfex/io.go:44 | the digit character of a value below 10 reads back as that value |
| Strconv.FormatDecimal | webpfex/io.go:44 | `%d` of a natural is a non-empty digit string whose value is the number |
| Strconv.ParseFormatUint32 | webpfex/info.go:175-201 | parsing gives back every formatted uint32 |
| Strconv.ParseFormatInt64 | webpfex/info.go:203 | parsing gives back every formatted int64 |
| Strconv.ZeroPad | webpfex/io.go:44 | zero padding gives exactly the padded width, or the numeral's own length when that is longer |
| Strconv.ZeroPadShape | webpfex/io.go:44 | the padded numeral ends with the numeral, and the padding is zeros only |
| Strconv.ZeroPadValue | webpfex/io.go:44 | zero padding keeps a numeral a digit string of the same value |
| Strconv.LeadingZeros | webpfex/io.go:44 | leading zeros do not change a numeral's value |
| Strconv.ZerosValue | webpfex/io.go:44 | a string of zeros has value 0 |
| Strconv.HexDigitValue | webpfex/info.go:119-130 | a hexadecimal digit's value is below 16 |
| Strconv.HexValueBound | webpfex/info.go:119-130 | n hexadecimal digits hold a value below 16^n |
| Strconv.EightHexDigits | webpfex/info.go:85 | eight hexadecimal digits hold a value below 2^32 |
| Strconv.LowerHexDigit | webpfex/info.go:240-246 | the lower-case digit of a value below 16 reads back as that value |
| Strconv.Quote | webpfex/info.go:240-246 | `%q` output starts and ends with a double quote |
| Strconv.UnescapeChar | webpfex/info.go:240-246 | one escaped character followed by escaped text reads back as that character followed by that text |
| Strconv.UnescapeLiteral | webpfex/info.go:240-246 | a character other than a backslash reads as itself |
| Strconv.UnescapeBackslash | webpfex/info.go:240-246 | a backslash-letter escape reads as the character it stands for |
| Strconv.UnescapeHex | webpfex/info.go:240-246 | a `\x` escape of an ASCII character reads back as that character |
| Strconv.UnescapeEscape | webpfex/info.go:240-246 | unescaping the escaped text gives the string back |
| Strconv.QuoteRoundTrip | webpfex/info.go:240-246 | `%q` loses nothing: unquoting gives the input back |
| Strconv.EscapeOneLine | webpfex/info.go:240-246 | escaped text holds no line feed |
| Strconv.QuoteOneLine | webpfex/info.go:240-246 | a quoted string holds no line feed |
| Info.MakeParsingError | webpfex/info.go:235-238 | the error has the given reason and input, and no cause |
| Info.ParsingError.Heading | webpfex/info.go:242-244 | the message's first line is `ParsingError: reason: ` followed by the input quoted so that it reads back as the input; it has no line feed when the reason has none |
| Info.ParsingError.Error | webpfex/info.go:240-246 | the message starts with the heading, and is the heading alone exactly when there is no cause |
| Info.ErrorFirstLine | webpfex/info.go:240-246 | for a one-line reason, the first line of a message is the heading, and with no cause the message is that one line |
| Info.Require | webpfex/info.go:72-79 | a parsed value goes through; a failed parse becomes a `ParsingError` with the given reason and input |
| Info.MakeAWebpFrameInfo | webpfex/info.go:143-165 | the record, exactly when the number is not 0; frame number 0 panics |
| Info.MakeAWebpInfo | webpfex/info.go:21-39 | the record, exactly when the count equals the number of frames taken as a uint32; otherwise the mismatch panic |
| Info.FindFirst | webpfex/info.go:69-70 | the first line that matches, with its index, no line before it matching; or no match at all |
| Info.CanvasSizeLine | webpfex/info.go:69 | a recognised line is exactly `Canvas size: W x H` with two digit strings |
| Info.CanvasSizeLineComplete | webpfex/info.go:69 | every line of that shape is recognised, with its two numerals |
| Info.ParseAWebpInfoCanvasSize | webpfex/info.go:68-82 | the numerals of the first size line; the panic exactly when no line matches; success exactly when both numerals are below 2^32; the width failure exactly when the width numeral is 2^32 or more (checked first), the height failure otherwise; failures report the whole dump |
| Info.SkipRegexSpace | webpfex/info.go:85 | the end of the maximal `\s` run from an index |
| Info.BackgroundAt | webpfex/info.go:85 | a match at a line start gives a ten-character `0x` literal of upper-case hexadecimal digits |
| Info.FindBackground | webpfex/info.go:85-86 | the leftmost match, with no match before it; none exactly when no index matches |
| Info.ParseHexColor | webpfex/info.go:119-130 | never a parse failure; `Ok(None)` (not a colour) exactly when the text is not a `0x`/`0X` hexadecimal literal; the too-big panic exactly when the literal's value is 2^64 or more; otherwise the colour of that value |
| Info.BackgroundLiteral | webpfex/info.go:84-93 | a matched literal is below 2^32, and parseHexColor gives its colour |
| Info.ParseAWebpInfoBackgroundColor | webpfex/info.go:84-93 | never a parse failure; the panic exactly when nothing matches; otherwise the colour of the eight hexadecimal digits of the first match, below 2^32 |
| Info.FrameCountLine | webpfex/info.go:96-97 | a recognised line starts `Number of frames: ` and then the whole digit run |
| Info.YesNo | webpfex/info.go:185-192 | `yes` is true and `no` is false, each exactly |
| Info.Field | webpfex/info.go:168-210 | `fields[k]`, or the index panic past the end |
| Info.ParseAWebpFrameInfo | webpfex/info.go:167-227 | field mapping on success; a failure reports the whole line except the blend failure, which reports field 8; failures have no cause; panics are frame number 0 or a missing field |
| Info.FrameInfoMissingField | webpfex/info.go:168-216 | fields are read in the order 0, 1, 2, 3, 4, 5, 6, 8; when every field before the i-th read parses and the i-th is past the end, the result is the index panic for that field and the field count |
| Info.FrameInfoBadField | webpfex/info.go:170-216 | when every field before the i-th read parses and the i-th is present but malformed, the result is the failure with that field's own reason (number, width, height, alpha, x offset, y offset, duration, blend), reporting the line, or field 8 for the blend |
| Info.FrameInfoAllFields | webpfex/info.go:170-226 | when every field read parses, the line gives a frame exactly when the frame number is not 0, and otherwise panics with frame number 0 |
| Info.FrameInfoPanicIndex | webpfex/info.go:168-226 | a frame line panics only on frame number 0, or on the first missing field, whose index is the field count (or 8 when there are exactly seven fields) |
| Info.FrameLineHead | webpfex/info.go:167-227 | a frame line as written has nine leading fields |
| Info.HeadWords | webpfex/info.go:168 | each of the nine written fields is a white-space-free word |
| Info.ConcatIsWord | webpfex/info.go:168 | two words side by side are a word |
| Info.YesNoIsWord | webpfex/info.go:168 | `yes` and `no` are words |
| Info.NumeralIsWord | webpfex/info.go:168 | a numeral is a word |
| Info.FormatIntIsWord | webpfex/info.go:168 | a signed numeral is a word |
| Info.FrameLineRoundTrip | webpfex/info.go:167-227 | any frame line as `webpmux` writes it, with any leading white space and column-aligned (any non-empty runs of white space between the columns and any after the last), with any trailing columns, parses back into its frame |
| Info.FrameLineFieldsSplit | webpfex/info.go:168 | the fields of a written, column-aligned frame line are the columns written |
| Info.WordsAppend | webpfex/info.go:168 | words followed by words are words |
| Info.ParseFrameLineFields | webpfex/info.go:167-227 | the written fields parse back into the frame |
| Info.FrameLineOutcome | webpfex/info.go:108-111 | a line's failure becomes "Failed parsing frame info" for the whole line, with no cause; a success or panic goes through |
| Info.ParseFrameLines | webpfex/info.go:106-114 | on success, one frame per line, each that line's parse; otherwise the outcome of the first line that does not parse, every line before it parsing |
| Info.FrameTable | webpfex/info.go:95-117 | the missing-match panic when no count line matches; the frame-count failure, reporting the dump, exactly when the count numeral is 2^32 or more; the slice panic exactly when 5 + count passes the number of lines; otherwise the frames of lines 5 to 5 + count, or the outcome of the first of those lines that does not parse; on success as many frames as the count |
| Info.FramesAfterCount | webpfex/info.go:98-116 | from the count numeral on: the same failure, slice panic and frame-loop outcome as the frame table |
| Info.ParseFrameLinesStops | webpfex/info.go:107-111 | once a prefix of the lines stops the loop, the whole loop ends with that outcome |
| Info.ParseFrameLoop | webpfex/info.go:106-114 | the loop's result is `ParseFrameLines` of its lines |
| Info.ParseAWebpInfoFrames | webpfex/info.go:95-117 | the method's result is `FrameTable` of the dump |
| Info.Assemble | webpfex/info.go:46-65 | the record exactly when all three stages succeed; otherwise the first failing stage's failure or panic |
| Info.ParseAWebpInfo | webpfex/info.go:41-66 | a dump holding `No features present.` is "Not an animated WEBP"; a record has as many frames as it counts; a failure has no cause |
| Info.ParseAWebpInfoStages | webpfex/info.go:41-66 | a successful parse is made of the three stages' results, with the background below 2^32 |
| Info.ParseAWebpInfoSucceeds | webpfex/info.go:41-66 | conversely, a dump without `No features present.` whose three stages all succeed parses to the record of those stages' results |
| Info.ParseAWebpInfoFirstFailure | webpfex/info.go:46-57 | a failed parse is the first failing stage's outcome |
| Info.ParseFrameLinesPanic | webpfex/info.go:107-111 | a panic of the frame loop is one line's panic |
| Info.FrameTablePanics | webpfex/info.go:95-117 | the frame table panics only on a missing count line, a short dump, a missing field of a frame line or frame number 0 |
| Info.FrameTableNoMatch | webpfex/info.go:96-110 | the frame table gives the missing-match panic exactly when no count line matches |
| Info.ParseAWebpInfoPanics | webpfex/info.go:41-66 | the parse panics only on a missing line, a short dump, a short frame line or frame number 0; never by the frame-count check of MakeAWebpInfo |
| InfoSamples.SampleCanvasSize | webpfex/info_test.go:9-38 | the sample's canvas-size line gives a 640 × 640 canvas |
| InfoSamples.SampleBackground | webpfex/info_test.go:11-51 | the sample's background line gives `MakeColor(0xFFFFFFFF)` |
| InfoSamples.SampleFrame1 | webpfex/info_test.go:14-58 | the sample's first frame line gives frame 1: 640 × 640, no alpha, at (0, 0), 40 ms, no blending |
| InfoSamples.SampleFrame2 | webpfex/info_test.go:15-60 | the second gives frame 2: 640 × 577, alpha, at (0, 28), 40 ms, blending |
| InfoSamples.SampleFrame3 | webpfex/info_test.go:16-62 | the third gives frame 3: 640 × 574, alpha, at (0, 28), 80 ms, blending |
| InfoSamples.SampleLine | webpfex/info_test.go:14-16 | a line indented by two spaces, whose columns are a frame's columns as written, parses back into that frame |
| Extract.Replay | webpfex/io.go:29-43 | the canvas after k frames is an image of the dump's size |
| Extract.Replays | webpfex/io.go:29-49 | one snapshot per frame |
| Extract.ReplaysAt | webpfex/io.go:29-49 | snapshot j is the canvas after frames 0 to j, which is not reset between frames |
| Extract.Names | webpfex/io.go:44 | one name per frame |
| Extract.NamesAt | webpfex/io.go:44 | name j is frame j's |
| Extract.ReplayUncovered | webpfex/io.go:29-43 | a cell that no frame so far covers still has the background colour |
| Extract.ReplayReplaced | webpfex/io.go:38-42 | a cell that the latest frame covers without blending shows that frame's delta |
| Extract.ReplayBlendedOpaque | webpfex/io.go:38-39 | a cell that the latest frame blends over is opaque |
| Extract.LoadFrame | webpfex/io.go:33 | a decoded frame becomes a fresh canvas holding exactly that image |
| Extract.SnapshotName | webpfex/io.go:44 | a name has at least 13 characters and ends in `.png` |
| Extract.SnapshotNameLength | webpfex/io.go:44 | below frame 10^9 a name has exactly 13 characters |
| Extract.FormatDecimalLength | webpfex/io.go:44 | a number below 10^k has at most k digits |
| Extract.SnapshotNameDigits | webpfex/io.go:44 | the digits of a name read back as the frame number |
| Extract.SnapshotNameInjective | webpfex/io.go:44 | distinct frame numbers get distinct file names |
| Extract.PasteFrame | webpfex/io.go:33-42 | the canvas becomes the frame's delta composited at its offset, blended exactly when the frame says so |
| Extract.ExtractFrames | webpfex/io.go:29-49 | the snapshots are `Replays` of all the frames in stored order, starting from the background-cleared canvas; the names are the frames' names in that order |
| Extract.FrameRate | webpfex/io.go:70-71 | no frames is the index panic; with frames, the division by zero happens exactly when the first duration is under one millisecond in magnitude |
| Extract.FrameRatePositive | webpfex/io.go:70-71 | for a first frame of at least a millisecond, the rate is the number of whole frame durations that fit in one second |
| Extract.FrameRateOfFortyMilliseconds | webpfex/io.go:70-71 | a 40 ms frame gives 25 frames per second |

## Left out

- BlendChannel: the source computes the blend weights in float64 and truncates the sum. The model uses the exact rational weighted sum, floored. Both give exactly the same channel at alpha 0 and 0xFFFF. The model also proves that the result lies between the two channels. For other alphas, a float64 rounding error may make the source's channel differ from the model's in the last unit.
- Bit operations: shifts and masks are divisions and remainders by powers of two, which agree with Go's operators on unsigned words.
- Canvases.Canvas.constructor: requires width·height below 2^32. Above that, Go's `width*height` wraps, so the grid is shorter than the index range.
- `Width` and `Height`: modelled as the constant fields `width` and `height`. The source has no setter, so reading a constant is what the accessor does.
- Overlay.OverlayCanvas, Overlay.OverlayBlendCanvas: require the overlay to be a different canvas from the destination. Aliasing of the two is not modelled.
- Overlay.OverlayCanvas, Overlay.OverlayBlendCanvas, Extract.ExtractFrames: require every overlay to fit inside the destination. An overlay that does not fit makes the source panic partway through, after some cells are written; that partial write is not modelled.
- The two cell bodies of the overlay loops are factored into `ReplaceCellAt` and `BlendCellAt`. The frame-line loop of parseAWebpInfoFrames is factored into `ParseFrameLoop`.
- Info.ParseAWebpInfo: evaluates the three stage parsers as values and combines them with `Assemble`. The stages are pure, so this gives what running them in order and stopping at the first error gives.
- Info.ParseHexColor: models `big.Int.SetString(s, 0)` only for a prefix `0x` or `0X` followed by hexadecimal digits. The background pattern gives it only such literals. Signs, underscores and the other bases are not modelled.
- `%q` (Strconv.Quote): escapes ASCII as Go does. Non-ASCII characters are written as they are, although Go writes non-printable ones as `\u` escapes. Unicode printability is not modelled.
- Strconv.ParseInt64: its contract states the result for unsigned digit strings only. For a signed numeral, only the round trip of `ParseFormatInt64` is proved, since the frame table's durations are written without a sign.
- Regular expressions: each pattern is a predicate for its own shape, not a regex engine. `\d` is ASCII digits and `\s` is Go's `[\t\n\f\r ]`.
- Go slices: slice capacity is not modelled. `lines[5:5+frameCount]` panics when the slice passes the number of lines.
- External processes and files are the caller's side: `webpmux` and `ffmpeg`, `os.Mkdir` and the temporary directory, and `main.go`.
- `LoadAWebpFrame` is represented by the decoded deltas, given as images. `SavePng` is represented by the returned snapshots and their file names. The `image` adapters of `webpfex/canvas_image.go` are not part of this model.
- Errors from loading or saving a frame make the source panic. They are outside the model because loading and saving are.
- Extract.SnapshotNameLength: the model proves that names are unique and, below frame 10^9, all the same length. It does not prove the lexicographic order that the MP4 step's file glob relies on.
- Frame numbers are not checked against their positions in the table, and the model does not check them either.
- Tests: `InfoSamples` takes the sample dump of `webpfex/info_test.go` one line at a time: the canvas-size line, the background line and the first three frame lines, each parsed by its own stage. The whole dump is not parsed as one string, so the frame count 8 and the lines of frames 4 to 8 are not checked. The frame lines are written as their columns and the runs of spaces between them.
- Colors.Color.R, Colors.Color.G, Colors.Color.B, Colors.Color.A: state their channels only through `Rgba`, `MakeColorRgba` and `ChannelsInverse`, not in a contract of their own.
