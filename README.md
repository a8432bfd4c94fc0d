# pydis-pixels, modelled in Dafny

pydis-pixels keeps images ("zones") painted on a shared pixel canvas. It
reads the canvas through a small HTTP API (`get_pixels`, `get_pixel`,
`set_pixel`). It compares each zone's template with the canvas and rewrites
the cells that differ. The repository holds two generations of the
program: the synchronous `main.py` and the asyncio package `pixels/`. It
also has helpers around them:

- two noise removers;
- three scripts that turn text into colours and images;
- an animated-template manager.

This project models that core and proves properties of it:

| file | module | what it models |
|---|---|---|
| wrappers.dfy | Wrappers | `Option` and `Result` |
| hex_codec.dfy | HexCodec | main.py's colour strings: `three_ints_to_rgb_hex_string`, `three_bytes_to_rgb_hex_string`, and reading them back |
| padding.dfy | Padding | `ljust` and `rjust` of `str` and `bytes` |
| decimal.dfy | Decimal | `str(int)` and `int(str)`, with CPython's handling of whitespace, underscores and non-ASCII digits |
| path_names.dfy | PathNames | `Path.name`, `Path.stem` and `Path.suffix` |
| images.dfy | Images | PIL images as width, height and flat pixel data; Python slicing and floor division |
| canvas_model.dfy | CanvasModel | the cached canvas grid and the trace of API calls |
| reconcile.dfy | Reconcile | one reconciliation pass, shared by both generations (see below) |
| main_api.dfy | MainApi | main.py's `ratelimit` and the decode loop of `get_pixels` |
| main_zone.dfy | MainZone | main.py's `Zone` (file-name regex, `img_to_lists`, `scale_img`, transparency count) and `load_zones` |
| main_reconciler.dfy | MainReconciler | main.py's `run_for_img` on a mutable canvas array |
| pixels_util.dfy | PixelsUtil | pixels/util.py: `rgb_to_hex`, `bytes_to_image`, `scale_image` |
| pixels_zone.dfy | PixelsZone | pixels/zone.py: `image_to_list`, `Zone`, `load_zones` |
| pixels_reconciler.dfy | PixelsReconciler | pixels/__init__.py: `run_for_zone` and one pass of `run_protections` |
| denoise.dfy | Denoise | noise_manipulation.py and pixels/noise_manipulation.py |
| utf8.dfy | Utf8 | `str.encode('utf-8')` |
| text_colours.dfy | TextColours | text2rgb.py, pixels/text2rgb.py and text_to_rgb.py |
| template_manager.dfy | TemplateManager | template_manager.py's frame selection and template registry |

**Reconciliation.** `run_for_img` and `run_for_zone` do the same thing with
different details, so module Reconcile defines one pure specification with a
`Version` parameter:

- **Legacy** (main.py) re-reads a cell on every second column once the row
  has had a mismatch. It re-reads before it looks at transparency.
- **Async** (pixels/__init__.py) re-reads on every column (`x_index % 1 == 0`).
  It skips a transparent cell before anything else. As written, the re-read
  colour is stored with `canvas.putpixel((x, y), list(pix_status))`. There
  `pix_status` is the hex string `get_pixel` returns, and PIL raises on a
  list of characters. So every Async re-read ends the zone right after its
  `get_pixel` (see Findings).
- **AsyncCorrected** is the Async loop with a re-read that stores the
  colour, as evidently intended.

PixelsReconciler runs either build of pixels/__init__.py:

- `AsWritten`: RGBA template cells and the raising re-read;
- `Corrected`: alpha-0 cells transparent, RGB comparisons, and the stored
  re-read.

The canvas cache is an `array2`, updated in place as the source updates its
list of lists or its PIL image. Network calls are recorded as a trace of
`GetPixels`, `GetPixel(x, y)` and `SetPixel(x, y, colour)` events. The answer
to a `get_pixel` comes from an oracle, indexed by the position in the trace.

Proved about the specification:

- When the re-read stores its answer, a pass against an unchanging canvas
  writes exactly the mismatching opaque cells, in row-major order.
- A second pass after those writes makes no call at all.
- Every call stays inside the zone.
- AsyncCorrected raises exactly when an opaque cell is off the cached
  canvas.
- The Async loop as written raises exactly when a row has an opaque cell
  off the cache, or an opaque cell after its first mismatch.

The two methods are proved equal to the specification.

**Noise removal.** Both `remove_noise` versions sweep the image row by row.
Each one counts a pixel's eight neighbours and repaints the pixel when the
most frequent neighbour reaches the threshold. They differ in what happens
at the edges:

- In main.py's list of lists (`Wrap`), index −1 wraps around.
- On a PIL image (`Strict`), a negative coordinate raises.

The sweep is proved to leave every non-interior pixel unchanged and to call
`set_pixel` only for interior pixels. In main.py's version those calls are
requests. In pixels/noise_manipulation.py, `api.set_pixel` is a coroutine
function called without `await`, so its calls send nothing. The docstring
says a pixel is changed only when it "is not that colour". The code has no
such test: `Denoise.UniformStep` shows that a pixel already of the winning
colour is still written and still passed to `set_pixel`.

**Text to colours.** Proved about the three scripts:

- The text's UTF-8 bytes are padded to whole pixels.
- Each three-byte chunk becomes one colour.
- Reading the colours back gives the bytes, and decoding those gives the text.
- The image file names split into the expected stem and suffix.
- The name pixels/text2rgb.py writes, `…,Sx,(,).png`, matches main.py's
  file-name regex but cannot be loaded there, because `int('')` fails.

**Templates.** `get_current_frame_index` is a method on a `Template` class.
Its elapsed time is a parameter, and its result is tied to a pure `Tick`
function. The registry is a class with a `map` field.

**Where the code and its description differ:**

- The code of `remove_noise` does not check the pixel's current colour (above).
- main.py's `get_pixels` decodes `range(height + 1)` rows and `range(width + 1)`
  columns. This gives one row and one column more than the canvas has:
  - `MainApi.ExtraColumn` shows that the extra column repeats the next
    row's first pixel;
  - `MainApi.ExtraRow` shows that the extra row is empty strings.
  The model keeps this behaviour.
- text2rgb.py and pixels/text2rgb.py import `rgb_to_hex` from `pixels`, and
  pixels/zone.py imports `scale_image` from `.`. Neither name is exported by
  pixels/__init__.py. The model uses the functions of pixels/util.py, which
  is evidently what was meant.
- pixels/noise_manipulation.py:4 reads `import api`, an absolute import
  that finds pixels/api.py only when pixels/ itself is on the module path.
  The model takes it to mean the package's api module.

## Model

| member | source | states |
|---|---|---|
| HexCodec.HexDigits | main.py:72-73 | `hex(n)[2:]` is lowercase hex, one digit exactly below 16, two digits for 16..255, and ends with the digit of n mod 16 |
| Padding.RJust | main.py:73 | `rjust` pads to the width and never truncates |
| Padding.RJustShape | main.py:73 | the padding is all fill characters on the left, and the string itself is kept as the suffix |
| Padding.LJust | text2rgb.py:48 | `ljust` keeps the sequence as a prefix and fills up to the width, never truncating; used for `bytes.ljust` and for `str.ljust` at pixels/__init__.py:97 |
| HexCodec.IntToHex2 | main.py:72-73 | a channel becomes at least two lowercase hex digits |
| HexCodec.IntToHex2OfByte | main.py:72-73 | a channel in 0..255 becomes exactly its high and low hex digit |
| HexCodec.ThreeIntsToRgbHexString | main.py:70-76 | the joined string is lowercase hex, two characters per channel when all channels are bytes |
| HexCodec.HexConcat | main.py:72-74 | channels are converted one by one and joined in input order |
| HexCodec.HexOfThree | main.py:70-76 | three channels give the concatenation of their three fields |
| HexCodec.ThreeBytesToRgbHexString | main.py:79-82 | bytes give twice as many lowercase hex characters |
| HexCodec.ThreeBytesGiveSixChars | main.py:79-82 | three bytes give exactly the six digits high/low of r, g, b |
| HexCodec.DigitValue | main.py:72-73 | a lowercase hex digit reads back as the value HexDigit wrote, any other character fails |
| HexCodec.ParseHexPairs | main.py:79-82 | a colour string that parses gives one value per pair of characters, each below 256 |
| HexCodec.HexRoundTrip | main.py:79-82 | parsing the colour string pair by pair gives the bytes back |
| HexCodec.BytesHexCons | main.py:79-82 | the colour string of a byte sequence is the first byte's two characters followed by the colour string of the rest |
| HexCodec.ParseFieldCons | main.py:72-73 | a byte's two characters in front of any text parse as that byte, followed by whatever the text parses as |
| Decimal.NatToString | main.py:126 | `str(n)` of a natural number is a non-empty run of digits |
| Decimal.IntToString | pixels/text2rgb.py:67 | `str(n)` is the digits, behind a minus sign exactly when n is negative |
| Decimal.WideDigit | main.py:147-151 | a non-ASCII decimal digit stands for a digit below 10 |
| Decimal.ToAsciiChar | main.py:147-151 | what `int` reads a character as is ASCII: wide spaces become blanks, wide digits their ASCII digit, other non-ASCII characters fail |
| Decimal.ToAscii | main.py:147-151 | the text made ASCII has the text's length |
| Decimal.AsciiPointwise | main.py:147-151 | the text is made ASCII exactly when each character is, and character i becomes the stand-in of character i |
| Decimal.AsciiUnchanged | main.py:147-151 | ASCII text is left as it is |
| Decimal.AsciiAppend | main.py:147-151 | making text ASCII distributes over concatenation |
| Decimal.TrimStart | main.py:147-151 | leading ASCII whitespace removed: the result starts with no whitespace |
| Decimal.TrimEnd | main.py:147-151 | trailing ASCII whitespace removed: the result ends with no whitespace |
| Decimal.Strip | main.py:147-151 | stripping never lengthens the text |
| Decimal.Unscore | main.py:147-151 | removing underscores leaves plain digits as they are |
| Decimal.GroupedDigits | main.py:147-151 | underscore-grouped digits lose their underscores and keep at least one digit |
| Decimal.DigitsGrouped | main.py:147-151 | plain digits are grouped digits |
| Decimal.DigitsUnchanged | main.py:147-151 | plain digits pass the steps before the reading unchanged |
| Decimal.ParseInt | main.py:147-151 | `int(s)` of a non-empty run of digits is its decimal value; a text that reads has at least one character; None exactly where CPython raises ValueError |
| Decimal.ReadStripped | main.py:147-151 | an optional sign and grouped digits; plain digits read as their value |
| Decimal.ReadAsIs | main.py:147-151 | ASCII text without whitespace at either end is read as it stands |
| Decimal.SpacesIgnored | main.py:200 | ASCII whitespace around any text does not change what `int` reads |
| Decimal.UnderscoreIgnored | main.py:147-151 | one underscore between two runs of digits is ignored: `int("1_000") == int("1000") == 1000` |
| Decimal.WideDigitsRead | pixels/text2rgb.py:46-49 | `int` reads text as it reads its ASCII stand-ins |
| Decimal.ArabicIndicThirty | pixels/text2rgb.py:46-49 | the Arabic-Indic digits three and zero read as "30" does |
| Decimal.NegativeRead | pixels/text2rgb.py:47 | a minus sign before plain digits reads as the negated value |
| Decimal.NatRoundTrip | main.py:147-151 | the digits `str` writes read back as the number |
| Decimal.IntRoundTrip | pixels/text2rgb.py:47 | `int(str(n)) == n` for every integer n |
| PathNames.LastDot | main.py:144 | the position of the last dot of a name, or None |
| PathNames.Suffix | pixels/zone.py:78 | `Path.suffix` is empty or starts with the last dot |
| PathNames.Stem | main.py:144 | `Path.stem` is the name before the suffix |
| PathNames.StemSuffix | main.py:144 | stem and suffix put together give the name back |
| PathNames.StemOfExtension | main.py:144 | a non-empty stem plus a dotless extension is split back into exactly those parts |
| PathNames.Name | pixels/zone.py:77-78 | `Path.name` of an iterated entry is never longer than its path (its shape is stated by NameShape) |
| PathNames.NameShape | pixels/zone.py:77-78 | `Path.name` is the end of the path after its last '/', holds no '/', and is the whole path when there is no '/' |
| PathNames.NameOfJoin | pixels/zone.py:77-78 | the name of `directory / name` is `name`, whatever the directory holds |
| Images.PySlice | main.py:99 | `s[i:j]` is at most j-i items and the exact slice when j is within the sequence |
| Images.Grid | pixels/zone.py:16-23 | h rows, row i being the slice of the data from i*w to i*w+w |
| Images.GridCells | main.py:96-99 | with w*h items, every row has w cells and cell (x, y) is item y*w + x |
| Images.FloorDiv | main.py:107-108 | `a // b` is the floor of the quotient for either sign of b |
| CanvasModel.Put | main.py:300 | overwriting one cached cell changes that cell and no other, and keeps the shape |
| CanvasModel.PutSame | main.py:300 | writing a cell's own value back leaves the grid unchanged |
| CanvasModel.Cells | main.py:284 | the grid of an array holds the array's cells at the same positions |
| CanvasModel.CellsAre | main.py:284 | a grid with an array's shape and cells is that array's grid |
| CanvasModel.Writes | main.py:310 | the `set_pixel` calls of a trace, in order |
| CanvasModel.WritesAppend | main.py:310 | the writes of two traces one after the other are their writes one after the other |
| CanvasModel.Apply | main.py:213-227 | the remote canvas after a trace's writes keeps its shape |
| CanvasModel.ApplyCell | main.py:213-227 | a cell ends with c when every write to it carries c and it was c or was written |
| MainApi.HeaderInt | main.py:200 | `int(headers[key])` fails with KeyError exactly when the key is absent, else gives what `int` gives, surrounding whitespace, underscores and non-ASCII digits included |
| MainApi.SleepFor | main.py:205 | `time.sleep` accepts exactly the non-negative lengths |
| MainApi.Ratelimit | main.py:197-210 | every outcome is fixed by the headers: no sleep exactly when `requests-remaining` reads as a non-zero count; when it reads 0, a sleep of `requests-reset` seconds, KeyError exactly when `requests-reset` is missing, ValueError when it does not read as an `int` or is negative; without `requests-remaining`, the same three outcomes for `cooldown-reset`; an unreadable `requests-remaining` is a ValueError |
| MainApi.DecodeCanvas | main.py:244-253 | the decoded canvas has height+1 rows of width+1 cells, cell (x, y) being the colour of the bytes at `3*(y*width + x)` |
| MainApi.DecodeRow | main.py:246-251 | one row of width+1 decoded cells, in column order |
| MainApi.CanvasCellInside | main.py:248-250 | on the canvas proper, a cell is the six-digit colour of its own three bytes |
| MainApi.ExtraColumn | main.py:245-248 | the extra column x = width repeats the first cell of the next row |
| MainApi.ExtraRow | main.py:245-249 | when the body holds exactly the canvas, the extra row y = height is empty strings |
| MainZone.DigitEnd | main.py:126 | the end of the maximal run of digits from i |
| MainZone.DigitEndIs | main.py:126 | any position that ends a run of digits from i is that run's end |
| MainZone.FirstNewline | main.py:126 | `.` stops at the first newline |
| MainZone.LastTail | main.py:126 | the greedy `(.*)` stops at the last position where the rest of the pattern matches |
| MainZone.ParseImgName | main.py:144-151 | a parsed name is a newline-free prefix of the stem followed by a comma |
| MainZone.ParseImgNameRoundTrip | main.py:126-151 | `name,Sx,(X,Y)` is read back as exactly name, S, X, Y for every newline-free name, commas included |
| MainZone.EmptyCoordinates | main.py:147-151 | a name with empty coordinates matches the regex but fails in `int('')` |
| MainZone.GlueMatches | main.py:126 | with digit groups, including empty ones, the greedy `(.*)` takes exactly the newline-free name and the three groups come back unchanged |
| MainZone.GlueLayout | main.py:126 | where the name, the comma, each digit group and each literal sit in `name,{a}x,({b},{c})` |
| MainZone.TailOfLayout | main.py:126 | laid out that way, the rest of the pattern matches at the comma after the name, with the three groups |
| MainZone.NoTailAfterLayout | main.py:126 | laid out that way, the rest of the pattern matches at no later position, so the greedy group cannot grow |
| MainZone.TemplateCell | main.py:90-94 | a pixel becomes None exactly when its alpha is 0, else a six-digit colour |
| MainZone.TemplateShape | main.py:86-101 | the template has the image's height and width, and cell (x, y) comes from pixel y*width + x |
| MainZone.ImgToLists | main.py:86-101 | the two append loops build exactly that template |
| MainZone.CountNoneRow | main.py:165-168 | a row has no more transparent cells than cells |
| MainZone.CountNoneBound | main.py:164-168 | a rectangular template has at most width*height transparent cells |
| MainZone.AreaNotTransparent | main.py:164-168 | the decrement loop ends at area minus the number of transparent cells |
| MainZone.ScaleImgSize | main.py:104-110 | the new size is the floor quotient of each side; scale 0 raises |
| MainZone.ScaledWellFormed | main.py:155-158 | the optionally rescaled image is still a well-formed RGBA image |
| MainZone.ZoneFacts | main.py:128-168 | a loaded zone came from a file that opened as an image and holds the numbers of its file name, the image's or the shrunk size, area = width*height, a template of that size, and 0 <= area_not_transparent <= area |
| MainZone.LoadZone | main.py:128-168 | `Zone.__init__` with its loops computes exactly that zone: the name is parsed first, then a file that is no image fails |
| MainZone.Found | main.py:182-186 | at most one file per wanted name |
| MainZone.LoadZonesOrder | main.py:178-188 | zones come in wanted-name order, one per name that has a regular file; the others are skipped |
| MainZone.LoadZones | main.py:178-188 | the nested scan with `break` computes exactly that list |
| MainZone.FindFile | main.py:183-186 | the inner scan finds a file exactly when the listing has a regular file of that name |
| MainReconciler.RunForImg | main.py:281-310 | after one `get_pixels`, the calls and the IndexError are those of the Legacy specification on the decoded snapshot |
| MainReconciler.RunRow | main.py:287-310 | one row with its flag cleared, as the Legacy specification |
| MainReconciler.VisitCell | main.py:291-310 | one cell: refresh on even columns after a mismatch, skip transparency, compare, write |
| Reconcile.Cadence | main.py:298 | the refresh cadence is at least one column |
| Reconcile.FirstMismatch | main.py:303-308 | the first column of a row whose opaque cell differs from the canvas, with none before it |
| Reconcile.RowStep | main.py:290-310 | a row is its first cell followed by the rest of the row |
| Reconcile.StaticCell | main.py:298-310 | when the re-read stores its answer, on an unchanging canvas, one cell's calls depend only on whether an earlier mismatch happened |
| Reconcile.StaticRow | main.py:287-310 | on an unchanging canvas, a row keeps the cache and makes the calls of its static events |
| Reconcile.StaticRowHead | main.py:290-310 | the first remaining cell of a row on an unchanging canvas |
| Reconcile.StaticRows | main.py:287-310 | on an unchanging canvas, the pass keeps the cache, never raises, and makes exactly its static events |
| Reconcile.CellEventsWrites | main.py:303-310 | a cell writes exactly when its opaque colour differs from the canvas, with that colour |
| Reconcile.StaticRowWrites | main.py:303-310 | the writes of a row are its mismatches, left to right |
| Reconcile.StaticWrites | main.py:287-310 | the writes of a pass are the zone's mismatches in row-major order |
| Reconcile.RowMismatchesMembers | main.py:303-310 | a write is in a row's mismatches exactly when it sets a differing opaque cell to its template colour |
| Reconcile.MismatchesMembers | main.py:287-310 | a write is in the zone's mismatches exactly when it sets a differing opaque cell to its template colour |
| Reconcile.ApplyIgnoresReads | main.py:300 | only the writes of a trace change the remote canvas |
| Reconcile.FitsSameShape | main.py:291-292 | a zone that fits a canvas fits any canvas of the same shape |
| Reconcile.RepairedCell | main.py:305-310 | after the mismatch writes, every opaque cell shows its template colour |
| Reconcile.RepairedNeedsNothing | main.py:305-310 | after the mismatch writes there is nothing left to write |
| Reconcile.NoRowMismatchNoEvents | main.py:298-308 | a row without mismatches makes no call |
| Reconcile.NoRowMismatchFirst | main.py:303-308 | a row without mismatches has its first mismatch at its end |
| Reconcile.NoMismatchNoEvents | main.py:287-310 | a zone without mismatches makes no call |
| Reconcile.Converges | main.py:281-310 | when the re-read stores its answer, a pass on an unchanging canvas writes exactly the mismatches; a second pass on the result makes no call |
| Reconcile.ExtendsTrans | main.py:291-310 | traces that each add only calls inside the zone compose |
| Reconcile.CellFacts | main.py:291-310 | a cell keeps the cache's shape, calls only inside the zone, and raises exactly when it indexes off the cache or, as written, when the Async loop re-reads |
| Reconcile.RowFacts | main.py:287-310 | a row keeps the shape and calls inside the zone; when the re-read stores, it never raises when it fits; a row that completes has its opaque cells on the canvas, and for AsyncCorrected the converse holds |
| Reconcile.PassFacts | pixels/__init__.py:84-120 | a pass keeps the shape and calls inside the zone; when the re-read stores, it never raises when the zone fits; AsyncCorrected raises exactly when an opaque cell is off the canvas |
| Reconcile.NextOpaque | pixels/__init__.py:99-101 | the first opaque cell at or after a column, with only transparent cells before it |
| Reconcile.AsWrittenAfterHit | pixels/__init__.py:99-114 | as written, after a row's mismatch the loop skips transparent cells, re-reads the next opaque one and raises |
| Reconcile.AsWrittenMismatch | pixels/__init__.py:110-120 | as written, the row's first mismatch is written, then the next opaque cell is re-read and the row raises |
| Reconcile.AsWrittenSkip | pixels/__init__.py:99-116 | as written, a transparent cell or one that already shows its colour changes nothing |
| Reconcile.AsWrittenRow | pixels/__init__.py:84-120 | as written, a row never changes the cache and completes exactly when its opaque cells lie on the cache and none follows its first mismatch; its calls are that write and the next opaque cell's re-read |
| Reconcile.AsWrittenRows | pixels/__init__.py:84-120 | as written, a pass never changes the cache and completes exactly when every row does |
| Reconcile.CadenceExample | pixels/__init__.py:110-114 | on one row the Legacy and AsyncCorrected cadences give different calls, and the Async loop as written raises after its first re-read |
| PixelsUtil.RgbToHex | pixels/util.py:5-7 | the prefix followed by lowercase hex; fewer than three values raise IndexError |
| PixelsUtil.RgbToHexLength | pixels/util.py:5-7 | three bytes give the prefix plus six characters |
| PixelsUtil.RgbToHexRoundTrip | pixels/util.py:5-7 | the hex pairs after the prefix read back as the three bytes |
| PixelsUtil.White | pixels/util.py:6 | white is `#ffffff`, or `ffffff` with an empty prefix |
| PixelsUtil.Chunks3 | pixels/util.py:10-15 | n pixels, pixel i being bytes 3i to 3i+3 |
| PixelsUtil.BytesToImage | pixels/util.py:10-15 | too few bytes raise; otherwise a well-formed RGB image of the given size from the leading bytes |
| PixelsUtil.ScaleImageSize | pixels/util.py:18-29 | down gives the floor quotients (scale 0 raises), up gives the products |
| PixelsUtil.ScaleUpDown | pixels/util.py:18-29 | scaling up and then down by a positive scale gives the size back |
| PixelsZone.CheckKeys | pixels/zone.py:36-44 | the keys are read in the order name, image, coords, scale, and the first missing one is reported |
| PixelsZone.ImageToList | pixels/zone.py:16-23 | the loop cuts the pixel data into `height` rows of the image's width, in order (slicing assumed to work, see Left out) |
| PixelsZone.GridPixels | pixels/zone.py:16-23 | those rows have the image's width and RGBA pixels |
| PixelsZone.CountClearRow | pixels/zone.py:60-62 | a row has no more clear pixels than pixels |
| PixelsZone.CountClearBound | pixels/zone.py:58-62 | a rectangular image has at most width*height clear pixels |
| PixelsZone.AreaOpaque | pixels/zone.py:58-62 | the decrement loop ends at area minus the number of clear pixels |
| PixelsZone.ScaleImage | pixels/zone.py:49-50 | shrinking by scale 0 raises |
| PixelsZone.ZoneFacts | pixels/zone.py:29-62 | a loaded zone holds the definition's keys, the image's or the shrunk size, area = width*height, height rows of width RGBA pixels, and 0 <= area_opaque <= area |
| PixelsZone.LoadZone | pixels/zone.py:29-62 | `Zone.__init__` with its loops computes exactly that zone |
| PixelsZone.DefinitionPaths | pixels/zone.py:77-79 | at most one definition per listing entry |
| PixelsZone.JsonFileIsDefinition | pixels/zone.py:77-79 | a regular file `stem.json` with a non-empty stem is loaded as a zone, whatever directory it is in |
| PixelsZone.HiddenJsonSkipped | pixels/zone.py:77-79 | a file named `.json` has no suffix for pathlib and is skipped, even when the directory name has a dot |
| PixelsZone.LoadZonesOrder | pixels/zone.py:72-81 | a successful load has one zone per `.json` file, in listing order |
| PixelsZone.LoadZonesFails | pixels/zone.py:77-79 | one bad definition makes the whole load fail |
| PixelsZone.LoadZones | pixels/zone.py:72-81 | the loop computes exactly that load |
| PixelsReconciler.AsWrittenTemplate | pixels/zone.py:56 | every template cell is its RGBA tuple, never None |
| PixelsReconciler.CorrectedTemplate | pixels/__init__.py:99-115 | a cell is None exactly when its alpha is 0, else its three colour channels |
| PixelsReconciler.CanvasGridCells | pixels/__init__.py:81 | the decoded canvas has height rows of width RGB pixels |
| PixelsReconciler.RunForZone | pixels/__init__.py:77-120 | after one `get_pixels`, the calls and the raise are those of the build's loop specification on the decoded canvas |
| PixelsReconciler.RunRow | pixels/__init__.py:84-120 | one row with its flag cleared, as the build's loop specification |
| PixelsReconciler.VisitCell | pixels/__init__.py:87-120 | one cell: skip transparency, re-read after a mismatch (raising as written), compare, write |
| PixelsReconciler.ZonePassFacts | pixels/__init__.py:77-120 | a zone raises exactly when the bytes are too few or its loop does not complete on the decoded canvas; all other calls are inside the zone |
| PixelsReconciler.RunProtectionsPass | pixels/__init__.py:123-134 | one pass over the zones in order, stopped by the first exception |
| PixelsReconciler.CountFetchesExtends | pixels/__init__.py:84-120 | a zone makes no `get_pixels` call after its first |
| PixelsReconciler.PassFetches | pixels/__init__.py:126-132 | for either build, a pass fetches the canvas once per zone started, and starts them all unless one raises |
| PixelsReconciler.PassCompletes | pixels/__init__.py:123-134 | for either build, when every zone's loop completes on every fetched canvas, the pass never raises; for the corrected build that is every zone's opaque cells lying on the canvas |
| PixelsReconciler.EveryCellNeeded | pixels/__init__.py:115-120 | as written, an RGBA template cell never equals an RGB canvas cell |
| PixelsReconciler.AsWrittenFirstRow | pixels/__init__.py:84-120 | as written, a first row on the canvas writes its first cell, and with two cells or more re-reads the second and raises |
| PixelsReconciler.AsWrittenRewritesPixel | pixels/__init__.py:99-120 | as written, a one-pixel zone is written on every pass, whatever the canvas shows there, transparent or not |
| PixelsReconciler.AsWrittenStops | pixels/__init__.py:110-114 | as written, a zone whose first row has two cells or more raises on every pass after one write and one re-read |
| PixelsReconciler.AsWrittenNeverAdvances | pixels/__init__.py:123-134 | as written, every pass stops in such a first zone: the later zones are never started |
| PixelsReconciler.CorrectedSettles | pixels/__init__.py:99-120 | with the corrected build, the pass after the repair makes no call beyond `get_pixels` |
| PixelsReconciler.CorrectedSkipsClear | pixels/__init__.py:99-101 | with the corrected build, no call touches a clear pixel |
| PixelsReconciler.PixelLabel | pixels/__init__.py:91-97 | the label starts with the pixel's own coordinates and is padded to the width of the largest label |
| Denoise.NeighbourCoords | noise_manipulation.py:24-30 | eight coordinates, in visiting order, none of them the pixel itself |
| Denoise.PyIndex | noise_manipulation.py:30 | a Python index works exactly from -n to n-1 |
| Denoise.Resolve | pixels/noise_manipulation.py:32-38 | a readable coordinate lies inside the image |
| Denoise.Read | noise_manipulation.py:30 | reading a coordinate succeeds exactly when it resolves |
| Denoise.Neighbours | noise_manipulation.py:18-32 | eight neighbours exactly at the interior pixels, IndexError elsewhere |
| Denoise.NeighboursExist | pixels/noise_manipulation.py:20-40 | all eight neighbours can be read exactly at the interior pixels |
| Denoise.NeverTheCentre | noise_manipulation.py:26-27 | no neighbour is the pixel itself |
| Denoise.Count | noise_manipulation.py:51 | `list.count` is at most the length |
| Denoise.CountTwo | noise_manipulation.py:49 | two different colours together occur at most as often as there are items |
| Denoise.CountAll | noise_manipulation.py:51 | in a list of one colour, that colour occurs in every place |
| Denoise.CountIn | noise_manipulation.py:48 | a colour that occurs is in the list |
| Denoise.ArgMaxIsMost | noise_manipulation.py:48-50 | the running choice is a neighbour that occurs at least as often as any other |
| Denoise.MostFrequentIsMost | noise_manipulation.py:48-50 | the chosen neighbour occurs at least as often as every other |
| Denoise.UniqueWinner | noise_manipulation.py:48-51 | with a threshold above 4, a colour reaching it is the only one and is the one chosen |
| Denoise.Repaint | noise_manipulation.py:44-52 | a pixel is repainted only when interior and when the new colour reaches the threshold |
| Denoise.RepaintExactly | noise_manipulation.py:44-52 | with a threshold above 4, a pixel is repainted with c exactly when c is at least threshold of its neighbours |
| Denoise.Step | noise_manipulation.py:42-53 | one pixel's work keeps the image's shape |
| Denoise.SweepRow | noise_manipulation.py:42-53 | one row's work keeps the image's shape |
| Denoise.SweepRows | noise_manipulation.py:41-53 | the sweep keeps the image's shape |
| Denoise.KeepsTrans | noise_manipulation.py:41-53 | "only interior pixels change and are reported" composes |
| Denoise.StepKeeps | noise_manipulation.py:44-53 | one pixel's work changes and reports only interior pixels |
| Denoise.SweepRowKeeps | noise_manipulation.py:42-53 | one row's work changes and reports only interior pixels |
| Denoise.SweepKeeps | noise_manipulation.py:41-53 | the sweep changes and reports only interior pixels |
| Denoise.UniformNeighbours | noise_manipulation.py:18-32 | in a one-colour image, the eight neighbours of an interior pixel are that colour |
| Denoise.UniformStep | noise_manipulation.py:35-53 | in a one-colour image, every interior pixel is rewritten with its own colour and reported to `set_pixel` |
| Denoise.CoordsAt | noise_manipulation.py:24-30 | the nested loops visit the neighbours in the order of NeighbourCoords |
| Denoise.AllRead | noise_manipulation.py:18-32 | eight successful reads give the neighbour list |
| Denoise.ReadFails | noise_manipulation.py:18-32 | one failed read makes the whole call fail |
| Denoise.GetNeighbourPixels | noise_manipulation.py:18-32 | the loop returns the wrapping neighbours, or fails exactly where they do not exist |
| Denoise.GetNeighbourPixelsStrict | pixels/noise_manipulation.py:20-40 | the loop with its edge checks returns the strict neighbours, or fails exactly where they do not exist |
| Denoise.DenoisePixel | noise_manipulation.py:43-53 | one pixel's work on the array is the specification's step |
| Denoise.DenoiseRow | noise_manipulation.py:42-53 | one row's work on the array is the specification's row |
| Denoise.RemoveNoise | noise_manipulation.py:35-53 | the sweep on a list-of-lists image is the specification's sweep, writes only interior pixels and leaves the rest unchanged |
| Denoise.RemoveNoiseImage | pixels/noise_manipulation.py:43-61 | the sweep on a PIL image is the specification's sweep, changes only interior pixels, and calls `set_pixel` (un-awaited) only for them |
| Utf8.EncodeChar | text_to_rgb.py:9 | a code point becomes one to four bytes, an ASCII one its own value |
| Utf8.EncodeCharShape | text_to_rgb.py:9 | the lead byte gives the length, the later bytes are continuation bytes, and the length is the shortest |
| Utf8.DecodeEncodeChar | text_to_rgb.py:9 | decoding a code point's bytes gives it back |
| Utf8.Encode | text2rgb.py:45 | a text of n code points becomes n to 4n bytes |
| Utf8.EncodeAppend | pixels/text2rgb.py:51 | encoding distributes over concatenation |
| Utf8.EncodeAscii | pixels/text2rgb.py:51 | ASCII text becomes one byte per character |
| Utf8.DecodeEncode | text_to_rgb.py:9 | decoding the encoding of a text gives its code points back |
| TextColours.SanitiseFilename | text2rgb.py:27-34 | the append loop keeps exactly the alphanumeric characters, in order |
| TextColours.SanitisedAppend | pixels/text2rgb.py:27-34 | sanitising a concatenation sanitises the two parts in order |
| TextColours.SanitisedKeeps | text2rgb.py:27-34 | each alphanumeric character survives as often as it occurs, every other never; so the result is never longer |
| TextColours.SanitisedIdempotent | text2rgb.py:27-34 | sanitising twice is sanitising once |
| TextColours.PaddedLength | text_to_rgb.py:11 | the padded length is a multiple of 3, one to three above the length, and three above exactly for a length divisible by 3 |
| TextColours.PadShape | text_to_rgb.py:11-12 | padding appends one to three fill bytes and gives whole pixels |
| TextColours.Pixels | text_to_rgb.py:15-16 | cutting whole pixels gives a third as many three-byte pixels |
| TextColours.PixelsAt | text_to_rgb.py:16 | pixel i is bytes `3*i` to `3*i + 3` |
| TextColours.ColourLines | text_to_rgb.py:16 | one six-character colour per pixel |
| TextColours.PrintedLines | pixels/text2rgb.py:57 | one `#`-prefixed colour per pixel |
| TextColours.ColourLinesSnoc | text_to_rgb.py:15-18 | one more pixel adds its colour at the end |
| TextColours.PrintedLinesSnoc | pixels/text2rgb.py:56-58 | one more pixel adds its printed colour at the end |
| TextColours.PrintColours | pixels/text2rgb.py:56-58 | the loop prints exactly the `#`-prefixed colours of the pixels, in order |
| TextColours.Colours | text_to_rgb.py:14-18 | the loop collects exactly the bare colours of the pixels, in order |
| TextColours.ColoursRoundTrip | text_to_rgb.py:14-18 | for every byte string of whole pixels, reading the collected colours back gives the bytes |
| TextColours.PrintedRoundTrip | text2rgb.py:50-52 | for every byte string of whole pixels, reading the printed colours back after their `#` gives the bytes |
| TextColours.TextToRgbRoundTrip | text_to_rgb.py:8-18 | for every text, the colours give its UTF-8 bytes plus one to three spaces, and those bytes decode to the text |
| TextColours.Text2RgbRoundTrip | text2rgb.py:45-52 | for every text, the printed colours give its UTF-8 bytes plus one to three zero bytes |
| TextColours.TextImageSize | pixels/text2rgb.py:60-66 | scale 1 gives one pixel per chunk in one row |
| TextColours.TextImageSizeScales | text2rgb.py:54-60 | the scaled size is `scale_image`'s scale-up, and scaling it back down gives one pixel per chunk |
| TextColours.TextImagePixels | text2rgb.py:54-55 | the image is one row whose pixels are exactly the printed pixels, in order |
| TextColours.InteractiveScale | pixels/text2rgb.py:46-49 | an entered scale fails exactly where `int` fails (whitespace, underscores and non-ASCII digits read as `int` reads them), and 0 falls back to the command-line scale |
| TextColours.InteractiveScaleOf | pixels/text2rgb.py:46-49 | entering the digits of n gives n, and 0 gives the default |
| TextColours.NoNewlines | pixels/text2rgb.py:67 | a sanitised name has no newline |
| TextColours.Text2RgbNameParts | text2rgb.py:61-62 | the file name has suffix `.png` and the stem `{sanitised}-{encoding}-{scale}x` |
| TextColours.PixelsText2RgbNameUnloadable | pixels/text2rgb.py:67 | the file name has suffix `.png`, and main.py's name parser rejects its stem for the empty coordinates |
| TemplateManager.Trunc | template_manager.py:38 | `int()` of a float truncates toward zero |
| TemplateManager.FrameIndex | template_manager.py:32-38 | index 0 when frames do not advance; ZeroDivisionError exactly when they do and there are no frames |
| TemplateManager.PyModRange | template_manager.py:38 | float `%` by a positive count lies in [0, count) |
| TemplateManager.FloorOfPyMod | template_manager.py:38 | flooring the float remainder is the integer remainder of the floored quotient |
| TemplateManager.FrameIndexIsFloorMod | template_manager.py:37-38 | the index is floor(elapsed / duration) mod length, a valid frame |
| TemplateManager.FrameDuringPeriod | template_manager.py:37-38 | throughout the k-th frame duration, frame k mod length is shown |
| TemplateManager.Tick | template_manager.py:32-41 | a call stores the index and reports a change exactly when it differs from the stored frame |
| TemplateManager.FirstTickChanges | template_manager.py:29-41 | the first successful call after construction reports a change |
| TemplateManager.SecondTickSame | template_manager.py:39-41 | a second call at the same time gives the same frame and reports no change |
| TemplateManager.StillTemplate | template_manager.py:33-36 | a duration of 0 or less gives frame 0, changed exactly when 0 was not stored |
| TemplateManager.Template.constructor | template_manager.py:26-30 | the duration is minutes*60, no frame is stored, and length is the entry count minus 1 |
| TemplateManager.Template.GetCurrentFrameIndex | template_manager.py:32-41 | the call answers and stores as Tick; on error the stored frame is kept; no other field changes |
| TemplateManager.OpenTemplate | template_manager.py:16-30 | a directory without canvas.json raises ValueError; otherwise a fresh template from canvas.json |
| TemplateManager.SetDefault | template_manager.py:50 | `setdefault` returns the stored value, storing the new one only when the key is absent |
| TemplateManager.FirstStoredWins | template_manager.py:48-50 | a later `setdefault` on the same key returns the first value and changes nothing; other keys are untouched |
| TemplateManager.Registry.constructor | template_manager.py:12 | the registry starts empty |
| TemplateManager.Registry.GetTemplateFor | template_manager.py:48-50 | a cached path returns its cached template and leaves the registry unchanged; a new path stores a fresh template; a missing canvas.json raises even for a cached path |
| TemplateManager.Registry.Reset | template_manager.py:53-55 | the registry is empty afterwards |

## Left out

- Network I/O is left out: HTTP requests, sessions, headers and JSON bodies. The API calls are trace events, and the answer to `get_pixel` comes from an oracle parameter.
- pixels/api.py, pixels/api/_base.py and pixels/api/cmpc.py are not part of this model, because they are client code for the network.
- Sleeping, `print_sleep_time`, logging, `time.asctime`, `datetime.utcnow`, the canvas.log append and the infinite `while True` loops are left out. The model covers one pass, and elapsed time is a parameter.
- config.json and argparse handling are left out. The text scripts take the text, scale and encoding as parameters.
- PIL is left out: opening files, `convert`, nearest-neighbour `resize`, `frombytes` beyond its size check, and `save`. Images are given grids. `resize` is a function parameter of which only the output size is assumed.
- PixelsZone.ImageToList: assumes that the value of `image.getdata()` can be sliced like a list. Pillow returns an `ImagingCore` for it, which supports `len` and integer indexing; if it refuses slices, pixels/zone.py:22 raises TypeError for every image with at least one row, and `load_zones`, called outside any `try` at pixels/__init__.py:155, stops the bot at startup. The model follows the evidently intended row slicing; PixelsZone.ZoneFacts, PixelsZone.LoadZone and PixelsZone.LoadZones inherit this assumption.
- Both reconcilers index the cache at non-negative coordinates. Negative JSON coordinates in pixels/zone.py are not modelled.
- PixelsReconciler.RunForZone: as written, the re-read raises whatever `get_pixel` answers, which the model states. The corrected build takes the answer as an RGB pixel. The conversion from the hex string is not modelled.
- Denoise.RemoveNoiseImage: `writes` lists the `api.set_pixel` calls the loop makes. `set_pixel` is a coroutine function called without `await`, so these calls send no request and never run `ratelimit`. The model does not model coroutines, and the listed writes are calls, not requests.
- Decimal.ParseInt: Python 3.11 and later refuse more than 4300 digits by default (ValueError); this limit is not modelled. The non-ASCII digits and spaces follow the Unicode 15.0 tables of Python 3.12.
- PixelsReconciler.VisitCell: the first `getpixel`, which only logs an IndexError, is modelled as having no effect.
- MainZone.ParseImgName: regex matching is modelled only for this one pattern.
- The zone total area and its percentage of the canvas (main.py:329-333, pixels/__init__.py:156-160) are left out. They only feed log lines.
- `save_canvas_as_png` is left out. It is file output.
- Denoise.MostFrequent: breaks ties in favour of the neighbour that comes first. CPython orders equal counts by the iteration order of `set`, which the language does not fix. The choice is therefore proved only when a colour reaches a threshold above 4, where it is unique (Denoise.UniqueWinner).
- Denoise.RemoveNoise: list-of-lists images are modelled as rectangular arrays, so ragged rows are not modelled. The default threshold of 7 is a parameter.
- `add_noise` in both noise files is left out. It is random.
- TextColours.SanitiseFilename: keeps ASCII letters and digits only. Python's `str.isalnum` also accepts Unicode letters and digits, which this model leaves out.
- Utf8.Encode: a Dafny `char` is a Unicode scalar value, so texts holding a lone surrogate (U+D800 to U+DFFF) are not modelled. Python's `str.encode('utf-8')` raises UnicodeEncodeError on them, and neither text2rgb.py:45 nor pixels/text2rgb.py:51 catches it.
- PixelsZone.Definition: the JSON values are taken to have the types the program uses them at (a string name and image, two non-negative integer coordinates, an integer scale). A definition whose values have other types is not modelled.
- Text2RgbName: text2rgb.py's `--encoding` option is kept only in the file name. The bytes are modelled for UTF-8, its default, and other codecs are not part of this model.
- Reading a line with `input()` is left out. The text and the entered scale are parameters.
- TemplateManager.FrameIndex: uses exact real arithmetic where Python uses IEEE doubles. Rounding of `elapsed / single_duration` near a frame boundary is not modelled.
- TemplateManager.OpenTemplate: a canvas.json without the keys `minutesPerFrame`, `left` or `top` (KeyError) or with invalid JSON is not modelled. The directory's contents are a parameter.
- `Path.resolve` is left out. The registry is keyed by the already-resolved path.
- template_manager.py's `get_current_frame_path`, `convert_frames_to_absolute`, `convert_frames_to_relative` and `main` are left out. They rewrite files and images.
- gui_canvas_display.py and the Discord mirrors are not part of this model.

## Findings

| source | as written | input that shows it | evidently intended | confidence | as-written member | corrected member |
|---|---|---|---|---|---|---|
| pixels/__init__.py:99-115 | template cells come from pixels/zone.py:56 as RGBA 4-tuples, and canvas cells from `bytes_to_image` are RGB 3-tuples, so `colour is None` is never true and `getpixel(...) == colour` never holds | a 1×1 zone whose colour the canvas already has: it is written again on every pass; a transparent 1×1 zone is painted too | transparent cells (alpha 0) skipped, and a cell compared by its three colour channels, so that a repaired zone needs no further writes | not executed | PixelsReconciler.AsWrittenRewritesPixel | PixelsReconciler.CorrectedSettles |
| pixels/__init__.py:110-114 | after a mismatch, the re-read passes `list(pix_status)` to `putpixel`, where `pix_status` is the hex string of pixels/api.py:109; PIL raises on that list, and `run_protections` catches the exception and starts again from the first zone | a first zone whose first row has two cells on the canvas: every pass writes its top-left pixel, re-reads the pixel beside it and raises, so no later zone is ever started | the re-read colour stored as an RGB pixel and the row continued, so that a pass completes whenever the zones' opaque cells lie on the canvas | not executed | PixelsReconciler.AsWrittenNeverAdvances | PixelsReconciler.PassCompletes |
