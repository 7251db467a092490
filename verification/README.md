# Verified model of an ESP8266 display and web-server firmware

This project models the parts of the firmware where a small mistake would go unnoticed and proves what they
are for:

* **Frame buffer** (`panel`, `spans`, `ssd1306`): the SSD1306 driver keeps a 128x64 picture as 1024 page-packed
  bytes. Its fast horizontal and vertical lines rotate, clip, and then write partial bytes through mask tables and
  whole bytes directly. The model is a class over that byte array; the specification is `drawPixel` called once per
  pixel. The two agree exactly on `Spans.Faithful` runs, which include every non-negative length in each of the three
  colours.
* **Rasterisers** (`gfx_lines`, `gfx_rects`, `gfx_overrides`, `gfx_circle_shape`, `gfx_circle_times`,
  `gfx_disc_times`, `gfx_circles`, `gfx_circle_pixels`, `gfx_tall_halves`, `gfx_triangle`): the incremental loops of Adafruit_GFX run on that class and are proved to draw closed-form
  shapes; the shapes are then characterised independently of the loops (half a pixel from the ideal line or
  circle, exact disc, triangle, each pixel once).
* **EspFS** (`espfs_format`, `mkespfs`, `espfs_search`, `espfs`, `espfs_roundtrip`): the image writer (with
  the encoder's output as given), the search for a file, reading its length and contents by aligned 32-bit loads alone, and the whole way from files to bytes read
  back. (The search copies headers and names with `os_memcpy`, as the source does.)
* **Request head** (`http_head`, `httpd`, `fields`): the receive callback of the web server as a byte machine over
  arbitrary packet boundaries (the request head is the Full-Request of section 5 of RFC 1945), and `getValue`.
* **Time** (`calendar`, `sntp`): conversion of an epoch to a date, and the SNTP client (section 5 of RFC 4330) as an
  event machine over pending timers and DNS queries.

A frame is a value (`Panel.Frame`), and `PlotAll(frame, rotation, points, colour)` is the frame after `drawPixel` has
been called for each point in order; `Lit(frame, p)` is one pixel. Drawing methods equate the new frame with a
function of the old one, and lemmas say which pixels that function changes. Arithmetic is on unbounded integers, and
every store into a 16-bit variable goes through `CInt.Wrap16`; C's truncating division is `CInt.TruncDiv`.

## What the proofs found

* The fast lines are not the pixel loop for a negative length whose 16-bit sum with the start wraps around, and
  for a colour other than 0, 1, 2 over a whole byte (which is cleared). `Spans.FastVExact` and `Spans.FastHExact` give
  the exact condition, `Spans.FastVCounterexamples` and `Spans.FastHCounterexamples` inputs.
* Asked for h < 1 pixels, the default `drawFastVLine` of Adafruit_GFX draws 2 - h of them, the override none (unless it
  wraps). `GfxOverrides.VerticalAgreesExactly` and `GfxOverrides.HorizontalAgreesExactly` give the exact condition
  for the two to agree, in every rotation and for each of the three colours, over all lines whose end and walk fit
  16 bits (`GfxRects.ColumnFits`, `GfxRects.RowFits`). Past that bound the default's own end or counter wraps.
* `drawCircle` plots some pixels twice or more (`GfxCircleTimes.Times`), so with INVERSE it leaves gaps
  (`GfxCircleTimes.PlottedTwice`); `fillCircle` does too (`GfxDiscTimes.DiscTimes`).
* The midnight that starts a month (except 1 January 1970) is rendered as one day past the end of the month before
  (`Calendar.DayExistsExactly`, `Calendar.LateMidnight`), and off those midnights the rendered date is the Gregorian one exactly up to
  28 February 2100 (`Calendar.GregorianExactly`).
* A file stored under a name that starts with `/` cannot be opened (`EspFs.AskableNames`).
* A NUL byte received before the request head is complete keeps it from ever completing (`Httpd.NulBlocksHead`).
* A packet that arrives while a DNS query is outstanding, and only that, can start a second chain of SNTP requests
  (`Sntp.OneChainExactly`, `Sntp.SecondChain`).

## Model

| member | source | states |
|---|---|---|
| `CInt.TruncDivMeaning` | user/Adafruit_GFX.cpp:326-327 | C's division of a running sum by an edge height rounds towards zero, for either sign |
| `Panel.RotationIsBijective` | user/Adafruit_SSD1306.cpp:106-134 | in every rotation the coordinate map is invertible, takes the screen exactly onto the panel, and two panel pixels never share a (byte, bit) pair |
| `Panel.ScreenTurnsClockwise` | user/Adafruit_SSD1306.cpp:106-134 | the screen's origin is at the four corners of the panel in clockwise order, and its axes turn with it |
| `Panel.PixelLayout` | user/Adafruit_SSD1306.cpp:126-130 | pixel (x, y) is bit y % 8 of byte x + 128 * (y / 8), the top row of a page in the lowest bit |
| `Panel.ColoursMean` | user/Adafruit_SSD1306.h:38-40 | colour 0 clears, 1 sets, 2 flips at every drawing and any other does nothing |
| `Panel.SamePixels` | user/Adafruit_SSD1306.cpp:32 | two buffers with the same 128x64 pixels are the same bytes: there are no other bits |
| `Panel.SetPixelLit` | user/Adafruit_SSD1306.cpp:106-134 | drawPixel sets, clears or flips exactly the pixel it names, seen through the rotation, leaves all others, and an off-screen point changes nothing |
| `Panel.PlotAllLit` | user/Adafruit_SSD1306.cpp:106-134 | after any list of drawPixel calls a pixel depends only on how often the list names it: set or cleared if at all, flipped by parity |
| `Panel.DrawingOrderIsIrrelevant` | user/Adafruit_SSD1306.cpp:106-134 | two lists naming every point equally often draw the same frame; for BLACK and WHITE equal sets suffice |
| `Panel.InvertingAgainRestores` | user/Adafruit_SSD1306.cpp:106-134 | drawing any list of points twice with INVERSE gives the old frame back |
| `Spans.Clip` | user/Adafruit_SSD1306.cpp:689-705 | the clipped range stays on the panel and covers exactly the on-panel part of the requested one, unless the 16-bit sum wraps, when it wrongly starts at 0 |
| `Spans.HSpanLit` | user/Adafruit_SSD1306.cpp:615-648 | the byte-wise row paints exactly the clipped pixels of its row, once each |
| `Spans.VSpanLit` | user/Adafruit_SSD1306.cpp:684-796 | partial and whole bytes of a column together paint exactly its clipped pixels, once each, for the three colours, and for any colour when no whole byte is covered |
| `Spans.UnknownColourColumn` | user/Adafruit_SSD1306.cpp:751-779 | a colour outside the three clears exactly the bytes a column covers whole |
| `Spans.VRouteReaches` | user/Adafruit_SSD1306.cpp:650-681 | the rotated, re-based and clipped 16-bit run of drawFastVLine reaches exactly the panel pixels whose screen position is on the requested line |
| `Spans.HRouteReaches` | user/Adafruit_SSD1306.cpp:581-613 | the same for drawFastHLine |
| `Spans.FastVIsPixelLoop` | user/Adafruit_SSD1306.cpp:650-796 | for every rotation, position, length and colour whose run is faithful, drawFastVLine leaves exactly the buffer of drawPixel once per pixel |
| `Spans.FastHIsPixelLoop` | user/Adafruit_SSD1306.cpp:581-648 | the same for drawFastHLine |
| `Spans.UnfaithfulFrame` | user/Adafruit_SSD1306.cpp:751-779 | a run that is not faithful has a negative length or an unknown colour, and visibly changes some buffer |
| `Spans.FastVExact` | user/Adafruit_SSD1306.cpp:650-796 | drawFastVLine equals the pixel loop on all buffers if and only if its run is faithful; every length >= 0 in the three colours is |
| `Spans.FastHExact` | user/Adafruit_SSD1306.cpp:581-648 | the same equivalence for drawFastHLine |
| `Spans.FastVCounterexamples` | user/Adafruit_SSD1306.cpp:689-779 | a wrapping negative length, and colour 3 over eight rows, are inputs where the fast line is wrong |
| `Spans.FastHCounterexamples` | user/Adafruit_SSD1306.cpp:581-648 | a wrapping negative length, and colour 3 on a turned screen, are inputs where drawFastHLine is wrong |
| `Ssd1306.PremaskBits` | user/Adafruit_SSD1306.cpp:719-733 | the premask entry, narrowed when the run ends inside the byte, has exactly the bits of the first partial byte |
| `Ssd1306.PostmaskBits` | user/Adafruit_SSD1306.cpp:781-788 | the postmask entry has exactly the bits of the last partial byte |
| `Ssd1306.ClipRun` | user/Adafruit_SSD1306.cpp:689-705 | the two limit checks compute the clipped range, in 16-bit arithmetic, for rows and columns alike |
| `Ssd1306.Display.SetRotation` | user/Adafruit_GFX.cpp:496-510 | any argument selects a rotation modulo 4 with the matching width and height, and the picture stays |
| `Ssd1306.Display.DrawPixel` | user/Adafruit_SSD1306.cpp:106-134 | the in-place update is one SetPixel step, every index in bounds |
| `Ssd1306.Display.DrawFastHLineInternal` | user/Adafruit_SSD1306.cpp:615-648 | the moving-pointer loop writes the clipped row and no other byte |
| `Ssd1306.Display.FirstByte` | user/Adafruit_SSD1306.cpp:719-748 | completes one page of the column when it starts inside a byte, whether or not it also ends there |
| `Ssd1306.Display.WholeBytes` | user/Adafruit_SSD1306.cpp:751-779 | completes every fully covered page, by inversion or by storing the fill value, and leaves fewer than eight rows |
| `Ssd1306.Display.LastByte` | user/Adafruit_SSD1306.cpp:781-795 | completes the page of the remaining rows |
| `Ssd1306.Display.DrawFastVLineInternal` | user/Adafruit_SSD1306.cpp:684-796 | the page-wise code with its early exits writes the clipped column and no other byte |
| `Ssd1306.Display.DrawFastHLine` | user/Adafruit_SSD1306.cpp:581-613 | the method leaves the buffer of drawPixel once per pixel for every faithful run; also for every other input its exact result is given |
| `Ssd1306.Display.DrawFastVLine` | user/Adafruit_SSD1306.cpp:650-681 | the same for vertical lines |
| `GfxLines.BresenhamRounds` | user/Adafruit_GFX.cpp:185-205 | the additive recurrence computes i*dy/dx rounded to nearest, and its error term stays in [0, dx) |
| `GfxLines.ErrStep` | user/Adafruit_GFX.cpp:200-204 | the sign of the reduced error term decides exactly whether the rounded quotient moves |
| `GfxLines.RoundsHalfDown` | user/Adafruit_GFX.cpp:185-205 | the displacement is the nearest integer to i*dy/dx, halves downwards |
| `GfxLines.DrawLine` | user/Adafruit_GFX.cpp:167-206 | the swapping, 16-bit incremental loop draws exactly the rounded line, once per point, in walking order |
| `GfxLines.LinePoints` | user/Adafruit_GFX.cpp:170-206 | the line has max(abs dx, abs dy) + 1 points |
| `GfxLines.LineCount` | user/Adafruit_GFX.cpp:194-205 | no point of the line is plotted twice, so these are that many different pixels |
| `GfxLines.LineStartsAndEnds` | user/Adafruit_GFX.cpp:170-206 | its first and last points are the two given end points |
| `GfxLines.LineIsConnected` | user/Adafruit_GFX.cpp:194-205 | consecutive points differ by one along the longer axis and at most one along the other |
| `GfxLines.LineIsWithinHalfAPixel` | user/Adafruit_GFX.cpp:194-205 | every point is at most half a pixel from the ideal line through the end points, measured along the shorter axis |
| `GfxLines.LineStaysInItsBox` | user/Adafruit_GFX.cpp:194-205 | no point leaves the bounding box of the end points |
| `GfxLines.LineIsUndirected` | user/Adafruit_GFX.cpp:170-179 | exchanging the end points gives the same points in the same order |
| `GfxRects.GenericFastVLine` | user/Adafruit_GFX.cpp:218-222 | the default vertical line draws the run of h pixels, and 2 - h pixels upwards when h < 1 |
| `GfxRects.GenericFastHLine` | user/Adafruit_GFX.cpp:224-228 | the default horizontal line likewise |
| `GfxRects.VerticalLine` | user/Adafruit_GFX.cpp:218-222 | the Bresenham line between the two ends is the plain run |
| `GfxRects.HorizontalLine` | user/Adafruit_GFX.cpp:224-228 | the same for rows |
| `GfxRects.OverrideAgreesWithDefault` | user/Adafruit_GFX.cpp:218-228 | default lines and SSD1306 overrides draw the same buffer for every length >= 1, rotation and colour of the three, when the line fits the default's 16-bit walk |
| `GfxRects.DefaultDrawsEmptyLines` | user/Adafruit_GFX.cpp:218-222 | a concrete family where they differ: for length 0 the default lights a dark pixel and the override leaves it |
| `GfxOverrides.VerticalAgreesExactly` | user/Adafruit_GFX.cpp:218-222 | for lines that fit the default's 16-bit walk, default and override of drawFastVLine draw the same picture on every frame if and only if h >= 1, or the run is faithful and the 2 - h pixels the default draws are off the screen; every rotation, each of the three colours |
| `GfxOverrides.DrawColumnBothWays` | user/Adafruit_GFX.cpp:218-222 | running both routines on two displays with equal pictures leaves equal pictures under that condition |
| `GfxOverrides.HorizontalAgreesExactly` | user/Adafruit_GFX.cpp:224-228 | the same equivalence for drawFastHLine |
| `GfxOverrides.DrawRowBothWays` | user/Adafruit_GFX.cpp:224-228 | the same two runs for drawFastHLine |
| `GfxRects.FillRect` | user/Adafruit_GFX.cpp:230-236 | the column loop through the override draws the points of the rectangle whenever each of its columns is faithful, negative heights included; in particular for every height >= 0 in the three colours |
| `GfxRects.RectIsDrawn` | user/Adafruit_GFX.cpp:230-236 | the columns of a rectangle drawn fast are its points drawn one by one, for every faithful height and colour |
| `GfxRects.RectCount` | user/Adafruit_GFX.cpp:230-236 | a point of the rectangle is named exactly once, any other never |
| `GfxRects.RectLit` | user/Adafruit_GFX.cpp:230-236 | filling changes each on-screen pixel of the rectangle once and no other, in any rotation |
| `GfxRects.InvertingTwiceRestores` | user/Adafruit_GFX.cpp:230-236 | what FillRect draws, drawn twice with INVERSE, gives the old buffer back, for every height, negative and wrapping ones included |
| `GfxCircles.AccumulatorRange` | user/Adafruit_GFX.cpp:61-80 | while x < y, f lies in [2x+1-2y, 2x] and its sign says whether the midpoint is outside |
| `GfxCircles.AccumulatorStep` | user/Adafruit_GFX.cpp:72-80 | one iteration keeps f == (x+1)^2 + y^2 - y - r^2, ddF_x == 2x+1, ddF_y == -2y and the distance from the circle |
| `GfxCircles.DrawCircle` | user/Adafruit_GFX.cpp:59-91 | the 16-bit loop plots exactly the poles and the eight mirror images of the midpoint octant, nothing wrapping that matters, for every centre |
| `GfxCircles.NegativeRadius` | user/Adafruit_GFX.cpp:59-72 | for a negative radius drawCircle plots the four poles and nothing else |
| `GfxCircleShape.WalkStep` | user/Adafruit_GFX.cpp:72-80 | every step of the octant lands within half a pixel of the circle |
| `GfxCircleShape.OutlineIsExact` | user/Adafruit_GFX.cpp:59-91 | an offset is plotted if and only if -m <= x^2+y^2-r^2 < m (m the larger coordinate, and at least 1): none is wrong and none is missing |
| `GfxCircleTimes.OutlineTimes` | user/Adafruit_GFX.cpp:67-90 | how often each offset is plotted: 4 or 3 times on the axes for r = 0 or 1, twice on the diagonals and beside a diagonal that is stepped across, once elsewhere on the outline |
| `GfxCircleTimes.PlottedTwice` | user/Adafruit_GFX.cpp:82-89 | a pixel of the circle of radius 2 that is plotted twice |
| `GfxCirclePixels.CircleLit` | user/Adafruit_GFX.cpp:59-91 | on the panel, in every rotation, for centres anywhere in 16 bits and every colour, drawCircle paints each pixel as often as Times says, so exactly the pixels of the outline |
| `GfxCircles.FillCircleHelper` | user/Adafruit_GFX.cpp:136-164 | for any corner mask and extra height the loop makes exactly the columns of the octant, in order |
| `GfxTallHalves.CoveredExactly` | user/Adafruit_GFX.cpp:136-164 | the columns of the halves asked for cover an offset if and only if, with the extra rows taken out, it is in that half of the disc |
| `GfxTallHalves.HalvesLit` | user/Adafruit_GFX.cpp:136-164 | on the panel, in every rotation, for every corner mask and extra height delta >= -1 that fits, fillCircleHelper in BLACK or WHITE paints exactly the halves of the disc, pulled apart by delta rows |
| `GfxCircles.FillCircle` | user/Adafruit_GFX.cpp:129-133 | fillCircle is the central column followed by both halves |
| `GfxCircles.NegativeDisc` | user/Adafruit_GFX.cpp:129-133 | for a negative radius fillCircle draws nothing, unless the negative length wraps |
| `GfxCircleShape.DiscIsExact` | user/Adafruit_GFX.cpp:129-164 | the columns cover an offset if and only if x^2+y^2 < r^2 + m: no gap is left and nothing outside is touched |
| `GfxDiscTimes.DiscCovers` | user/Adafruit_GFX.cpp:129-164 | how many of the columns cover an offset, in closed form: the column's own visit and one for each visit of the octant to the row of that number |
| `GfxDiscTimes.DiscTimesPositive` | user/Adafruit_GFX.cpp:129-164 | that number is positive exactly in the disc |
| `GfxCircleShape.DiscIsSolid` | user/Adafruit_GFX.cpp:155-162 | every column of the disc is one gap-free run around the axis |
| `GfxCircleShape.DiscIsSymmetric` | user/Adafruit_GFX.cpp:155-162 | the disc is symmetric in both axes and the diagonals |
| `GfxCircleShape.DiscCoversOutline` | user/Adafruit_GFX.cpp:129-164 | it contains the outline of the same radius, stays within columns and rows -r to r, and x^2+y^2 < r^2+r for r >= 1 |
| `GfxCirclePixels.DiscLit` | user/Adafruit_GFX.cpp:129-164 | on the panel, in every rotation, fillCircle in BLACK or WHITE paints exactly the disc |
| `GfxCirclePixels.DiscLitTimes` | user/Adafruit_GFX.cpp:129-164 | in each of the three colours fillCircle changes every pixel exactly as often as DiscTimes says |
| `GfxCirclePixels.OutlineOverDisc` | user/Adafruit_GFX.cpp:59-164 | drawCircle after fillCircle with the same arguments changes nothing, in BLACK or WHITE |
| `GfxTriangle.EdgeSide` | user/Adafruit_GFX.cpp:330-333 | a truncated crossing is less than a pixel from the true edge, and pixels left and right of it are on those sides of the edge |
| `GfxTriangle.SortKeepsVertices` | user/Adafruit_GFX.cpp:284-293 | the three swaps keep the three vertices |
| `GfxTriangle.EdgeBetween` | user/Adafruit_GFX.cpp:330-333 | a crossing stays between the ends of its edge and meets both of them |
| `GfxTriangle.EdgeCutsTowardsStart` | user/Adafruit_GFX.cpp:325-347 | a crossing is the last pixel from the start of its edge that does not pass it |
| `GfxTriangle.SpanInBox` | user/Adafruit_GFX.cpp:325-353 | every span is non-empty and inside the bounding box |
| `GfxTriangle.TriangleCount` | user/Adafruit_GFX.cpp:278-354 | every scanline y0..y2 is drawn once and each pixel of its span once; nothing else |
| `GfxTriangle.VerticesArePainted` | user/Adafruit_GFX.cpp:278-354 | all three vertices are covered |
| `GfxTriangle.PaintedAgainstTriangle` | user/Adafruit_GFX.cpp:278-354 | every integer point of the closed triangle is painted, and a painted pixel is in the open triangle or is a span end less than one pixel from its edge; a triangle on one scanline is painted exactly from its first to its last vertex |
| `GfxTriangle.VertexOrderIsIrrelevant` | user/Adafruit_GFX.cpp:284-293 | all six orders of the vertices draw the same pixels, ties in y included |
| `GfxTriangle.SumIsProduct` | user/Adafruit_GFX.cpp:325-347 | the running sums are the products of the longhand formulas and fit 32 bits |
| `GfxTriangle.UpperRow` | user/Adafruit_GFX.cpp:325-336 | dividing the running sums gives the span of the longhand formulas in the upper loop |
| `GfxTriangle.LowerRow` | user/Adafruit_GFX.cpp:338-353 | the same for the lower loop |
| `GfxTriangle.FillTriangle` | user/Adafruit_GFX.cpp:278-354 | sorting, the all-on-one-line case and both loops together draw exactly the closed-form triangle; no division is by zero |
| `EspFsFormat.LittleEndian` | mkespfsimage/main.c:20-34 | a stored number is the value of its bytes, least significant first |
| `EspFsFormat.HeaderLayout` | mkespfsimage/espfsformat.h:22-29 | magic word, flags, compression, name length and both file lengths at offsets 0, 4, 5, 6, 8 and 12 of a 16-byte header |
| `EspFsFormat.Decode16` | mkespfsimage/main.c:20-25 | an int16 written by htoxs reads back as itself |
| `EspFsFormat.Decode32` | mkespfsimage/main.c:27-34 | an int32 written by htoxl reads back as itself, negative ones included |
| `MkEspFs.RecordBytes` | mkespfsimage/main.c:104-128 | a record is its header, the memory from the name on up to a multiple of four, the stored bytes, and zeros up to a multiple of four; compressed unless that would be larger |
| `MkEspFs.Archive.PadOut` | mkespfsimage/main.c:124-128 | the padding loop appends only zeros, up to the next multiple of four |
| `MkEspFs.Archive.HandleFile` | mkespfsimage/main.c:81-131 | appends exactly the record of the file, compressed or not (falling back when compression enlarges it), and returns the size ratio, or appends nothing and returns 0 for an empty file |
| `MkEspFs.Archive.FinishArchive` | mkespfsimage/main.c:134-143 | appends the data-less header that carries FLAG_LASTFILE |
| `MkEspFs.WriteArchive` | mkespfsimage/main.c:178-203 | a whole run of the writer produces the image of its non-empty files, in order |
| `EspFsSearch.SkipsBySize` | user/espfs.c_:161-163 | past a record of another name the walk goes on at the next multiple of four after its end, whatever its compression, flags and lengths |
| `EspFsSearch.LooksAtRecord` | user/espfs.c_:113-164 | at a true record start, compressed or not, the reader either stops at it, exactly when it bears the name, or moves exactly to the next record start |
| `EspFsSearch.SearchRecords` | user/espfs.c_:113-164 | over any records of any compression, spare flags and padding, up to a last-file or broken header, the walk finds the first record of the name and reports a missing file exactly when no record bears it |
| `EspFsSearch.TrailerHeader` | mkespfsimage/main.c:134-143 | the reader sees the closing header as the writer made it |
| `EspFsSearch.SearchImage` | user/espfs.c_:113-164 | the same for a whole image, which may mix compressed and uncompressed records |
| `EspFs.WordBytes` | user/espfs.c_:84-96 | shifting an aligned (signed) word gives its four bytes in flash order |
| `EspFs.LoadByte` | user/espfs.c_:88-93 | the byte at any address, from the aligned word that holds it |
| `EspFs.MemcpyAligned` | user/espfs.c_:84-96 | for every alignment and length, aligned word loads alone copy exactly the source bytes and touch nothing else |
| `EspFs.FoundInFlash` | user/espfs.c_:113-164 | whatever the flash holds, a search ends only at an aligned header with the magic word and no last-file flag, followed by exactly the name asked for |
| `EspFs.FindHeader` | user/espfs.c_:113-164 | the search loop returns the header position the search defines, -1 when there is none |
| `EspFs.EspFsOpen` | user/espfs.c_:100-165 | returns null for a missing file, failed allocation or compressed record, otherwise a fresh handle on the record found, at its first byte |
| `EspFs.EspFsRead` | user/espfs.c_:168-183 | delivers the next min(len, rest) bytes, advances the cursor by as many and leaves the rest of the buffer; negative lengths and null handles included |
| `EspFs.PiecesAreConsecutive` | user/espfs.c_:174-181 | the pieces cut out by clipped lengths leave no gap and repeat nothing (used by ReadAll) |
| `EspFs.ReadAll` | user/espfs.c_:168-183 | a run of espFsRead calls of any lengths returns consecutive pieces, together the file from the cursor up to the bytes asked for or its end |
| `EspFsRoundTrip.RoundTrip` | mkespfsimage/main.c:81-143 | in the image of any storable files, whatever their compression, the padding and the flash after it, the search finds the first non-empty file of the slash-stripped name, and if that one is uncompressed the record holds exactly its bytes |
| `EspFsRoundTrip.Fetch` | user/espfs.c_:100-183 | opening succeeds exactly when the file is there, uncompressed, and memory is, and reading returns its bytes up to the number asked for |
| `EspFsRoundTrip.StoreAndFetch` | mkespfsimage/main.c:81-143 | writing files, opening a request with any leading slashes and reading it in pieces gives back the bytes of the first non-empty file of that name, even behind compressed ones, or nothing exactly when there is none or it is compressed |
| `EspFsRoundTrip.HandleReadsFile` | user/espfs.c_:133-140 | a fresh handle on such a record is valid and at the start of exactly those bytes |
| `EspFs.LeadingSlashesIgnored` | user/espfs.c_:110-111 | any number of leading slashes in a request makes no difference |
| `EspFs.AskableNames` | user/espfs.c_:110-111 | a stored name can be asked for if and only if it does not start with a slash |
| `HttpHead.StrStrFinds` | user/server.c:318 | what strstr reports is an occurrence with no NUL before its end |
| `HttpHead.StrStrIsFirst` | user/server.c:318 | and no later than any other such occurrence |
| `HttpHead.HeadLength` | user/server.c:317-318 | the head is the shortest NUL-free prefix that ends with a blank line |
| `HttpHead.LinesPartition` | user/server.c:323-331 | the delivered lines hold no line end and, joined by CRLF, give the text back |
| `HttpHead.DeliveredIsTheHead` | user/server.c:312-331 | a complete head is exactly its delivered lines, in order and once, and a blank line |
| `HttpHead.NothingDelivered` | user/server.c:312-331 | no line is delivered before the head is complete, nor for an empty head |
| `HttpHead.LineBytes` | user/server.c:317-326 | the byte values of a blank line and a line end |
| `HttpHead.LaterBytesIgnored` | user/server.c:312-350 | bytes after the head change neither the head nor its lines |
| `Httpd.SeesBlankLine` | user/server.c:315-318 | in the NUL-terminated buffer strstr sees a blank line at a line feed exactly when the bytes received so far complete the head |
| `Httpd.Connection.RecvByte` | user/server.c:312-350 | one byte keeps the connection's state equal to what the whole stream received so far determines |
| `Httpd.Connection.CutLines` | user/server.c:323-331 | the in-place loop hands over exactly the lines of the head |
| `Httpd.Connection.RecvCb` | user/server.c:299-353 | whatever the packet boundaries, the lines handed over depend only on the concatenated bytes |
| `Httpd.NulBlocksHead` | user/server.c:315-318 | after a NUL in an unfinished head no further input completes it |
| `Httpd.FitsExactly` | user/server.c:313-316 | the terminating NUL stays inside the head buffer at every collected byte if and only if the head, or the stream while it is incomplete, is shorter than the buffer |
| `Httpd.Connection.Collect` | user/server.c:315 | a byte is appended unless the buffer is full, and headPos is then where TerminatorAt says the NUL goes |
| `Fields.JoinSplit` | user/server.c:59-71 | the fields hold no separator and, joined, give the string back |
| `Fields.SplitJoin` | user/server.c:59-71 | any separator-free fields joined by the separator are the fields of the result |
| `Fields.Scan` | user/server.c:61-71 | the scan closes as many fields as it looks for, or as there are, and returns the extent of the last of them |
| `Fields.GetValue` | user/server.c:59-86 | returns the length and text of the index-th field, and -1 with an empty string exactly when it is missing or empty |
| `Calendar.YearIsItsMonths` | user/time_utils.c:13-18 | the month tables add up to the year lengths |
| `Calendar.GetCalendar` | user/time_utils.c:16-18 | the table chosen holds the month lengths of the year |
| `Calendar.GetYear` | user/time_utils.c:20-27 | year start plus rest is the input, and the rest is at most one year and positive after 1970 |
| `Calendar.GetMonth` | user/time_utils.c:29-37 | never runs past December; month start plus rest is the input, and the rest is at most one month |
| `Calendar.MonthStartClosed` | user/time_utils.c:13-18 | the start of a month in closed form, without the tables |
| `Calendar.MonthLengths` | user/time_utils.c:13-14 | each month is as long as the closed form says |
| `Calendar.GetDateTime` | user/time_utils.c:57-71 | year, month, day and time of day recombine, by a closed form without tables, to exactly the input epoch, which is at most the end of that month |
| `Calendar.RendersClosed` | user/time_utils.c:57-71 | every rendering means that closed form |
| `Calendar.LaterEpochsRenderLater` | user/time_utils.c:57-71 | a larger epoch always gives a lexicographically later date and time |
| `Calendar.RenderingIsUnique` | user/time_utils.c:57-71 | an epoch has only one such rendering |
| `Calendar.DayExistsExactly` | user/time_utils.c:20-71 | the day exists in its month if and only if the epoch is 0 or not a month start; otherwise it is one day too many, at midnight |
| `Calendar.EveryMonthEndIsLate` | user/time_utils.c:20-71 | the midnight that ends any month is rendered as the day after its last |
| `Calendar.LateMidnight` | user/time_utils.c:20-71 | so 2678400 is rendered as 32 January 1970 |
| `Calendar.YearStartClosed` | user/time_utils.c:20-27 | the year loop in closed form |
| `Calendar.GregorianYearClosed` | user/time_utils.c:6-9 | the Gregorian years that the code's rule is compared with, in closed form |
| `Calendar.GregorianExactly` | user/time_utils.c:6-9 | the rendered day exists and is the Gregorian one if and only if the epoch is before 29 February 2100 and is not a month start after 0 |
| `Sntp.Client.Init` | user/sntp.c:626-646 | init does nothing on a running client; otherwise it resets the timeout and, if it gets a socket, sends the first request |
| `Sntp.Client.SntpRequest` | user/sntp.c:590-620 | waits for DNS, sends, or arms a retry, each with its timer |
| `Sntp.Client.SntpDnsFound` | user/sntp.c:567-582 | a DNS answer sends the request or retries |
| `Sntp.Client.SntpRecv` | user/sntp.c:433-515 | a packet cancels pending timers, then either sets the clock and schedules the next update or retries |
| `Sntp.Client.SntpRetry` | user/sntp.c:366-388 | arms the next request with the old timeout, then doubles it within its limit |
| `Sntp.ClassifiesExactly` | user/sntp.c:451-497 | a packet is valid if and only if it has 48 bytes, mode 4 or 5 and a stratum other than 0, which is a kiss of death |
| `Sntp.StepConserves` | user/sntp.c:366-620 | timer and DNS events keep the number of pending timers and queries; a packet leaves at least one |
| `Sntp.StepCounts` | user/sntp.c:366-620 | each event removes the timer that fired or those cancelled and adds those it arms, by kind, and counts queries |
| `Sntp.TimersArmed` | user/sntp.c:366-620 | in every run the timers armed are a function of the events: a retry waits 3000*2^min(k,3) ms after k retries, a sent request is watched for 3000 ms, a valid reply is followed by an update after 3600000 ms |
| `Sntp.PacketsSent` | user/sntp.c:522-561 | in every run exactly one packet is sent for each resolved request with memory |
| `Sntp.NeverSilent` | user/sntp.c:366-620 | in every run something stays pending that will make the client act |
| `Sntp.OneChainExactly` | user/sntp.c:433-515 | there is exactly one pending obligation throughout a run if and only if no packet arrives while a DNS query is outstanding |
| `Sntp.SecondChain` | user/sntp.c:433-515 | a run of one packet during the first DNS query that ends with two pending obligations |
| `Sntp.ChainsAreBounded` | user/sntp.c:433-515 | each such packet adds at most one more |
| `Sntp.TimeoutIsBackoff` | user/sntp.c:376-387 | in every run the retry timeout is 3000*2^min(k,3) for k retries since the last valid reply |
| `Sntp.ClockFollowsReplies` | user/sntp.c:302-332 | in every run the clock is the last server time moved to 1970, plus the seconds ticked since, in 32 bits |
| `Sntp.ReplySetsClock` | user/sntp.c:302-309 | a valid reply sets the clock to its Unix time in 32 bits |
| `Sntp.TicksOnceSet` | user/sntp.c:329-330 | the clock ticks exactly when a valid reply has set it |
| `Sntp.EveryRun` | user/sntp.c:366-646 | all of this, timers, packets and clock included, for every run that starts with a successful init |

## Left out

- Display transfer, commands, scrolling, `begin`, the start-up picture in the buffer, panels other than 128x64: hardware or data.
- GFX text, bitmaps, outlines of rectangles and triangles, rounded rectangles: they add only easy members.
- The heatshrink encoder and decoder: the writer takes the encoder's output as given, and the reader is the build without heatshrink, which refuses compressed records. Also argument parsing (an unknown compression ends the program), `stat`, `mmap`, file descriptors; an empty file cannot be mapped and is skipped, as the error return says.
- REST handlers, `ServerParseHeaderURL` (the strings handed to it are logged in order), response formatting, the connection pool. The branch of `httpdRecvCb` for a request body is never reached, because nothing in that file makes `postLen` positive.
- `sntp_stop`, several servers, real time: a pending timer or query may fire at any moment. The timer queue is a number per callback, and cancelling removes at least one matching timer when there is one.
- The writer's host stores the magic word as the reader does (little-endian); only the converted fields are independent of the host.
- GfxLines.DrawLine: requires that the coordinate differences fit 16 bits and that the loop counter can pass the far end; past that the source's own arithmetic wraps.
- GfxRects.GenericFastVLine: requires the same of the line it draws (`GfxRects.ColumnFits`).
- GfxRects.GenericFastHLine: requires the same of the line it draws (`GfxRects.RowFits`).
- GfxRects.OverrideAgreesWithDefault: speaks of lines within that bound; where y + h - 1 leaves 16 bits or the far end is 32767 the default draws other pixels or does not end.
- GfxOverrides.VerticalAgreesExactly: requires ColumnFits, for the same reason.
- GfxOverrides.HorizontalAgreesExactly: requires RowFits, for the same reason.
- GfxRects.FillRect: requires x + w < 32768, since the 16-bit counter could never reach a larger right edge and the loop would not end.
- GfxCircles.DrawCircle: covers r up to 16384, where twice the radius still fits 16 bits; negative radii are included.
- GfxCircles.FillCircleHelper: covers r up to 16384, for the same reason.
- GfxCircles.FillCircle: covers r up to 16384, for the same reason.
- GfxTallHalves.HalvesLit: covers BLACK and WHITE, r below 16384, delta >= -1 and 2*r+1+delta below 32768; below that a column may ask for a negative length.
- GfxCirclePixels.CircleLit: covers r up to 16384, as DrawCircle does.
- GfxCirclePixels.DiscLit: covers BLACK and WHITE (for INVERSE see `GfxCirclePixels.DiscLitTimes`) and r below 16384, because 2*r+1 must fit 16 bits.
- GfxCirclePixels.DiscLitTimes: covers r below 16384, for the same reason, and the three colours.
- GfxCirclePixels.OutlineOverDisc: covers BLACK and WHITE and r below 16384; with INVERSE the outline is flipped as often as `GfxCircleTimes.Times` says.
- GfxTriangle.FillTriangle: requires differences, widths and counters that fit 16 bits, and describes the picture for the three colours only.
- EspFs.EspFsOpen: requires flash contents on which the walk stays inside the flash, advances at every record and never compares past the 256-byte name buffer; every image meets this (`EspFsSearch.SearchImage`).
- EspFsSearch.SearchRecords: requires 256 bytes of flash from the last header on, which the reader copies along with the last name, and that stored name and request are not both of 256 bytes or more, which the name buffer cannot tell apart.
- EspFsSearch.SearchImage: requires the same.
- EspFsRoundTrip.StoreAndFetch: requires the same, and that the flash is a whole number of words.
- EspFs.MemcpyAligned: requires flash to be a whole number of words.
- Httpd.Connection.RecvCb: requires that the head stays shorter than its 1024-byte buffer, which is when every store stays inside it (`Httpd.FitsExactly`).
- Fields.GetValue: requires an index >= 0, a NUL-free string and a buffer that holds the field the scan stops at.
- Calendar.GetYear: returns the updated pointer argument as a second result.
- Calendar.GetMonth: returns the updated pointer argument as a second result.
