# TheEyes — template matching and polling, modelled in Dafny

TheEyes is a C# screen-automation library. It captures an area of the
screen and looks for a pattern image in the capture. It can also wait
until the pattern shows up, vanishes, or shows up a given number of
times. This project models the core of that library and proves
properties of the model:

- **Correlation surface** (`surface.dfy`, module `Surface`). The scores
  that template matching produces sit in a two-dimensional array, one
  score per placement of the pattern. The matchers read the extrema of a
  window of it (`MinMaxOf`), with ties going to the first cell in
  row-major order, and zero sub-rectangles of it in place (`SetZero`).
- **Current matcher** (`peak_matcher.dfy`, module `PeakMatcher`).
  `GetMax` is the global maximum. `GetMatches` repeatedly takes the
  global maximum, records it, and zeroes a pattern-sized window centred
  on it, until the maximum falls below the threshold.
- **Older matcher** (`scan_matcher.dfy`, module `ScanMatcher`).
  `GetMatches` scans the surface row by row. A cell that clears the
  threshold opens a pattern-sized window at that cell. The best cell of
  the window is emitted, the window is zeroed, and the scan jumps to just
  past the emitted match.
- **Patterns** (`patterns.dfy`, `image_patterns.dfy`). Both generations
  have constructor chains with defaults. Image patterns also gate the
  matcher's results by the pattern's own threshold.
- **Graphics** (`graphics.dfy`, module `Graphics`). `Find` gates the best
  placement by the threshold. `FindAll` picks a filler patch, then
  repeatedly records the best placement and pastes the filler over it in
  the caller's image, until nothing clears the threshold.
- **Areas** (`areas.dfy`, module `Areas`). An `Area` is a screen
  rectangle with derived corner and centre points, point offsets and
  sub-areas. It also has the four timeout-bounded polling loops.

The vision library's template matching is not modelled; its output is an
input here. Matchers receive the correlation surface as an
`array2<real>`. `Graphics` and `Areas` receive the matcher as a function
from an image to its `MinMax`. Screen captures and stopwatch readings are
input sequences: `frames[k]` is the k-th capture and `clock[k]` the
elapsed time at the k-th test of a loop condition. A valid clock never
goes negative and never goes back, and eventually reaches the timeout.

Design choices:

- **The two generations share one pattern type.** `Pattern` and
  `ImagePattern` hold the same three values, and both `CcoeffNormed`
  classes appear as one `MatcherKind` datatype with two values. The
  matcher interfaces (abstract classes) dispatch on that value.
- **The default threshold is a parameter.** It is a mutable static
  property starting at 0.75 (`InitialDefaultThreshold`). Each defaulting
  constructor receives the default current at construction time as a
  parameter. So a pattern keeps the default it was built with.
- **Coordinates differ between `WaitFor` and `WaitAny`.**
  - `WaitFor` and `WaitVanish` report matches relative to the captured
    area, because they go through `Find`.
  - `WaitAny` moves its match to screen coordinates. `Sighting` states
    this as `Moved` applied to `Find`'s result.

## Model

| member | source | states |
|---|---|---|
| Surface.MinMaxOf | Pattern/CV/Image/Matcher/CcoeffNormed.cs:33 | The result holds the largest and smallest scores of the window. Each location is the first cell, in row-major order, holding that value. |
| Surface.RowExtrema | ImageMatcher/CcoeffNormed.cs:69 | One row of the extrema scan. Extrema over the cells before the row stay extrema over the cells before the next row, with first-occurrence locations. |
| Surface.Visit | ImageMatcher/CcoeffNormed.cs:69 | One cell of the scan: the max and its location change only on a strictly larger value, and the min and its location only on a strictly smaller one. Otherwise the earlier location is kept. |
| Surface.VisitKeeps | ImageMatcher/CcoeffNormed.cs:69 | Reading one more cell keeps the extrema of the cells read so far, each at its first occurrence in row-major order. |
| Surface.SetZero | Pattern/CV/Image/Matcher/CcoeffNormed.cs:71 | Cells of the surface inside the rectangle become 0. Every other cell keeps its score. |
| Surface.Clip | ImageMatcher/CcoeffNormed.cs:67 | A cell is in the clipped rectangle exactly when it is in the rectangle and on the surface. |
| PeakMatcher.GetMax | Pattern/CV/Image/Matcher/CcoeffNormed.cs:29-36 | The match sits at the first global maximum of the surface, scores that maximum, and has the search image's size. |
| PeakMatcher.SuppressionRect | Pattern/CV/Image/Matcher/CcoeffNormed.cs:47-70 | The window's origin is half the search size up and left of the peak, with a negative origin moved to 0 by shrinking the size. The right and bottom edges stay put. The window covers the peak. |
| PeakMatcher.GetMatches | Pattern/CV/Image/Matcher/CcoeffNormed.cs:45-76 | See the PeakMatcher.GetMatches list under the table. |
| PeakMatcher.ExtractAll | Pattern/CV/Image/Matcher/CcoeffNormed.cs:54-73 | The extraction loop keeps the emission invariant and ends with every cell below the threshold. It terminates because the set of cells clearing a positive threshold shrinks each round. |
| PeakMatcher.ExtractPeak | Pattern/CV/Image/Matcher/CcoeffNormed.cs:56-72 | One round: the emitted match is the current maximum. The surface is the previous one with the peak's window zeroed. The extrema are recomputed, and the set of cells clearing the threshold strictly shrinks. |
| PeakMatcher.EmitPeak | Pattern/CV/Image/Matcher/CcoeffNormed.cs:56-71 | Appending the current first maximum and zeroing its window keeps the emission invariant and removes at least one cell clearing the threshold. |
| PeakMatcher.AboveShrinks | Pattern/CV/Image/Matcher/CcoeffNormed.cs:71-72 | Zeroing the window of a peak that clears a positive threshold removes the peak from the cells clearing it and adds none. |
| PeakMatcher.FirstPeak | Pattern/CV/Image/Matcher/CcoeffNormed.cs:53-56 | The first emitted match is the first global maximum of the original surface. |
| PeakMatcher.Remaining | Pattern/CV/Image/Matcher/CcoeffNormed.cs:71-72 | The surface a round reads: the original with the window of every earlier match zeroed, and every other cell unchanged. |
| PeakMatcher.RoundMaximum | Pattern/CV/Image/Matcher/CcoeffNormed.cs:54-72 | Match j is the first global maximum of the original surface with the windows of matches 0 to j−1 zeroed. |
| PeakMatcher.RoundAppend | Pattern/CV/Image/Matcher/CcoeffNormed.cs:56-72 | Appending the first maximum of the current surface keeps every match the maximum of the surface its round read. |
| PeakMatcher.TracksIsRemaining | Pattern/CV/Image/Matcher/CcoeffNormed.cs:71 | The worked surface is exactly `Remaining` of the matches emitted so far. |
| PeakMatcher.DominatedAppend | Pattern/CV/Image/Matcher/CcoeffNormed.cs:71-72 | After zeroing a window, no cell beats the maximum just emitted. |
| PeakMatcher.NoExitAtNonPositive | Pattern/CV/Image/Matcher/CcoeffNormed.cs:54-72 | With a threshold of 0 or less, a round leaves a cell clearing the threshold, the zeroed peak. So once the loop starts, it never ends. |
| PeakMatcher.OrderAppend | Pattern/CV/Image/Matcher/CcoeffNormed.cs:54-56 | An appended match keeps the matches qualified, at distinct locations, and in non-increasing score order. |
| PeakMatcher.PeaksAppend | Pattern/CV/Image/Matcher/CcoeffNormed.cs:56-71 | Each emitted match sits on a cell of the original surface holding its score, and that cell is now zero. |
| PeakMatcher.TracksAppend | Pattern/CV/Image/Matcher/CcoeffNormed.cs:71 | The surface stays the original with the window of every emitted match zeroed. |
| PeakMatcher.PeakUntouched | Pattern/CV/Image/Matcher/CcoeffNormed.cs:53-56 | A non-zero cell of the worked surface lies in no earlier window and still holds its original score. |
| PeakMatcher.SuppressedAppend | Pattern/CV/Image/Matcher/CcoeffNormed.cs:71 | A cell is suppressed after one more match exactly when it was suppressed before or lies in the new window. |
| PeakMatcher.NothingEmitted | Pattern/CV/Image/Matcher/CcoeffNormed.cs:50-53 | Before the first round, the invariant holds with no matches on the untouched surface. |
| PeakMatcher.Exhausted | Pattern/CV/Image/Matcher/CcoeffNormed.cs:54 | When the loop exits, every original cell clearing the threshold lies in some emitted window. The list is empty exactly when no original cell cleared it. |
| ScanMatcher.GetMax | ImageMatcher/CcoeffNormed.cs:37-46 | As PeakMatcher.GetMax: the first global maximum, with the search image's size. |
| ScanMatcher.GetMatches | ImageMatcher/CcoeffNormed.cs:55-79 | See the ScanMatcher.GetMatches list under the table. |
| ScanMatcher.ScanRow | ImageMatcher/CcoeffNormed.cs:62-75 | Scanning one row only appends to the matches and triggers so far. It keeps the scan invariant from the row's first cell to the next row's. |
| ScanMatcher.ScanCell | ImageMatcher/CcoeffNormed.cs:62-75 | One step along the row moves the scan forward, only appends to the matches and triggers, and keeps the scan invariant: a cell clearing the threshold on the current surface triggers, any other is passed over. |
| ScanMatcher.Trigger | ImageMatcher/CcoeffNormed.cs:64-74 | The returned match is the first maximum of the window opened at the trigger, on the surface as it was, with the search size. The window is zeroed, and the returned column is the match's last column. The scan invariant holds from the next column with the match and trigger appended. |
| ScanMatcher.WindowBest | ImageMatcher/CcoeffNormed.cs:67-70 | The match is the first maximum of the window opened at the trigger, in surface coordinates, with the search size. |
| ScanMatcher.ScanHit | ImageMatcher/CcoeffNormed.cs:66-73 | The state after a trigger satisfies the scan invariant: emissions, order, zeroed windows and completeness up to just past the match. |
| ScanMatcher.WindowMaxOf | ImageMatcher/CcoeffNormed.cs:67-70 | The extrema of the clipped window name the first cell of the window, in row-major order, holding its largest score. |
| ScanMatcher.Left | ImageMatcher/CcoeffNormed.cs:73 | The surface after some triggers: the original with each trigger's window zeroed, and every other cell unchanged. |
| ScanMatcher.TracksIsLeft | ImageMatcher/CcoeffNormed.cs:73 | The worked surface is exactly `Left` of the triggers so far. |
| ScanMatcher.TriggerStep | ImageMatcher/CcoeffNormed.cs:64-73 | On the original surface with the windows of triggers 0 to i−1 zeroed, trigger i clears the threshold and match i is the first maximum of trigger i's window. |
| ScanMatcher.TriggerAppend | ImageMatcher/CcoeffNormed.cs:64-70 | Appending a trigger that clears the threshold on the current surface, with the first maximum of its window, keeps this for every trigger. |
| ScanMatcher.HitVisited | ImageMatcher/CcoeffNormed.cs:64-73 | After a trigger, every scanned cell clearing the threshold on the current surface is a trigger or was jumped over, now up to just past the new match. |
| ScanMatcher.ReadIsFinal | ImageMatcher/CcoeffNormed.cs:64-73 | At a cell that is no trigger, the surface the scan read there equals the surface it leaves, since a window only reaches cells at or after its trigger. |
| ScanMatcher.ScanTriggersOnRead | ImageMatcher/CcoeffNormed.cs:62-75 | After the scan, a cell that was not jumped over and clears the threshold on the surface read there (the original with the windows of the earlier triggers zeroed) is a trigger, for any threshold. |
| ScanMatcher.HitEmissions | ImageMatcher/CcoeffNormed.cs:70 | The emitted match clears the threshold, has the search size and lies in its trigger's window. With a positive threshold it scores its original cell. |
| ScanMatcher.HitOrder | ImageMatcher/CcoeffNormed.cs:70-71 | The new trigger comes after all earlier ones in row-major order and at or past the end of any earlier match in its row. |
| ScanMatcher.HitComplete | ImageMatcher/CcoeffNormed.cs:71-73 | Every scanned cell that cleared the threshold is zeroed or was jumped over, now up to just past the new match. |
| ScanMatcher.HitUncovered | ImageMatcher/CcoeffNormed.cs:64-73 | With a positive threshold, a new trigger lies in no earlier window, since those cells are zero. |
| ScanMatcher.ScanMiss | ImageMatcher/CcoeffNormed.cs:64 | A cell below the threshold triggers nothing and keeps the scan invariant one column on. |
| ScanMatcher.ScanNextRow | ImageMatcher/CcoeffNormed.cs:60-62 | Finishing a row keeps the scan invariant at the start of the next row. |
| ScanMatcher.ZeroedAppend | ImageMatcher/CcoeffNormed.cs:73 | A cell is zeroed after one more trigger exactly when it was before or lies in the new window. |
| ScanMatcher.SkippedAppend | ImageMatcher/CcoeffNormed.cs:71 | Skipped cells stay skipped. The cells between a new trigger and its match's end become skipped. |
| ScanMatcher.ScanStart | ImageMatcher/CcoeffNormed.cs:57-60 | Before the scan, the invariant holds with no matches on the untouched surface. |
| Patterns.ConstructorFields | Pattern.cs:34-73 | Each constructor stores the values it is given. A missing threshold becomes the current default, 0.75 while it was never set; a missing matcher becomes the scanning matcher. |
| Patterns.DefaultsAgree | Pattern.cs:51-73 | `Pattern(bitmap)` equals `Pattern(bitmap, CcoeffNormed)` and carries the default it was built with. A different default changes only the threshold. |
| ImagePatterns.ConstructorFields | Pattern/CV/Image/ImagePattern.cs:35-74 | Image-pattern constructors store what they are given. They default the matcher to the peak-extracting matcher and otherwise match the older chain; under the initial default the threshold is 0.75. |
| ImagePatterns.GetMax | Pattern/CV/Image/ImagePattern.cs:87-92 | Nothing is returned exactly when every score is below the threshold; equality is accepted. Otherwise the result is the matcher's first maximum with the pattern's size. |
| ImagePatterns.GetMatches | Pattern/CV/Image/ImagePattern.cs:98-101 | The pattern's own matcher is run with the pattern's threshold and its result is returned unchanged: the scanning matcher's `ScanResult` or the peak matcher's `PeakResult`. Every match clears that threshold and has the pattern's size. |
| Graphics.Find | Imaging/GraphicX.cs:49-59 | Nothing is returned exactly when the best score is below the threshold; equality is accepted. Otherwise the match is at the best placement, with the pattern's size and the best score. |
| Graphics.Filler | Imaging/GraphicX.cs:86-117 | See the Graphics.Filler list under the table. |
| Graphics.SubGrid | Imaging/GraphicX.cs:90 | The patch has the requested size, and each pixel is the image's pixel at the offset position. |
| Graphics.Paste | Imaging/GraphicX.cs:123 | Pasting a patch keeps the image's dimensions; `PasteCells` states which cells change. |
| Graphics.PasteCells | Imaging/GraphicX.cs:123 | Pasting overwrites exactly the cells under the patch with the patch's pixels and keeps every other cell. |
| Graphics.PasteThenSubGrid | Imaging/GraphicX.cs:90-123 | Reading back the region a patch was pasted over returns the patch. |
| Graphics.Extract | Imaging/GraphicX.cs:118-125 | See the Graphics.Extract list under the table. |
| Graphics.ExtractCovers | Imaging/GraphicX.cs:118-125 | The image left behind is the original with the filler pasted at each match's location in turn. |
| Graphics.ExtractIsRepeatedFind | Imaging/GraphicX.cs:118-125 | Match j is exactly what `Find` reports on the original image with the filler pasted over the first j matches. |
| Graphics.ExtractEmpty | Imaging/GraphicX.cs:118 | With fuel left, the search finds nothing exactly when `Find` finds nothing. |
| Graphics.SearchStep | Imaging/GraphicX.cs:119-124 | One round moves the best placement's match from the search still to run to the matches found. |
| Graphics.Search | Imaging/GraphicX.cs:118-125 | The in-place loop returns `Extract` of the image it started from, and the image ends as that outcome's final image. |
| Graphics.PasteInto | Imaging/GraphicX.cs:123 | The array's pixels become `Paste` of its old pixels. |
| Graphics.Pixels | Imaging/GraphicX.cs:81 | The image buffer read as rows of pixels, with its dimensions. |
| Graphics.FindAll | Imaging/GraphicX.cs:81-129 | See the Graphics.FindAll list under the table. |
| Graphics.FindAllInCopy | Imaging/GraphicX.cs:66-72 | Finding all occurrences in a bitmap gives the search's matches on that image, or the rejection. The caller's image is a value and is not changed. |
| Areas.Half | Area.cs:113 | C# division by two truncates toward zero: for n ≥ 0 the result r has 2r ≤ n ≤ 2r+1; for n < 0, 2r−1 ≤ n ≤ 2r. |
| Areas.CenterInside | Area.cs:113 | The centre lies between the left and right edges and between the top and bottom edges, for either sign of the size. For a non-negative width it is the midpoint rounded toward the left. |
| Areas.Area.SetRectangle | Area.cs:107-119 | The rectangle is replaced and the centre and four corners are derived from it. The wait time is unchanged. |
| Areas.Area.constructor | Area.cs:125-131 | A new area has the given rectangle, consistent derived points and a wait time of 10000 ms. |
| Areas.Area.Offset | Area.cs:59-65 | The screen point minus the area's origin is the given relative point. |
| Areas.Area.OffsetPoint | Area.cs:72-75 | The point overload agrees with `Offset(x, y)`. |
| Areas.Area.SubArea | Area.cs:194-197 | The new area sits at `OffsetPoint(r.Location)` with `r`'s size and default settings. |
| Areas.SubRect | Area.cs:194-197 | A sub-rectangle keeps its size and lies at its relative offset from the outer origin. |
| Areas.SubRectCompose | Area.cs:194-197 | A sub-area of a sub-area is the sub-area at the summed offset. |
| Areas.Deadline | Area.cs:340 | The index of the first stopwatch reading that reaches the timeout. Every earlier reading is below it. |
| Areas.NoTimeNoDeadline | Area.cs:336-345 | With a timeout of 0 or less the first condition test fails, so no capture is taken. |
| Areas.FirstHit | Area.cs:340-343 | The first sample that shows a match, or nothing exactly when no sample does. Every earlier sample shows nothing. |
| Areas.FirstHitAppend | Area.cs:340-343 | The first hit of two consecutive runs of samples is the first run's, or else the second run's. |
| Areas.Area.WaitFor | Area.cs:336-345 | See the Areas.Area.WaitFor list under the table. |
| Areas.Area.WaitForCount | Area.cs:364-373 | As written: for a count of 1 or more it returns an empty list without capturing. For a count of 0 it captures until the deadline and returns the last result. |
| Areas.CountWaitIntended | Area.cs:364-373 | With the guard reversed, for a count of 1 or more the result has at least `count` matches exactly when some capture before the deadline had that many. |
| Areas.Area.WaitForCountIntended | Area.cs:364-373 | With the guard reversed, the result is the first capture with enough matches, otherwise the last capture before the deadline. |
| Areas.InvertedCountGuard | Area.cs:368 | Whenever a capture before the deadline shows at least `count` ≥ 1 matches, the written loop still returns an empty list, while the reversed guard returns at least `count` matches. |
| Areas.InvertedCountGuardExample | Area.cs:368 | One capture with one match, waiting for one: the written loop returns `[]` and the reversed guard returns that match. |
| Areas.Area.WaitVanish | Area.cs:391-399 | See the Areas.Area.WaitVanish list under the table. |
| Areas.FirstFound | Area.cs:424-433 | The index of the first pattern, in array order, that `Find` finds in the frame; all earlier ones are not found. |
| Areas.Moved | Area.cs:429-430 | A match moved to screen coordinates keeps its size and score and sits at its offset from the area's origin, as `SubRect` places it. |
| Areas.Sighting | Area.cs:421-434 | One capture yields nothing exactly when no pattern is found. Otherwise it yields the first found pattern's `Find` result moved to screen coordinates, even if a later pattern scores higher. |
| Areas.Area.Sight | Area.cs:424-433 | The foreach-with-break over the patterns computes `Sighting` for the area's origin. |
| Areas.Area.WaitAny | Area.cs:416-437 | See the Areas.Area.WaitAny list under the table. |

Rows with longer contracts:

- **PeakMatcher.GetMatches** (the predicate `PeakResult`)
  - Every match clears the threshold, has the search size, and sits on a distinct original cell holding its score.
  - Scores never rise along the list.
  - Each match is the first global maximum of the original surface with the windows of the earlier matches zeroed (`RoundMaxima`); so the first match is the first global maximum.
  - At the end the surface is the original with every match's window zeroed, and every cell is below the threshold.
  - Every original cell clearing the threshold lies in some match's window.
  - The list is empty exactly when no cell cleared the threshold.
- **ScanMatcher.GetMatches** (the predicate `ScanResult`)
  - Each match pairs with its trigger cell. The match clears the threshold, has the search size and lies in the trigger's window. With a positive threshold it scores its original cell.
  - Each trigger clears the threshold on the surface the scan reads there, the original with the windows of the earlier triggers zeroed, and its match is the first maximum of its window on that surface (`TriggerSteps`).
  - Triggers come in row-major order, and a later trigger in the same row lies past the earlier match.
  - With a positive threshold, no trigger lies in an earlier window.
  - The surface ends as the original with every window zeroed.
  - Every original cell clearing the threshold was zeroed or jumped over.
  - Every cell clearing the threshold on the final surface, which at a cell that is no trigger is what the scan read there, is a trigger or was jumped over. With a threshold of 0 or less this includes zeroed cells, which trigger again.
- **Graphics.Filler**
  - The pattern is rejected exactly when the worst placement and both probes all score at least the threshold.
  - Otherwise, if the worst placement scores below the threshold, the filler is the image's patch at that placement.
  - Otherwise the filler is the first probe scoring below the threshold: the first probe when it does, else the second.
  - The filler always has the pattern's size.
- **Graphics.Extract**
  - Every match clears the threshold and has the pattern's size.
  - At most `fuel` rounds are run.
  - A search that completes leaves an image whose best score is below the threshold.
  - The image keeps its dimensions.
- **Graphics.FindAll**
  - A pattern without a usable filler is rejected, and the image is left unchanged.
  - Otherwise the result is the matches of `Extract` on the original image.
  - The image ends as that search's final image.
- **Areas.Area.WaitFor**
  - The result is `FirstHit` of the `Find` results of the captures before the deadline: the first capture in which the pattern is found, or nothing.
  - Capturing stops at that capture; without a find it runs to the deadline.
  - No capture is taken when the timeout is 0 or less.
- **Areas.Area.WaitVanish**
  - At least one capture is taken, and at most one after each condition test before the deadline.
  - Every capture but the last still finds the pattern.
  - Captures stop at the first one that finds nothing, or at the deadline.
- **Areas.Area.WaitAny**
  - One capture is taken per round.
  - The result is `FirstHit` of the captures' `Sighting`s at the area's origin before the deadline.
  - Capturing stops at the first capture that shows a pattern; without one it runs to the deadline.

## Left out

- **Template matching.** The correlation computation is the vision library's. The matchers receive the surface; `Graphics` and `Areas` receive the matcher as an image-to-`MinMax` function.
- **Right and bottom edges of the zeroed windows are clipped.** The library zeroes `matchTemplate.GetSubRect(...)` and copies `matchTemplate.Copy(foundRect)` without clipping them. The model clips both windows to the surface, which leaves out whatever the vision library does with a window that runs past the edge.
- **PeakMatcher.GetMatches requires a positive threshold, or a surface where nothing clears the threshold.** With a threshold of 0 or less and some cell clearing it, the library's loop never ends: zeroed cells keep clearing the threshold (`NoExitAtNonPositive`). That non-terminating run is not modelled.
- **Graphics.FindAll: fuel.** The library's loop is unbounded, because the external matcher decides whether pasting lowers the score. The model allows at most `fuel` rounds and reports whether the search completed.
- **Graphics.Filler: probe images.** The two synthetic probes are white and black polygons filled at the pattern's size. They are inputs here; their rasterisation is not modelled.
- **Graphics.Find on a bitmap.** The overload that converts a bitmap first is the same threshold gate on a value and has no member of its own.
- **`Area.Find` and `Area.FindAll`.** They capture the area and call `Find` or `FindAll` on the capture. The polling loops apply `Graphics.Find` to the given frames, which models this composition.
- **`WaitFor(count)`: the capture results.** The loop receives each capture's `FindAll` result as an input list. So an invalid-pattern error inside that loop is not modelled.
- **Overloads without a timeout, and list overloads.** Those of `WaitFor`, `WaitFor(count)`, `WaitVanish` and `WaitAny` pass `WaitTimeMilliseconds`, or the list as an array, to the modelled methods. They have no members of their own.
- **Other `Area` constructors.** The constructors from a screen, the virtual screen, a point and size, or four integers build the same rectangle and delegate to `Area(Rectangle)`. Screen queries are I/O.
- **Screen capture and clocks.** `GetDisplayingImage` and `Stopwatch` are inputs (`frames`, `clock`).
- **Constructors from a file name.** They load a bitmap from disk, which is I/O; they then delegate to the modelled chains.
- **Integer width.** Coordinates and sizes are unbounded integers, so 32-bit overflow in `Offset`, `Right` or `Bottom` is not modelled.
- **Scores are `real`.** Floating-point rounding of the correlation scores is not modelled.
- **Matcher interfaces and lazy singletons.** The interfaces are a two-valued datatype, and the singleton instances are its values.
- **Other operations and disposal.** Highlighting, captions, OCR text search and `Dispose` are not modelled; they are drawing, OCR and resource release.

## Findings

| source | as written | input that shows it | evidently intended | confidence | as-written member | corrected member |
|---|---|---|---|---|---|---|
| Area.cs:368 | The loop runs while `result.Count >= count`, starting from an empty list. For `count` ≥ 1 it returns an empty list at once without capturing; for `count` = 0 it captures until the timeout. | `count` = 1 with the first capture showing one match and time left: returns `[]` | Loop while `result.Count < count`: return the first capture with at least `count` matches, or the last capture at the timeout | not executed | Areas.Area.WaitForCount, Areas.InvertedCountGuard | Areas.Area.WaitForCountIntended, Areas.CountWaitIntended |
