/**
  Plain values shared by the matching and polling layers: points and
  rectangles in integer screen coordinates, the result of a match, the
  extrema report of a correlation surface, and pixel grids.
 */
module Types {

  datatype Option<T> = None | Some(value: T)

  datatype Result<T, E> = Success(value: T) | Failure(error: E)

  /** Errors the matching layer raises instead of returning a value. */
  datatype PatternError = InvalidPattern

  /** A point: x is the column, y is the row. */
  datatype Point = Point(x: int, y: int)

  /** A rectangle given by its top-left corner and its (possibly negative) size. */
  datatype Rect = Rect(x: int, y: int, width: int, height: int)
  {
    function Left(): int { x }
    function Top(): int { y }
    function Right(): int { x + width }
    function Bottom(): int { y + height }
    function Location(): Point { Point(x, y) }
  }

  /** A found occurrence: the matched region and its similarity score. */
  datatype Match = Match(rect: Rect, similarity: real)

  /** The extrema of a correlation surface: values and their locations. */
  datatype MinMax = MinMax(min: real, max: real, minLoc: Point, maxLoc: Point)

  /**
    The concrete matching strategies: normalised correlation coefficient in
    its older, scanning form and in its current, peak-extracting form.
   */
  datatype MatcherKind = ScanCcoeffNormed | PeakCcoeffNormed

  /** A pixel buffer, row by row; a pixel is an opaque colour value. */
  type Grid = seq<seq<int>>

  /** `g` has `h` rows of `w` pixels each. */
  predicate IsGrid(g: Grid, w: int, h: int)
  {
    |g| == h && forall i :: 0 <= i < |g| ==> |g[i]| == w
  }

  /** Width of a grid, 0 for an empty one. */
  function GridWidth(g: Grid): int
  {
    if |g| == 0 then 0 else |g[0]|
  }

  /** Height of a grid. */
  function GridHeight(g: Grid): int
  {
    |g|
  }

  /** Cell (row, col) lies inside rectangle r (half-open on the right and bottom). */
  predicate Covers(r: Rect, row: int, col: int)
  {
    r.x <= col < r.x + r.width && r.y <= row < r.y + r.height
  }
}
