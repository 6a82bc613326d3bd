/**
  The correlation surface as the matchers see it: a grid of scores, one
  per alignment offset of the search image, stored as `s[row, col]`.
  The score computation itself belongs to the vision library; what the
  matchers use of it is modelled here: reading the extrema of a window
  (`MinMax`) and zeroing a sub-rectangle in place (`SetZero`).
 */
module Surface {
  import opened Types

  /** Cell (row, col) is a cell of the surface. */
  predicate InBounds(s: array2<real>, row: int, col: int)
  {
    0 <= row < s.Length0 && 0 <= col < s.Length1
  }

  /** The whole surface as a rectangle. */
  function Whole(s: array2<real>): (r: Rect)
    ensures forall row, col :: InBounds(s, row, col) <==> Covers(r, row, col)
  {
    Rect(0, 0, s.Length1, s.Length0)
  }

  /** `w` is a non-empty window lying inside the surface. */
  predicate IsWindow(s: array2<real>, w: Rect)
  {
    0 <= w.x && 0 <= w.y && 1 <= w.width && 1 <= w.height
    && w.x + w.width <= s.Length1 && w.y + w.height <= s.Length0
  }

  /** The part of `r` that lies inside the surface (possibly empty). */
  function Clip(s: array2<real>, r: Rect): (c: Rect)
    ensures forall row, col :: Covers(c, row, col) <==> Covers(r, row, col) && InBounds(s, row, col)
    ensures 0 <= c.x && 0 <= c.y && c.x + c.width <= s.Length1 && c.y + c.height <= s.Length0
  {
    var x0 := if r.x < 0 then 0 else if r.x > s.Length1 then s.Length1 else r.x;
    var y0 := if r.y < 0 then 0 else if r.y > s.Length0 then s.Length0 else r.y;
    var x1 := if r.x + r.width > s.Length1 then s.Length1 else r.x + r.width;
    var y1 := if r.y + r.height > s.Length0 then s.Length0 else r.y + r.height;
    var x1' := if x1 < x0 then x0 else x1;
    var y1' := if y1 < y0 then y0 else y1;
    Rect(x0, y0, x1' - x0, y1' - y0)
  }

  /** The scores of the surface as a value, row by row. */
  ghost function Cells(s: array2<real>): (g: seq<seq<real>>)
    reads s
    ensures |g| == s.Length0 && forall row :: 0 <= row < |g| ==> |g[row]| == s.Length1
    ensures forall row, col :: InBounds(s, row, col) ==> g[row][col] == s[row, col]
  {
    seq(s.Length0, row requires 0 <= row < s.Length0 reads s =>
      seq(s.Length1, col requires 0 <= col < s.Length1 reads s => s[row, col]))
  }

  /** Cell (row, col) is a cell of grid `g`. */
  predicate InGrid(g: seq<seq<real>>, row: int, col: int)
  {
    0 <= row < |g| && 0 <= col < |g[row]|
  }

  /** `g` has the dimensions of `orig`. */
  predicate SameShape(g: seq<seq<real>>, orig: seq<seq<real>>)
  {
    |g| == |orig| && forall row :: 0 <= row < |g| ==> |g[row]| == |orig[row]|
  }

  /** `g'` is `g` with the window `r` zeroed. */
  ghost predicate ZeroedIn(g: seq<seq<real>>, g': seq<seq<real>>, r: Rect)
  {
    && SameShape(g', g)
    && forall row, col :: InGrid(g, row, col) ==> g'[row][col] == if Covers(r, row, col) then 0.0 else g[row][col]
  }

  /** Cell (r1, c1) comes strictly before cell (r2, c2) in row-major order. */
  predicate Before(r1: int, c1: int, r2: int, c2: int)
  {
    r1 < r2 || (r1 == r2 && c1 < c2)
  }

  /**
    `e` reports the extrema of window `w`: the largest and smallest values,
    each at the first cell (in row-major order) that holds it.
   */
  ghost predicate IsMinMaxOf(s: array2<real>, w: Rect, e: MinMax)
    reads s
  {
    && Covers(w, e.maxLoc.y, e.maxLoc.x) && InBounds(s, e.maxLoc.y, e.maxLoc.x)
    && Covers(w, e.minLoc.y, e.minLoc.x) && InBounds(s, e.minLoc.y, e.minLoc.x)
    && s[e.maxLoc.y, e.maxLoc.x] == e.max
    && s[e.minLoc.y, e.minLoc.x] == e.min
    && (forall row, col :: Covers(w, row, col) && InBounds(s, row, col) ==>
          e.min <= s[row, col] <= e.max)
    && (forall row, col ::
          Covers(w, row, col) && InBounds(s, row, col) && Before(row, col, e.maxLoc.y, e.maxLoc.x) ==>
            s[row, col] < e.max)
    && (forall row, col ::
          Covers(w, row, col) && InBounds(s, row, col) && Before(row, col, e.minLoc.y, e.minLoc.x) ==>
            e.min < s[row, col])
  }

  /** Every cell of the surface scores below `threshold`. */
  ghost predicate AllBelow(s: array2<real>, threshold: real)
    reads s
  {
    Below(Cells(s), threshold)
  }

  /** Every cell of grid `g` scores below `threshold`. */
  ghost predicate Below(g: seq<seq<real>>, threshold: real)
  {
    forall row, col :: InGrid(g, row, col) ==> g[row][col] < threshold
  }

  /**
    `e` reports the extrema of the cells of window `w` that come before
    (row, col) in row-major order, each at its first occurrence; before the
    first cell is read `e` holds the window's corner cell.
   */
  ghost predicate ExtremaSoFar(s: array2<real>, w: Rect, e: MinMax, row: int, col: int)
    reads s
  {
    && IsWindow(s, w)
    && Covers(w, e.maxLoc.y, e.maxLoc.x) && Covers(w, e.minLoc.y, e.minLoc.x)
    && s[e.maxLoc.y, e.maxLoc.x] == e.max && s[e.minLoc.y, e.minLoc.x] == e.min
    && (e.maxLoc == Point(w.x, w.y) || Before(e.maxLoc.y, e.maxLoc.x, row, col))
    && (e.minLoc == Point(w.x, w.y) || Before(e.minLoc.y, e.minLoc.x, row, col))
    && (forall r, c :: Covers(w, r, c) && Before(r, c, row, col) ==> e.min <= s[r, c] <= e.max)
    && (forall r, c :: Covers(w, r, c) && Before(r, c, row, col) && Before(r, c, e.maxLoc.y, e.maxLoc.x) ==>
          s[r, c] < e.max)
    && (forall r, c :: Covers(w, r, c) && Before(r, c, row, col) && Before(r, c, e.minLoc.y, e.minLoc.x) ==>
          e.min < s[r, c])
  }

  /**
    The extrema after reading value `v` at cell `at`: a value replaces an
    extreme only when it is strictly beyond it, so the first occurrence of
    each extreme is the one kept.
   */
  function Visit(e: MinMax, v: real, at: Point): (e': MinMax)
    ensures e'.max == (if v > e.max then v else e.max) && e'.min == (if v < e.min then v else e.min)
    ensures e'.maxLoc == (if v > e.max then at else e.maxLoc)
    ensures e'.minLoc == (if v < e.min then at else e.minLoc)
  {
    var e1 := if v > e.max then e.(max := v, maxLoc := at) else e;
    if v < e1.min then e1.(min := v, minLoc := at) else e1
  }

  lemma VisitKeeps(s: array2<real>, w: Rect, e: MinMax, row: int, col: int)
    requires ExtremaSoFar(s, w, e, row, col) && Covers(w, row, col)
    ensures ExtremaSoFar(s, w, Visit(e, s[row, col], Point(col, row)), row, col + 1)
  {
  }

  lemma NextRowKeeps(s: array2<real>, w: Rect, e: MinMax, row: int)
    requires ExtremaSoFar(s, w, e, row, w.x + w.width)
    ensures ExtremaSoFar(s, w, e, row + 1, w.x)
  {
  }

  lemma AllVisited(s: array2<real>, w: Rect, e: MinMax)
    requires ExtremaSoFar(s, w, e, w.y + w.height, w.x)
    ensures IsMinMaxOf(s, w, e)
  {
  }

  /**
    The extrema of a window, scanning it row by row and keeping the first
    occurrence of each extreme value.
   */
  method MinMaxOf(s: array2<real>, w: Rect) returns (e: MinMax)
    requires IsWindow(s, w)
    ensures IsMinMaxOf(s, w, e)
  {
    e := MinMax(s[w.y, w.x], s[w.y, w.x], Point(w.x, w.y), Point(w.x, w.y));
    var row := w.y;
    while row < w.y + w.height
      invariant w.y <= row <= w.y + w.height
      invariant ExtremaSoFar(s, w, e, row, w.x)
    {
      e := RowExtrema(s, w, e, row);
      row := row + 1;
    }
    AllVisited(s, w, e);
  }

  /** The inner loop of `MinMaxOf`: reads row `row` of the window from left to right. */
  method RowExtrema(s: array2<real>, w: Rect, e0: MinMax, row: int) returns (e: MinMax)
    requires w.y <= row < w.y + w.height && ExtremaSoFar(s, w, e0, row, w.x)
    ensures ExtremaSoFar(s, w, e, row + 1, w.x)
  {
    e := e0;
    var col := w.x;
    while col < w.x + w.width
      invariant w.x <= col <= w.x + w.width
      invariant ExtremaSoFar(s, w, e, row, col)
    {
      VisitKeeps(s, w, e, row, col);
      e := Visit(e, s[row, col], Point(col, row));
      col := col + 1;
    }
    NextRowKeeps(s, w, e, row);
  }

  /** Zeroes the part of rectangle `r` that lies inside the surface; every other cell keeps its value. */
  method SetZero(s: array2<real>, r: Rect)
    modifies s
    ensures ZeroedIn(old(Cells(s)), Cells(s), r)
  {
    forall row, col | 0 <= row < s.Length0 && 0 <= col < s.Length1 && Covers(r, row, col) {
      s[row, col] := 0.0;
    }
  }
}
