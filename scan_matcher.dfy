/**
  The older normalised-correlation matcher: all matches are found by
  scanning the correlation surface row by row. A cell that clears the
  threshold triggers a match: the best cell of the search-sized window
  starting at the trigger is emitted, the window is zeroed, and the scan
  skips ahead in the row to just past the emitted match.
 */
module ScanMatcher {
  import opened Types
  import opened Surface
  import PeakMatcher

  /**
    The best match. This generation computes it exactly as the current
    matcher does: at the first global maximum, sized like the search image.
   */
  method GetMax(s: array2<real>, searchWidth: int, searchHeight: int) returns (m: Match)
    requires 1 <= s.Length0 && 1 <= s.Length1
    ensures PeakMatcher.IsFirstMax(Cells(s), m.rect.Location(), m.similarity)
    ensures m.rect.width == searchWidth && m.rect.height == searchHeight
  {
    m := PeakMatcher.GetMax(s, searchWidth, searchHeight);
  }

  /** The window a trigger at `t` opens: search-sized, with `t` as its top-left cell. */
  function Window(t: Point, w: int, h: int): Rect
  {
    Rect(t.x, t.y, w, h)
  }

  /** Cell (row, col) lies in the window of some trigger of `ts`. */
  ghost predicate Zeroed(ts: seq<Point>, w: int, h: int, row: int, col: int)
  {
    exists i :: 0 <= i < |ts| && Covers(Window(ts[i], w, h), row, col)
  }

  /**
    Cell (row, col) was jumped over: it lies in the row of some trigger,
    right of it and left of the end of the match that trigger emitted.
   */
  ghost predicate Skipped(ts: seq<Point>, rs: seq<Match>, w: int, row: int, col: int)
  {
    exists i :: 0 <= i < |ts| && i < |rs| && row == ts[i].y && ts[i].x < col < rs[i].rect.x + w
  }

  lemma ZeroedAppend(ts: seq<Point>, t: Point, w: int, h: int)
    ensures forall row, col :: Zeroed(ts + [t], w, h, row, col) <==>
              Zeroed(ts, w, h, row, col) || Covers(Window(t, w, h), row, col)
  {
    var ts' := ts + [t];
    forall row, col
      ensures Zeroed(ts', w, h, row, col) <==> Zeroed(ts, w, h, row, col) || Covers(Window(t, w, h), row, col)
    {
      if Zeroed(ts', w, h, row, col) {
        var i :| 0 <= i < |ts'| && Covers(Window(ts'[i], w, h), row, col);
        if i < |ts| {
          assert ts'[i] == ts[i];
        }
      }
      if Zeroed(ts, w, h, row, col) {
        var i :| 0 <= i < |ts| && Covers(Window(ts[i], w, h), row, col);
        assert ts'[i] == ts[i];
      }
      if Covers(Window(t, w, h), row, col) {
        assert ts'[|ts|] == t;
      }
    }
  }

  lemma SkippedAppend(ts: seq<Point>, rs: seq<Match>, t: Point, m: Match, w: int)
    requires |ts| == |rs|
    ensures forall row, col :: Skipped(ts, rs, w, row, col) ==> Skipped(ts + [t], rs + [m], w, row, col)
    ensures forall col :: t.x < col < m.rect.x + w ==> Skipped(ts + [t], rs + [m], w, t.y, col)
  {
    var ts', rs' := ts + [t], rs + [m];
    forall row, col | Skipped(ts, rs, w, row, col) ensures Skipped(ts', rs', w, row, col) {
      var i :| 0 <= i < |ts| && i < |rs| && row == ts[i].y && ts[i].x < col < rs[i].rect.x + w;
      assert ts'[i] == ts[i] && rs'[i] == rs[i];
    }
    forall col | t.x < col < m.rect.x + w ensures Skipped(ts', rs', w, t.y, col) {
      assert ts'[|ts|] == t && rs'[|rs|] == m;
    }
  }

  /**
    Each match pairs with its trigger: it clears the threshold, has the
    search image's size and lies in the trigger's window. With a positive
    threshold the trigger itself cleared it in `orig` and the match carries
    its cell's score in `orig`.
   */
  ghost predicate Emissions(orig: seq<seq<real>>, rs: seq<Match>, ts: seq<Point>, w: int, h: int, threshold: real)
  {
    && |rs| == |ts|
    && forall i :: 0 <= i < |rs| ==>
         && InGrid(orig, ts[i].y, ts[i].x) && InGrid(orig, rs[i].rect.y, rs[i].rect.x)
         && threshold <= rs[i].similarity && rs[i].rect.width == w && rs[i].rect.height == h
         && Covers(Window(ts[i], w, h), rs[i].rect.y, rs[i].rect.x)
         && (0.0 < threshold ==>
               orig[ts[i].y][ts[i].x] >= threshold && rs[i].similarity == orig[rs[i].rect.y][rs[i].rect.x])
  }

  /**
    Triggers come in strictly row-major order, and a later trigger in the
    same row lies at or right of the end of the earlier one's match.
   */
  predicate InScanOrder(rs: seq<Match>, ts: seq<Point>, w: int)
    requires |rs| == |ts|
  {
    forall i, j :: 0 <= i < j < |ts| ==>
      Before(ts[i].y, ts[i].x, ts[j].y, ts[j].x) && (ts[j].y == ts[i].y ==> rs[i].rect.x + w <= ts[j].x)
  }

  /** Every trigger comes before the scan position (row, col), which lies past the end of the row's matches. */
  predicate ScannedUpTo(rs: seq<Match>, ts: seq<Point>, w: int, row: int, col: int)
    requires |rs| == |ts|
  {
    forall i :: 0 <= i < |ts| ==>
      Before(ts[i].y, ts[i].x, row, col) && (ts[i].y == row ==> rs[i].rect.x + w <= col)
  }

  /** `g` is `orig` with the window of every trigger zeroed. */
  ghost predicate TracksWindows(g: seq<seq<real>>, orig: seq<seq<real>>, ts: seq<Point>, w: int, h: int)
  {
    && SameShape(g, orig)
    && forall row, col :: InGrid(g, row, col) ==>
         g[row][col] == if Zeroed(ts, w, h, row, col) then 0.0 else orig[row][col]
  }

  /** Every cell scanned so far that cleared the threshold in `orig` was zeroed or jumped over. */
  ghost predicate Complete(orig: seq<seq<real>>, rs: seq<Match>, ts: seq<Point>, w: int, h: int, threshold: real,
                           row: int, col: int)
  {
    forall r, c :: InGrid(orig, r, c) && Before(r, c, row, col) && orig[r][c] >= threshold ==>
      Zeroed(ts, w, h, r, c) || Skipped(ts, rs, w, r, c)
  }

  /** No trigger lies in the window of an earlier one. */
  ghost predicate Uncovered(ts: seq<Point>, w: int, h: int)
  {
    forall i, j :: 0 <= j < i < |ts| ==> !Covers(Window(ts[j], w, h), ts[i].y, ts[i].x)
  }

  /** What holds when the scan stands at (row, col) of the surface `g`. */
  ghost predicate Scanned(g: seq<seq<real>>, orig: seq<seq<real>>, w: int, h: int, threshold: real,
                          rs: seq<Match>, ts: seq<Point>, row: int, col: int)
  {
    && 1 <= w && 1 <= h
    && Emissions(orig, rs, ts, w, h, threshold)
    && TriggerSteps(orig, rs, ts, w, h, threshold)
    && InScanOrder(rs, ts, w)
    && ScannedUpTo(rs, ts, w, row, col)
    && TracksWindows(g, orig, ts, w, h)
    && Complete(orig, rs, ts, w, h, threshold, row, col)
    && Visited(g, rs, ts, w, threshold, row, col)
    && (0.0 < threshold ==> Uncovered(ts, w, h))
  }

  lemma ScanStart(orig: seq<seq<real>>, w: int, h: int, threshold: real)
    requires 1 <= w && 1 <= h
    ensures Scanned(orig, orig, w, h, threshold, [], [], 0, 0)
  {

  }

  /** A cell below the threshold triggers nothing; the scan moves one cell right. */
  lemma ScanMiss(g: seq<seq<real>>, orig: seq<seq<real>>, w: int, h: int, threshold: real,
                 rs: seq<Match>, ts: seq<Point>, row: int, col: int)
    requires Scanned(g, orig, w, h, threshold, rs, ts, row, col)
    requires InGrid(g, row, col) && g[row][col] < threshold
    ensures Scanned(g, orig, w, h, threshold, rs, ts, row, col + 1)
  {
    forall r, c | InGrid(orig, r, c) && Before(r, c, row, col + 1) && orig[r][c] >= threshold
      ensures Zeroed(ts, w, h, r, c) || Skipped(ts, rs, w, r, c)
    {
      if r == row && c == col {
        assert g[r][c] != orig[r][c];
      }
    }
  }

  /** At the end of a row the scan moves to the start of the next one. */
  lemma ScanNextRow(g: seq<seq<real>>, orig: seq<seq<real>>, w: int, h: int, threshold: real,
                    rs: seq<Match>, ts: seq<Point>, row: int, col: int)
    requires Scanned(g, orig, w, h, threshold, rs, ts, row, col)
    requires 0 <= row < |orig| && |orig[row]| <= col
    ensures Scanned(g, orig, w, h, threshold, rs, ts, row + 1, 0)
  {
  }

  /**
    `v` is the largest score of grid `g` inside window `win`, and `loc` the
    first cell of the window (row-major) holding it.
   */
  ghost predicate WindowFirstMax(g: seq<seq<real>>, win: Rect, loc: Point, v: real)
  {
    && InGrid(g, loc.y, loc.x) && Covers(win, loc.y, loc.x) && g[loc.y][loc.x] == v
    && (forall row, col :: InGrid(g, row, col) && Covers(win, row, col) ==> g[row][col] <= v)
    && (forall row, col :: InGrid(g, row, col) && Covers(win, row, col) && Before(row, col, loc.y, loc.x) ==>
          g[row][col] < v)
  }

  /** The extrema of the clipped window `r` name the window's first maximum on the grid. */
  lemma WindowMaxOf(s: array2<real>, r: Rect, e: MinMax)
    requires IsMinMaxOf(s, Clip(s, r), e)
    ensures WindowFirstMax(Cells(s), r, e.maxLoc, e.max)
  {
  }

  /** `orig` with the window of every trigger of `ts` zeroed: the surface the scan sees after those triggers. */
  ghost function Left(orig: seq<seq<real>>, ts: seq<Point>, w: int, h: int): (g: seq<seq<real>>)
    ensures SameShape(g, orig)
    ensures forall row, col :: InGrid(orig, row, col) ==>
              g[row][col] == if Zeroed(ts, w, h, row, col) then 0.0 else orig[row][col]
  {
    seq(|orig|, row requires 0 <= row < |orig| =>
      seq(|orig[row]|, col requires 0 <= col < |orig[row]| =>
        if Zeroed(ts, w, h, row, col) then 0.0 else orig[row][col]))
  }

  /** A surface that tracks the windows of `ts` is the one `Left` describes. */
  lemma TracksIsLeft(g: seq<seq<real>>, orig: seq<seq<real>>, ts: seq<Point>, w: int, h: int)
    requires TracksWindows(g, orig, ts, w, h)
    ensures g == Left(orig, ts, w, h)
  {
    var l := Left(orig, ts, w, h);
    forall row | 0 <= row < |g| ensures g[row] == l[row] {
      assert forall col :: 0 <= col < |g[row]| ==> g[row][col] == l[row][col];
    }
  }

  /**
    Each trigger clears the threshold on the surface the earlier triggers
    left behind, and its match is the first maximum of its window there
    (stated trigger by trigger; `TriggerStep` gives it for every index).
   */
  ghost predicate TriggerSteps(orig: seq<seq<real>>, rs: seq<Match>, ts: seq<Point>, w: int, h: int, threshold: real)
    requires |rs| == |ts|
    decreases |rs|
  {
    rs != [] ==>
      var n := |rs| - 1;
      TriggerSteps(orig, rs[..n], ts[..n], w, h, threshold)
      && InGrid(orig, ts[n].y, ts[n].x) && Left(orig, ts[..n], w, h)[ts[n].y][ts[n].x] >= threshold
      && WindowFirstMax(Left(orig, ts[..n], w, h), Window(ts[n], w, h), rs[n].rect.Location(), rs[n].similarity)
  }

  /**
    Trigger `i` clears the threshold once the windows of the triggers before
    it are zeroed, and match `i` is the first maximum of its window there.
   */
  lemma {:induction false} TriggerStep(orig: seq<seq<real>>, rs: seq<Match>, ts: seq<Point>, w: int, h: int,
                                       threshold: real, i: int)
    requires |rs| == |ts| && TriggerSteps(orig, rs, ts, w, h, threshold) && 0 <= i < |rs|
    ensures InGrid(orig, ts[i].y, ts[i].x) && Left(orig, ts[..i], w, h)[ts[i].y][ts[i].x] >= threshold
    ensures WindowFirstMax(Left(orig, ts[..i], w, h), Window(ts[i], w, h), rs[i].rect.Location(), rs[i].similarity)
    decreases |rs|
  {
    var n := |rs| - 1;
    if i < n {
      TriggerStep(orig, rs[..n], ts[..n], w, h, threshold, i);
      assert ts[..n][..i] == ts[..i] && ts[..n][i] == ts[i] && rs[..n][i] == rs[i];
    }
  }

  /** Appending a trigger that clears the threshold, with the first maximum of its window, keeps `TriggerSteps`. */
  lemma TriggerAppend(g: seq<seq<real>>, orig: seq<seq<real>>, rs: seq<Match>, ts: seq<Point>, w: int, h: int,
                      threshold: real, t: Point, m: Match)
    requires |rs| == |ts| && TriggerSteps(orig, rs, ts, w, h, threshold) && TracksWindows(g, orig, ts, w, h)
    requires InGrid(g, t.y, t.x) && g[t.y][t.x] >= threshold
    requires WindowFirstMax(g, Window(t, w, h), m.rect.Location(), m.similarity)
    ensures TriggerSteps(orig, rs + [m], ts + [t], w, h, threshold)
  {
    TracksIsLeft(g, orig, ts, w, h);
    assert (rs + [m])[..|rs|] == rs && (ts + [t])[..|ts|] == ts;
  }

  /** Some trigger of `ts` sits at (row, col). */
  ghost predicate IsTrigger(ts: seq<Point>, row: int, col: int)
  {
    exists i :: 0 <= i < |ts| && ts[i] == Point(col, row)
  }

  /**
    Every cell scanned so far that clears the threshold on the surface `g`
    was a trigger or was jumped over. At a cell that is no trigger, `g` holds
    what the scan read there (`ReadIsFinal`).
   */
  ghost predicate Visited(g: seq<seq<real>>, rs: seq<Match>, ts: seq<Point>, w: int, threshold: real, row: int, col: int)
  {
    forall r, c :: InGrid(g, r, c) && Before(r, c, row, col) && g[r][c] >= threshold ==>
      IsTrigger(ts, r, c) || Skipped(ts, rs, w, r, c)
  }

  /**
    A trigger keeps `Visited`: its window only changes cells at or after the
    trigger, the trigger's own cell is a trigger, and the cells up to the end
    of its match are jumped over.
   */
  lemma HitVisited(g: seq<seq<real>>, g': seq<seq<real>>, rs: seq<Match>, ts: seq<Point>, w: int, h: int,
                   threshold: real, row: int, col: int, m: Match)
    requires |rs| == |ts| && Visited(g, rs, ts, w, threshold, row, col)
    requires ZeroedIn(g, g', Window(Point(col, row), w, h))
    ensures Visited(g', rs + [m], ts + [Point(col, row)], w, threshold, row, m.rect.x + w)
  {
    var t := Point(col, row);
    var ts', rs' := ts + [t], rs + [m];
    SkippedAppend(ts, rs, t, m, w);
    forall r, c | InGrid(g', r, c) && Before(r, c, row, m.rect.x + w) && g'[r][c] >= threshold
      ensures IsTrigger(ts', r, c) || Skipped(ts', rs', w, r, c)
    {
      if Before(r, c, row, col) {
        assert !Covers(Window(t, w, h), r, c);
        if IsTrigger(ts, r, c) {
          var i :| 0 <= i < |ts| && ts[i] == Point(c, r);
          assert ts'[i] == ts[i];
        }
      } else if c == col {
        assert ts'[|ts|] == t;
      }
    }
  }

  /**
    The surface the scan reads at a cell that is no trigger is the surface it
    leaves there: a window only reaches cells at or after its trigger, so the
    triggers after the cell leave it alone. `ts[..k]` are the triggers before
    the cell.
   */
  lemma ReadIsFinal(orig: seq<seq<real>>, ts: seq<Point>, w: int, h: int, k: int, row: int, col: int)
    requires 0 <= k <= |ts| && InGrid(orig, row, col) && !IsTrigger(ts, row, col)
    requires forall i :: 0 <= i < k ==> Before(ts[i].y, ts[i].x, row, col)
    requires forall i :: k <= i < |ts| ==> !Before(ts[i].y, ts[i].x, row, col)
    ensures Left(orig, ts[..k], w, h)[row][col] == Left(orig, ts, w, h)[row][col]
  {
    if Zeroed(ts, w, h, row, col) {
      var i :| 0 <= i < |ts| && Covers(Window(ts[i], w, h), row, col);
      assert ts[i] != Point(col, row);
      assert ts[..k][i] == ts[i];
    }
    if Zeroed(ts[..k], w, h, row, col) {
      var i :| 0 <= i < k && Covers(Window(ts[..k][i], w, h), row, col);
      assert ts[..k][i] == ts[i];
    }
  }

  lemma HitEmissions(g: seq<seq<real>>, orig: seq<seq<real>>, w: int, h: int, threshold: real,
                     rs: seq<Match>, ts: seq<Point>, t: Point, m: Match)
    requires Emissions(orig, rs, ts, w, h, threshold) && TracksWindows(g, orig, ts, w, h)
    requires InGrid(g, t.y, t.x) && g[t.y][t.x] >= threshold
    requires WindowFirstMax(g, Window(t, w, h), m.rect.Location(), m.similarity) && m.rect.width == w && m.rect.height == h
    ensures Emissions(orig, rs + [m], ts + [t], w, h, threshold)
    ensures 0.0 < threshold ==> !Zeroed(ts, w, h, t.y, t.x)
  {
    var rs', ts' := rs + [m], ts + [t];
    forall i | 0 <= i < |rs'|
      ensures InGrid(orig, ts'[i].y, ts'[i].x) && InGrid(orig, rs'[i].rect.y, rs'[i].rect.x)
      ensures threshold <= rs'[i].similarity && rs'[i].rect.width == w && rs'[i].rect.height == h
      ensures Covers(Window(ts'[i], w, h), rs'[i].rect.y, rs'[i].rect.x)
      ensures 0.0 < threshold ==>
                orig[ts'[i].y][ts'[i].x] >= threshold && rs'[i].similarity == orig[rs'[i].rect.y][rs'[i].rect.x]
    {
      if i < |rs| {
        assert rs'[i] == rs[i] && ts'[i] == ts[i];
      } else {
        assert rs'[i] == m && ts'[i] == t;
        assert Covers(Window(t, w, h), t.y, t.x);
      }
    }
  }

  lemma HitOrder(rs: seq<Match>, ts: seq<Point>, w: int, row: int, col: int, m: Match)
    requires |rs| == |ts| && InScanOrder(rs, ts, w) && ScannedUpTo(rs, ts, w, row, col)
    requires col < m.rect.x + w
    ensures InScanOrder(rs + [m], ts + [Point(col, row)], w)
    ensures ScannedUpTo(rs + [m], ts + [Point(col, row)], w, row, m.rect.x + w)
  {
    var rs', ts' := rs + [m], ts + [Point(col, row)];
    forall i, j | 0 <= i < j < |ts'|
      ensures Before(ts'[i].y, ts'[i].x, ts'[j].y, ts'[j].x) && (ts'[j].y == ts'[i].y ==> rs'[i].rect.x + w <= ts'[j].x)
    {
      assert rs'[i] == rs[i] && ts'[i] == ts[i];
      if j < |ts| {
        assert rs'[j] == rs[j] && ts'[j] == ts[j];
      }
    }
    forall i | 0 <= i < |ts'|
      ensures Before(ts'[i].y, ts'[i].x, row, m.rect.x + w) && (ts'[i].y == row ==> rs'[i].rect.x + w <= m.rect.x + w)
    {
      if i < |ts| {
        assert rs'[i] == rs[i] && ts'[i] == ts[i];
      }
    }
  }

  lemma HitComplete(orig: seq<seq<real>>, rs: seq<Match>, ts: seq<Point>, w: int, h: int, threshold: real,
                    row: int, col: int, m: Match)
    requires |rs| == |ts| && Complete(orig, rs, ts, w, h, threshold, row, col)
    requires 1 <= w && 1 <= h && col < m.rect.x + w
    ensures Complete(orig, rs + [m], ts + [Point(col, row)], w, h, threshold, row, m.rect.x + w)
  {
    var t := Point(col, row);
    ZeroedAppend(ts, t, w, h);
    SkippedAppend(ts, rs, t, m, w);
    forall r, c | InGrid(orig, r, c) && Before(r, c, row, m.rect.x + w) && orig[r][c] >= threshold
      ensures Zeroed(ts + [t], w, h, r, c) || Skipped(ts + [t], rs + [m], w, r, c)
    {
      if r == row && col <= c {
        if c == col {
          assert Covers(Window(t, w, h), r, c);
        }
      }
    }
  }

  lemma HitUncovered(ts: seq<Point>, t: Point, w: int, h: int)
    requires Uncovered(ts, w, h) && !Zeroed(ts, w, h, t.y, t.x)
    ensures Uncovered(ts + [t], w, h)
  {
    var ts' := ts + [t];
    forall i, j | 0 <= j < i < |ts'| ensures !Covers(Window(ts'[j], w, h), ts'[i].y, ts'[i].x) {
      assert ts'[j] == ts[j];
      if i < |ts| {
        assert ts'[i] == ts[i];
      }
    }
  }

  /**
    A cell that clears the threshold triggers a match: the best cell of
    its window is emitted, the window is zeroed, and the scan resumes just
    past the end of the emitted match.
   */
  lemma ScanHit(g: seq<seq<real>>, g': seq<seq<real>>, orig: seq<seq<real>>, w: int, h: int, threshold: real,
                rs: seq<Match>, ts: seq<Point>, row: int, col: int, m: Match, next: int)
    requires Scanned(g, orig, w, h, threshold, rs, ts, row, col)
    requires InGrid(g, row, col) && g[row][col] >= threshold
    requires WindowFirstMax(g, Window(Point(col, row), w, h), m.rect.Location(), m.similarity)
    requires ZeroedIn(g, g', Window(Point(col, row), w, h))
    requires m.rect.width == w && m.rect.height == h && next == m.rect.x + w
    ensures Scanned(g', orig, w, h, threshold, rs + [m], ts + [Point(col, row)], row, next)
  {
    var t := Point(col, row);
    HitEmissions(g, orig, w, h, threshold, rs, ts, t, m);
    TriggerAppend(g, orig, rs, ts, w, h, threshold, t, m);
    HitVisited(g, g', rs, ts, w, h, threshold, row, col, m);
    HitOrder(rs, ts, w, row, col, m);
    HitComplete(orig, rs, ts, w, h, threshold, row, col, m);
    ZeroedAppend(ts, t, w, h);
    if 0.0 < threshold {
      HitUncovered(ts, t, w, h);
    }
  }

  /**
    What a full scan promises of the matches `rs`, their triggers `ts`, the
    surface `orig` it started from and the surface `g` it leaves: each
    trigger clears the threshold on the surface the earlier triggers left and
    its match, which clears the threshold too, is the first maximum of its
    window there; triggers come in scan order; `g` is `orig` with every
    trigger's window zeroed; every cell of `orig` that cleared the threshold
    was zeroed or jumped over; and every cell that clears the threshold on
    `g`, which at a cell that is no trigger is what the scan read there, was
    a trigger or was jumped over.
   */
  ghost predicate ScanResult(orig: seq<seq<real>>, g: seq<seq<real>>, w: int, h: int, threshold: real,
                             rs: seq<Match>, ts: seq<Point>)
  {
    && Emissions(orig, rs, ts, w, h, threshold)
    && TriggerSteps(orig, rs, ts, w, h, threshold)
    && InScanOrder(rs, ts, w)
    && (0.0 < threshold ==> Uncovered(ts, w, h))
    && TracksWindows(g, orig, ts, w, h)
    && (forall row, col :: InGrid(orig, row, col) && orig[row][col] >= threshold ==>
          Zeroed(ts, w, h, row, col) || Skipped(ts, rs, w, row, col))
    && forall row, col :: InGrid(g, row, col) && g[row][col] >= threshold ==>
         IsTrigger(ts, row, col) || Skipped(ts, rs, w, row, col)
  }

  /**
    After a full scan, a cell that was not jumped over and that clears the
    threshold on the surface the scan read there, the original with the
    windows of the triggers before the cell zeroed, is a trigger.
   */
  lemma ScanTriggersOnRead(orig: seq<seq<real>>, g: seq<seq<real>>, w: int, h: int, threshold: real,
                           rs: seq<Match>, ts: seq<Point>, k: int, row: int, col: int)
    requires ScanResult(orig, g, w, h, threshold, rs, ts)
    requires 0 <= k <= |ts| && InGrid(orig, row, col) && !Skipped(ts, rs, w, row, col)
    requires forall i :: 0 <= i < k ==> Before(ts[i].y, ts[i].x, row, col)
    requires forall i :: k <= i < |ts| ==> !Before(ts[i].y, ts[i].x, row, col)
    requires Left(orig, ts[..k], w, h)[row][col] >= threshold
    ensures IsTrigger(ts, row, col)
  {
    if !IsTrigger(ts, row, col) {
      ReadIsFinal(orig, ts, w, h, k, row, col);
      TracksIsLeft(g, orig, ts, w, h);
      assert InGrid(g, row, col);
    }
  }

  /**
    All matches at or above `threshold`, by a row-major scan of the surface
    `s`, which is modified in place. `ts` names, for each match, the cell
    that triggered it.
   */
  method GetMatches(s: array2<real>, w: int, h: int, threshold: real) returns (rs: seq<Match>, ghost ts: seq<Point>)
    requires 1 <= w && 1 <= h
    modifies s
    ensures ScanResult(old(Cells(s)), Cells(s), w, h, threshold, rs, ts)
  {
    ghost var orig := Cells(s);
    ScanStart(orig, w, h, threshold);
    rs, ts := [], [];
    var row := 0;
    while row < s.Length0
      invariant 0 <= row <= s.Length0
      invariant Scanned(Cells(s), orig, w, h, threshold, rs, ts, row, 0)
    {
      rs, ts := ScanRow(s, orig, w, h, threshold, rs, ts, row);
      row := row + 1;
    }
  }

  /** The inner loop of `GetMatches`: scans row `row` from its first cell to its last. */
  method ScanRow(s: array2<real>, ghost orig: seq<seq<real>>, w: int, h: int, threshold: real,
                 rs0: seq<Match>, ghost ts0: seq<Point>, row: int) returns (rs: seq<Match>, ghost ts: seq<Point>)
    requires 0 <= row < s.Length0
    requires Scanned(Cells(s), orig, w, h, threshold, rs0, ts0, row, 0)
    modifies s
    ensures Scanned(Cells(s), orig, w, h, threshold, rs, ts, row + 1, 0)
    ensures rs0 <= rs && ts0 <= ts
  {
    rs, ts := rs0, ts0;
    var col := 0;
    while col < s.Length1
      invariant 0 <= col
      invariant rs0 <= rs && ts0 <= ts
      invariant Scanned(Cells(s), orig, w, h, threshold, rs, ts, row, col)
    {
      rs, ts, col := ScanCell(s, orig, w, h, threshold, rs, ts, row, col);
    }
    ScanNextRow(Cells(s), orig, w, h, threshold, rs, ts, row, col);
  }

  /**
    One step of the scan along a row: a cell that clears the threshold
    triggers a match and the scan resumes past it; any other cell is passed
    over.
   */
  method ScanCell(s: array2<real>, ghost orig: seq<seq<real>>, w: int, h: int, threshold: real,
                  rs0: seq<Match>, ghost ts0: seq<Point>, row: int, col0: int)
    returns (rs: seq<Match>, ghost ts: seq<Point>, col: int)
    requires InBounds(s, row, col0)
    requires Scanned(Cells(s), orig, w, h, threshold, rs0, ts0, row, col0)
    modifies s
    ensures col0 < col && rs0 <= rs && ts0 <= ts
    ensures Scanned(Cells(s), orig, w, h, threshold, rs, ts, row, col)
  {
    if s[row, col0] >= threshold {
      var m, next := Trigger(s, orig, w, h, threshold, rs0, ts0, row, col0);
      rs, ts, col := rs0 + [m], ts0 + [Point(col0, row)], next + 1;
    } else {
      ScanMiss(Cells(s), orig, w, h, threshold, rs0, ts0, row, col0);
      rs, ts, col := rs0, ts0, col0 + 1;
    }
  }

  /**
    The body of the scan at a cell that clears the threshold: emit the best
    cell of the window opened there, zero the window, and return the emitted
    match and the column of its last cell, after which the scan resumes.
   */
  method Trigger(s: array2<real>, ghost orig: seq<seq<real>>, w: int, h: int, threshold: real,
                 rs: seq<Match>, ghost ts: seq<Point>, row: int, col0: int)
    returns (m: Match, col: int)
    requires InBounds(s, row, col0) && s[row, col0] >= threshold
    requires Scanned(Cells(s), orig, w, h, threshold, rs, ts, row, col0)
    modifies s
    ensures WindowFirstMax(old(Cells(s)), Window(Point(col0, row), w, h), m.rect.Location(), m.similarity)
    ensures m.rect.width == w && m.rect.height == h
    ensures col == m.rect.x + w - 1 && col0 <= col
    ensures ZeroedIn(old(Cells(s)), Cells(s), Window(Point(col0, row), w, h))
    ensures Scanned(Cells(s), orig, w, h, threshold, rs + [m], ts + [Point(col0, row)], row, col + 1)
  {
    ghost var g := Cells(s);
    m := WindowBest(s, row, col0, w, h);
    col := m.rect.x + w - 1;
    SetZero(s, Window(Point(col0, row), w, h));
    ScanHit(g, Cells(s), orig, w, h, threshold, rs, ts, row, col0, m, col + 1);
  }

  /**
    The best cell of the search-sized window opened at (row, col), as a
    match of the search image's size. The extrema are read from the window
    clipped to the surface, and their location is moved back from window to
    surface coordinates.
   */
  method WindowBest(s: array2<real>, row: int, col: int, w: int, h: int) returns (m: Match)
    requires InBounds(s, row, col) && 1 <= w && 1 <= h
    ensures WindowFirstMax(Cells(s), Window(Point(col, row), w, h), m.rect.Location(), m.similarity)
    ensures m.rect.width == w && m.rect.height == h
  {
    var found := Rect(col, row, w, h);
    var e := MinMaxOf(s, Clip(s, found));
    WindowMaxOf(s, found, e);
    var mx, my := e.maxLoc.x - col, e.maxLoc.y - row;
    m := Match(Rect(col + mx, row + my, w, h), e.max);
  }
}
