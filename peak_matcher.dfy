/**
  The current normalised-correlation matcher: the best match is the
  global maximum of the correlation surface, and all matches are found by
  repeatedly taking the global maximum and zeroing a search-sized window
  around it, on the same surface, until the maximum falls below the
  threshold.
 */
module PeakMatcher {
  import opened Types
  import opened Surface

  /** `v` is the largest score of `g` and `loc` the first cell (row-major) holding it. */
  ghost predicate IsFirstMax(g: seq<seq<real>>, loc: Point, v: real)
  {
    && 0 <= loc.y < |g| && 0 <= loc.x < |g[loc.y]|
    && g[loc.y][loc.x] == v
    && (forall row, col :: 0 <= row < |g| && 0 <= col < |g[row]| ==> g[row][col] <= v)
    && (forall row, col :: 0 <= row < |g| && 0 <= col < |g[row]| && Before(row, col, loc.y, loc.x) ==> g[row][col] < v)
  }

  /**
    The best match: located at the surface's global maximum, sized like the
    search image, scored with that maximum.
   */
  method GetMax(s: array2<real>, searchWidth: int, searchHeight: int) returns (m: Match)
    requires 1 <= s.Length0 && 1 <= s.Length1
    ensures IsFirstMax(Cells(s), m.rect.Location(), m.similarity)
    ensures m.rect.width == searchWidth && m.rect.height == searchHeight
  {
    var e := MinMaxOf(s, Whole(s));
    m := Match(Rect(e.maxLoc.x, e.maxLoc.y, searchWidth, searchHeight), e.max);
  }

  /**
    The window zeroed around a peak: a w-by-h rectangle whose top-left corner
    is half the search size up and left of the peak. A negative origin is
    moved to 0 by shrinking the width or height, so the right and bottom
    edges stay where the unclipped window would put them; those edges are
    not clipped here.
   */
  function SuppressionRect(peak: Point, w: int, h: int): (r: Rect)
    ensures r.x == (if peak.x - w / 2 < 0 then 0 else peak.x - w / 2)
    ensures r.y == (if peak.y - h / 2 < 0 then 0 else peak.y - h / 2)
    ensures r.Right() == peak.x - w / 2 + w && r.Bottom() == peak.y - h / 2 + h
    ensures 1 <= w && 1 <= h && 0 <= peak.x && 0 <= peak.y ==>
              Covers(r, peak.y, peak.x) && 1 <= r.width <= w && 1 <= r.height <= h
  {
    var foundX := peak.x - w / 2;
    var foundY := peak.y - h / 2;
    var (x, width) := if foundX < 0 then (0, w + foundX) else (foundX, w);
    var (y, height) := if foundY < 0 then (0, h + foundY) else (foundY, h);
    Rect(x, y, width, height)
  }

  /** Cell (row, col) lies in the suppression window of some match of `rs`. */
  ghost predicate Suppressed(rs: seq<Match>, w: int, h: int, row: int, col: int)
  {
    exists i :: 0 <= i < |rs| && Covers(SuppressionRect(rs[i].rect.Location(), w, h), row, col)
  }

  lemma SuppressedAppend(rs: seq<Match>, m: Match, w: int, h: int)
    ensures forall row, col :: Suppressed(rs + [m], w, h, row, col) <==>
              Suppressed(rs, w, h, row, col) || Covers(SuppressionRect(m.rect.Location(), w, h), row, col)
  {
    var rs' := rs + [m];
    forall row, col
      ensures Suppressed(rs', w, h, row, col) <==>
                Suppressed(rs, w, h, row, col) || Covers(SuppressionRect(m.rect.Location(), w, h), row, col)
    {
      if Suppressed(rs', w, h, row, col) {
        var i :| 0 <= i < |rs'| && Covers(SuppressionRect(rs'[i].rect.Location(), w, h), row, col);
        if i < |rs| {
          assert rs'[i] == rs[i];
        }
      }
      if Suppressed(rs, w, h, row, col) {
        var i :| 0 <= i < |rs| && Covers(SuppressionRect(rs[i].rect.Location(), w, h), row, col);
        assert rs'[i] == rs[i];
      }
      if Covers(SuppressionRect(m.rect.Location(), w, h), row, col) {
        assert rs'[|rs|] == m;
      }
    }
  }

  /** The cells of `g` that clear the threshold. */
  ghost function AboveIn(g: seq<seq<real>>, threshold: real): set<(int, int)>
  {
    set row, col | 0 <= row < |g| && 0 <= col < |g[row]| && g[row][col] >= threshold :: (row, col)
  }

  /** Every match clears the threshold and has the search image's size. */
  predicate Qualified(rs: seq<Match>, w: int, h: int, threshold: real)
  {
    forall i :: 0 <= i < |rs| ==>
      threshold <= rs[i].similarity && rs[i].rect.width == w && rs[i].rect.height == h
  }

  /** Every match sits on a cell of `orig` holding its score, since zeroed in `g`. */
  ghost predicate OnZeroedPeaks(g: seq<seq<real>>, orig: seq<seq<real>>, rs: seq<Match>)
  {
    forall i :: 0 <= i < |rs| ==>
      InGrid(g, rs[i].rect.y, rs[i].rect.x) && InGrid(orig, rs[i].rect.y, rs[i].rect.x)
      && rs[i].similarity == orig[rs[i].rect.y][rs[i].rect.x] && g[rs[i].rect.y][rs[i].rect.x] == 0.0
  }

  /** No two matches share a location. */
  predicate DistinctLocations(rs: seq<Match>)
  {
    forall i, j :: 0 <= i < j < |rs| ==> rs[i].rect.Location() != rs[j].rect.Location()
  }

  /** Scores never rise along `rs`. */
  predicate NonIncreasing(rs: seq<Match>)
  {
    forall i, j :: 0 <= i < j < |rs| ==> rs[j].similarity <= rs[i].similarity
  }

  /** No cell of `g` beats the last match. */
  ghost predicate Dominated(g: seq<seq<real>>, rs: seq<Match>)
  {
    |rs| > 0 ==> forall row, col :: InGrid(g, row, col) ==> g[row][col] <= rs[|rs| - 1].similarity
  }

  /** `g` is `orig` with the suppression window of every match zeroed. */
  ghost predicate Tracks(g: seq<seq<real>>, orig: seq<seq<real>>, rs: seq<Match>, w: int, h: int)
  {
    && SameShape(g, orig)
    && forall row, col :: InGrid(g, row, col) ==>
      g[row][col] == if Suppressed(rs, w, h, row, col) then 0.0 else orig[row][col]
  }

  /** `orig` with the suppression window of every match of `prev` zeroed: the surface the round after `prev` reads. */
  ghost function Remaining(orig: seq<seq<real>>, prev: seq<Match>, w: int, h: int): (g: seq<seq<real>>)
    ensures SameShape(g, orig)
    ensures forall row, col :: InGrid(orig, row, col) ==>
              g[row][col] == if Suppressed(prev, w, h, row, col) then 0.0 else orig[row][col]
  {
    seq(|orig|, row requires 0 <= row < |orig| =>
      seq(|orig[row]|, col requires 0 <= col < |orig[row]| =>
        if Suppressed(prev, w, h, row, col) then 0.0 else orig[row][col]))
  }

  /**
    Each match is the first maximum of the surface that the matches before
    it left behind (stated round by round; `RoundMaximum` gives it for
    every index).
   */
  ghost predicate RoundMaxima(orig: seq<seq<real>>, rs: seq<Match>, w: int, h: int)
    decreases |rs|
  {
    rs != [] ==>
      var prev := rs[..|rs| - 1];
      RoundMaxima(orig, prev, w, h)
      && IsFirstMax(Remaining(orig, prev, w, h), rs[|rs| - 1].rect.Location(), rs[|rs| - 1].similarity)
  }

  /** Match `j` is the first maximum of the original surface with the windows of the matches before it zeroed. */
  lemma {:induction false} RoundMaximum(orig: seq<seq<real>>, rs: seq<Match>, w: int, h: int, j: int)
    requires RoundMaxima(orig, rs, w, h) && 0 <= j < |rs|
    ensures IsFirstMax(Remaining(orig, rs[..j], w, h), rs[j].rect.Location(), rs[j].similarity)
    decreases |rs|
  {
    var prev := rs[..|rs| - 1];
    if j < |rs| - 1 {
      RoundMaximum(orig, prev, w, h, j);
      assert prev[..j] == rs[..j] && prev[j] == rs[j];
    }
  }

  /** A surface that tracks the windows of `rs` is the one `Remaining` describes. */
  lemma TracksIsRemaining(g: seq<seq<real>>, orig: seq<seq<real>>, rs: seq<Match>, w: int, h: int)
    requires Tracks(g, orig, rs, w, h)
    ensures g == Remaining(orig, rs, w, h)
  {
    var r := Remaining(orig, rs, w, h);
    forall row | 0 <= row < |g| ensures g[row] == r[row] {
      assert forall col :: 0 <= col < |g[row]| ==> g[row][col] == r[row][col];
    }
  }

  /** Appending the first maximum of the surface left by `rs` keeps every round a maximum of its own surface. */
  lemma RoundAppend(g: seq<seq<real>>, orig: seq<seq<real>>, rs: seq<Match>, m: Match, w: int, h: int)
    requires RoundMaxima(orig, rs, w, h) && Tracks(g, orig, rs, w, h)
    requires IsFirstMax(g, m.rect.Location(), m.similarity)
    ensures RoundMaxima(orig, rs + [m], w, h)
  {
    TracksIsRemaining(g, orig, rs, w, h);
    assert (rs + [m])[..|rs|] == rs;
  }

  /**
    What holds of the matches emitted so far, `rs`, and of the surface `g`
    they leave behind, given the surface `orig` before the first round.
    A threshold of 0 or less is admitted only while nothing clears it.
   */
  ghost predicate Emitted(g: seq<seq<real>>, orig: seq<seq<real>>, w: int, h: int, threshold: real,
                          rs: seq<Match>)
  {
    && SameShape(g, orig)
    && 1 <= w && 1 <= h
    && (0.0 < threshold || (rs == [] && Below(g, threshold)))
    && Qualified(rs, w, h, threshold)
    && OnZeroedPeaks(g, orig, rs)
    && DistinctLocations(rs)
    && NonIncreasing(rs)
    && Dominated(g, rs)
    && RoundMaxima(orig, rs, w, h)
    && Tracks(g, orig, rs, w, h)
  }

  lemma TracksAppend(g: seq<seq<real>>, g': seq<seq<real>>, orig: seq<seq<real>>, rs: seq<Match>, m: Match, w: int, h: int)
    requires SameShape(g, orig) && Tracks(g, orig, rs, w, h) && ZeroedIn(g, g', SuppressionRect(m.rect.Location(), w, h))
    ensures SameShape(g', orig) && Tracks(g', orig, rs + [m], w, h)
  {
    SuppressedAppend(rs, m, w, h);
  }

  /** A peak that clears a positive threshold lies in no earlier suppression window. */
  lemma PeakUntouched(g: seq<seq<real>>, orig: seq<seq<real>>, rs: seq<Match>, w: int, h: int, peak: Point)
    requires Tracks(g, orig, rs, w, h) && InGrid(g, peak.y, peak.x) && g[peak.y][peak.x] != 0.0
    requires InGrid(orig, peak.y, peak.x)
    ensures !Suppressed(rs, w, h, peak.y, peak.x) && g[peak.y][peak.x] == orig[peak.y][peak.x]
  {
  }

  /** The first emitted match is the first maximum of the original surface. */
  lemma FirstPeak(orig: seq<seq<real>>, rs: seq<Match>, w: int, h: int)
    requires RoundMaxima(orig, rs, w, h) && |rs| > 0
    ensures IsFirstMax(orig, rs[0].rect.Location(), rs[0].similarity)
  {
    RoundMaximum(orig, rs, w, h, 0);
    var r := Remaining(orig, rs[..0], w, h);
    forall row | 0 <= row < |orig| ensures r[row] == orig[row] {
      forall col | 0 <= col < |orig[row]| ensures r[row][col] == orig[row][col] {
        assert !Suppressed(rs[..0], w, h, row, col);
      }
    }
    assert r == orig;
  }

  lemma PeaksAppend(g: seq<seq<real>>, g': seq<seq<real>>, orig: seq<seq<real>>, rs: seq<Match>, m: Match, w: int, h: int)
    requires OnZeroedPeaks(g, orig, rs) && SameShape(g, orig) && ZeroedIn(g, g', SuppressionRect(m.rect.Location(), w, h))
    requires 1 <= w && 1 <= h
    requires InGrid(g, m.rect.y, m.rect.x) && m.similarity == orig[m.rect.y][m.rect.x]
    ensures OnZeroedPeaks(g', orig, rs + [m])
  {
    var rs' := rs + [m];
    assert Covers(SuppressionRect(m.rect.Location(), w, h), m.rect.y, m.rect.x);
    forall i | 0 <= i < |rs'|
      ensures InGrid(g', rs'[i].rect.y, rs'[i].rect.x) && InGrid(orig, rs'[i].rect.y, rs'[i].rect.x)
      ensures rs'[i].similarity == orig[rs'[i].rect.y][rs'[i].rect.x] && g'[rs'[i].rect.y][rs'[i].rect.x] == 0.0
    {
      if i < |rs| {
        assert rs'[i] == rs[i];
      }
    }
  }

  lemma OrderAppend(g: seq<seq<real>>, orig: seq<seq<real>>, rs: seq<Match>, m: Match, w: int, h: int, threshold: real)
    requires Qualified(rs, w, h, threshold) && OnZeroedPeaks(g, orig, rs) && DistinctLocations(rs)
    requires NonIncreasing(rs) && Dominated(g, rs)
    requires InGrid(g, m.rect.y, m.rect.x) && g[m.rect.y][m.rect.x] == m.similarity && 0.0 < m.similarity
    requires threshold <= m.similarity && m.rect.width == w && m.rect.height == h
    ensures Qualified(rs + [m], w, h, threshold) && DistinctLocations(rs + [m]) && NonIncreasing(rs + [m])
  {
    var rs' := rs + [m];
    forall i | 0 <= i < |rs'|
      ensures threshold <= rs'[i].similarity && rs'[i].rect.width == w && rs'[i].rect.height == h
    {
      if i < |rs| {
        assert rs'[i] == rs[i];
      }
    }
    forall i, j | 0 <= i < j < |rs'|
      ensures rs'[j].similarity <= rs'[i].similarity
      ensures rs'[i].rect.Location() != rs'[j].rect.Location()
    {
      assert rs'[i] == rs[i];
      if j < |rs| {
        assert rs'[j] == rs[j];
      }
    }
  }

  /**
    One round keeps `Emitted`: emitting the first maximum `max` of `g` at
    `peak` and zeroing its suppression window gives `g'`, and the cells of
    `g'` that clear the threshold are a proper subset of those of `g`.
   */
  lemma EmitPeak(g: seq<seq<real>>, g': seq<seq<real>>, orig: seq<seq<real>>, w: int, h: int,
                 threshold: real, rs: seq<Match>, peak: Point, max: real)
    requires Emitted(g, orig, w, h, threshold, rs)
    requires InGrid(g, peak.y, peak.x) && g[peak.y][peak.x] == max && threshold <= max
    requires forall row, col :: InGrid(g, row, col) ==> g[row][col] <= max
    requires forall row, col :: InGrid(g, row, col) && Before(row, col, peak.y, peak.x) ==> g[row][col] < max
    requires ZeroedIn(g, g', SuppressionRect(peak, w, h))
    ensures Emitted(g', orig, w, h, threshold, rs + [Match(Rect(peak.x, peak.y, w, h), max)])
    ensures AboveIn(g', threshold) < AboveIn(g, threshold)
  {
    var m := Match(Rect(peak.x, peak.y, w, h), max);
    var rs' := rs + [m];
    assert 0.0 < threshold;
    PeakUntouched(g, orig, rs, w, h, peak);
    RoundAppend(g, orig, rs, m, w, h);
    TracksAppend(g, g', orig, rs, m, w, h);
    PeaksAppend(g, g', orig, rs, m, w, h);
    OrderAppend(g, orig, rs, m, w, h, threshold);
    DominatedAppend(g, g', rs, m, SuppressionRect(peak, w, h));
    AboveShrinks(g, g', threshold, peak, w, h);
  }

  /** Zeroing a window keeps every cell at or below the largest one, which the appended match scores. */
  lemma DominatedAppend(g: seq<seq<real>>, g': seq<seq<real>>, rs: seq<Match>, m: Match, r: Rect)
    requires ZeroedIn(g, g', r) && 0.0 <= m.similarity
    requires forall row, col :: InGrid(g, row, col) ==> g[row][col] <= m.similarity
    ensures Dominated(g', rs + [m])
  {
    forall row, col | InGrid(g', row, col) ensures g'[row][col] <= m.similarity {
      assert InGrid(g, row, col);
    }
  }

  lemma AboveShrinks(g: seq<seq<real>>, g': seq<seq<real>>, threshold: real, peak: Point, w: int, h: int)
    requires ZeroedIn(g, g', SuppressionRect(peak, w, h)) && 0.0 < threshold && 1 <= w && 1 <= h
    requires InGrid(g, peak.y, peak.x) && threshold <= g[peak.y][peak.x]
    ensures AboveIn(g', threshold) < AboveIn(g, threshold)
  {
    assert Covers(SuppressionRect(peak, w, h), peak.y, peak.x);
    forall p | p in AboveIn(g', threshold) ensures p in AboveIn(g, threshold) {
    }
    assert (peak.y, peak.x) in AboveIn(g, threshold);
    assert (peak.y, peak.x) !in AboveIn(g', threshold);
  }

  /** The cells that clear the threshold. */
  /**
    What holds at the head of each round of extraction: `orig` is the
    surface before the first round, `rs` the matches emitted so far and `e`
    the extrema of the surface as it is now.
   */
  ghost predicate Extracting(s: array2<real>, orig: seq<seq<real>>, w: int, h: int, threshold: real,
                             rs: seq<Match>, e: MinMax)
    reads s
  {
    Emitted(Cells(s), orig, w, h, threshold, rs) && IsMinMaxOf(s, Whole(s), e)
  }

  /**
    One round of extraction: emit the current maximum, zero its suppression
    window and read the new extrema.
   */
  method ExtractPeak(s: array2<real>, ghost orig: seq<seq<real>>, w: int, h: int, threshold: real,
                     rs: seq<Match>, e: MinMax) returns (rs': seq<Match>, e': MinMax)
    requires Extracting(s, orig, w, h, threshold, rs, e) && e.max >= threshold
    modifies s
    ensures Extracting(s, orig, w, h, threshold, rs', e')
    ensures rs' == rs + [Match(Rect(e.maxLoc.x, e.maxLoc.y, w, h), e.max)]
    ensures AboveIn(Cells(s), threshold) < old(AboveIn(Cells(s), threshold))
  {
    ghost var g := Cells(s);
    var peak := e.maxLoc;
    SetZero(s, SuppressionRect(peak, w, h));
    EmitPeak(g, Cells(s), orig, w, h, threshold, rs, peak, e.max);
    rs' := rs + [Match(Rect(peak.x, peak.y, w, h), e.max)];
    e' := MinMaxOf(s, Whole(s));
  }

  /** Before the first round nothing has been emitted and the surface is untouched. */
  lemma NothingEmitted(orig: seq<seq<real>>, w: int, h: int, threshold: real)
    requires 1 <= w && 1 <= h
    requires 0.0 < threshold || Below(orig, threshold)
    ensures Emitted(orig, orig, w, h, threshold, [])
  {
  }

  /**
    When nothing left clears the threshold, every cell of `orig` that
    cleared it lies in some suppression window, and matches were emitted
    exactly when something cleared it at the start.
   */
  lemma Exhausted(g: seq<seq<real>>, orig: seq<seq<real>>, w: int, h: int, threshold: real, rs: seq<Match>)
    requires SameShape(g, orig) && Qualified(rs, w, h, threshold) && OnZeroedPeaks(g, orig, rs)
    requires Tracks(g, orig, rs, w, h) && Below(g, threshold)
    ensures forall row, col :: InGrid(orig, row, col) && orig[row][col] >= threshold ==> Suppressed(rs, w, h, row, col)
    ensures Below(orig, threshold) <==> rs == []
  {
    forall row, col | InGrid(orig, row, col) && orig[row][col] >= threshold
      ensures Suppressed(rs, w, h, row, col)
    {
      assert InGrid(g, row, col);
    }
    if rs != [] {
      assert InGrid(orig, rs[0].rect.y, rs[0].rect.x);
    }
  }

  /**
    With a threshold of 0 or less a round never brings the maximum below the
    threshold: the zeroed peak itself still clears it. So once some cell
    clears such a threshold, the extraction loop never ends.
   */
  lemma NoExitAtNonPositive(g: seq<seq<real>>, g': seq<seq<real>>, threshold: real, peak: Point, w: int, h: int)
    requires threshold <= 0.0 && 1 <= w && 1 <= h
    requires InGrid(g, peak.y, peak.x) && ZeroedIn(g, g', SuppressionRect(peak, w, h))
    ensures !Below(g', threshold)
  {
    assert Covers(SuppressionRect(peak, w, h), peak.y, peak.x);
    assert g'[peak.y][peak.x] == 0.0;
  }

  /**
    What a full extraction promises: the surface left behind is `orig` with
    the emitted windows zeroed and nothing on it clears the threshold, the
    list is empty exactly when nothing in `orig` cleared it, and every cell
    of `orig` that cleared it lies in some emitted window.
   */
  ghost predicate PeakResult(orig: seq<seq<real>>, g: seq<seq<real>>, w: int, h: int, threshold: real, rs: seq<Match>)
  {
    && Emitted(g, orig, w, h, threshold, rs)
    && Below(g, threshold)
    && (Below(orig, threshold) <==> rs == [])
    && forall row, col :: InGrid(orig, row, col) && orig[row][col] >= threshold ==> Suppressed(rs, w, h, row, col)
  }

  /**
    All matches at or above `threshold`, by repeated peak extraction with
    suppression on the surface `s`, which is modified in place. The loop
    ends exactly when the threshold is positive or nothing clears it from
    the start: with a threshold of 0 or less a zeroed cell clears it again,
    so the source loops forever there, and the precondition admits only the
    inputs on which it returns.
   */
  method GetMatches(s: array2<real>, w: int, h: int, threshold: real) returns (rs: seq<Match>)
    requires 1 <= s.Length0 && 1 <= s.Length1 && 1 <= w && 1 <= h
    requires 0.0 < threshold || AllBelow(s, threshold)
    modifies s
    ensures PeakResult(old(Cells(s)), Cells(s), w, h, threshold, rs)
  {
    ghost var orig := Cells(s);
    NothingEmitted(orig, w, h, threshold);
    rs := ExtractAll(s, orig, w, h, threshold);
    Exhausted(Cells(s), orig, w, h, threshold, rs);
  }

  /** The extraction loop of `GetMatches`: rounds run while the surface's maximum clears the threshold. */
  method ExtractAll(s: array2<real>, ghost orig: seq<seq<real>>, w: int, h: int, threshold: real)
    returns (rs: seq<Match>)
    requires 1 <= s.Length0 && 1 <= s.Length1
    requires Emitted(Cells(s), orig, w, h, threshold, [])
    modifies s
    ensures Emitted(Cells(s), orig, w, h, threshold, rs)
    ensures AllBelow(s, threshold)
  {
    var e := MinMaxOf(s, Whole(s));
    rs := [];
    while e.max >= threshold
      invariant Extracting(s, orig, w, h, threshold, rs, e)
      decreases AboveIn(Cells(s), threshold)
    {
      rs, e := ExtractPeak(s, orig, w, h, threshold, rs, e);
    }
  }
}
