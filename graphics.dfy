/**
  Finding a pattern in a captured image. The pattern's matcher is given as
  a scorer: for an image it reports the extrema of the pattern's
  correlation surface over that image, whose locations are the top-left
  corners of placements of the pattern inside the image. Finding one
  occurrence gates the best placement by the pattern's threshold; finding
  all of them repeatedly takes the best placement and covers it with a
  filler patch that does not look like the pattern, until nothing left in
  the image clears the threshold.
 */
module Graphics {
  import opened Types
  import opened Patterns

  /** The pattern's matcher applied to an image. */
  type Scorer = Grid -> MinMax

  function PatternWidth(p: Pattern): int { GridWidth(p.image) }

  function PatternHeight(p: Pattern): int { GridHeight(p.image) }

  /** A `pw` x `ph` patch at `at` lies inside a `w` x `h` image. */
  predicate Fits(at: Point, w: int, h: int, pw: int, ph: int)
  {
    0 <= at.x && at.x + pw <= w && 0 <= at.y && at.y + ph <= h
  }

  /** Every location the scorer reports for a `w` x `h` image is a placement of a `pw` x `ph` pattern inside it. */
  ghost predicate Places(score: Scorer, w: int, h: int, pw: int, ph: int)
  {
    forall g :: IsGrid(g, w, h) ==> Fits(score(g).minLoc, w, h, pw, ph) && Fits(score(g).maxLoc, w, h, pw, ph)
  }

  /** The match at the pattern's best placement in `image`, if it reaches the pattern's threshold. */
  function Find(image: Grid, p: Pattern, score: Scorer): (r: Option<Match>)
    ensures r.None? <==> score(image).max < p.threshold
    ensures r.Some? ==>
              && r.value.rect == Rect(score(image).maxLoc.x, score(image).maxLoc.y, PatternWidth(p), PatternHeight(p))
              && p.threshold <= r.value.similarity == score(image).max
  {
    var mm := score(image);
    if mm.max >= p.threshold then
      Some(Match(Rect(mm.maxLoc.x, mm.maxLoc.y, PatternWidth(p), PatternHeight(p)), mm.max))
    else
      None
  }

  /** Cell (row, col) of the image lies under patch `f` placed at `at`. */
  predicate UnderPatch(f: Grid, at: Point, row: int, col: int)
  {
    at.y <= row < at.y + |f| && at.x <= col < at.x + |f[row - at.y]|
  }

  /** The `w` x `h` part of `g` whose top-left corner is `at`. */
  function SubGrid(g: Grid, at: Point, w: int, h: int): (f: Grid)
    requires IsGrid(g, GridWidth(g), |g|) && 0 <= w && 0 <= h && Fits(at, GridWidth(g), |g|, w, h)
    ensures IsGrid(f, w, h)
    ensures forall row, col :: 0 <= row < h && 0 <= col < w ==> f[row][col] == g[at.y + row][at.x + col]
  {
    seq(h, row requires 0 <= row < h => g[at.y + row][at.x .. at.x + w])
  }

  /** `g` with patch `f` copied over it at `at`; the part of the patch outside `g` is dropped. */
  function Paste(g: Grid, f: Grid, at: Point): (g': Grid)
    ensures |g'| == |g| && forall row :: 0 <= row < |g| ==> |g'[row]| == |g[row]|
  {
    seq(|g|, row requires 0 <= row < |g| =>
      seq(|g[row]|, col requires 0 <= col < |g[row]| =>
        if UnderPatch(f, at, row, col) then f[row - at.y][col - at.x] else g[row][col]))
  }

  /** Pasting overwrites exactly the cells under the patch and keeps every other cell. */
  lemma PasteCells(g: Grid, f: Grid, at: Point, row: int, col: int)
    requires 0 <= row < |g| && 0 <= col < |g[row]|
    ensures UnderPatch(f, at, row, col) ==> Paste(g, f, at)[row][col] == f[row - at.y][col - at.x]
    ensures !UnderPatch(f, at, row, col) ==> Paste(g, f, at)[row][col] == g[row][col]
  {
  }

  /** Reading back the region a patch was pasted over gives the patch. */
  lemma PasteThenSubGrid(g: Grid, f: Grid, at: Point)
    requires IsGrid(g, GridWidth(g), |g|) && 0 < |f| && IsGrid(f, |f[0]|, |f|)
    requires Fits(at, GridWidth(g), |g|, |f[0]|, |f|)
    ensures IsGrid(Paste(g, f, at), GridWidth(g), |g|)
    ensures SubGrid(Paste(g, f, at), at, |f[0]|, |f|) == f
  {
    var g' := Paste(g, f, at);
    var w := |f[0]|;
    assert |g| > 0;
    assert IsGrid(g', GridWidth(g), |g|);
    var sub := SubGrid(g', at, w, |f|);
    forall row | 0 <= row < |f|
      ensures sub[row] == f[row]
    {
      forall col | 0 <= col < w
        ensures sub[row][col] == f[row][col]
      {
        assert UnderPatch(f, at, at.y + row, at.x + col);
      }
    }
  }

  /**
    The patch used to cover found occurrences: the part of the image at
    the worst placement when that placement scores below the threshold,
    otherwise the first of the two probe images (drawn at the pattern's
    size) that scores below the threshold as an image of its own; when
    neither does, the pattern is rejected as one that matches anything.
   */
  function Filler(g: Grid, p: Pattern, score: Scorer, probe1: Grid, probe2: Grid): (r: Result<Grid, PatternError>)
    requires IsGrid(g, GridWidth(g), |g|) && 0 <= PatternWidth(p) && 0 <= PatternHeight(p)
    requires Places(score, GridWidth(g), |g|, PatternWidth(p), PatternHeight(p))
    requires IsGrid(probe1, PatternWidth(p), PatternHeight(p)) && IsGrid(probe2, PatternWidth(p), PatternHeight(p))
    ensures r.Failure? <==>
              score(g).min >= p.threshold && score(probe1).max >= p.threshold && score(probe2).max >= p.threshold
    ensures r.Success? ==> IsGrid(r.value, PatternWidth(p), PatternHeight(p))
    ensures score(g).min < p.threshold ==> r == Success(SubGrid(g, score(g).minLoc, PatternWidth(p), PatternHeight(p)))
    ensures r.Success? && p.threshold <= score(g).min ==> score(r.value).max < p.threshold
    ensures p.threshold <= score(g).min && score(probe1).max < p.threshold ==> r == Success(probe1)
    ensures p.threshold <= score(g).min && p.threshold <= score(probe1).max && score(probe2).max < p.threshold ==>
              r == Success(probe2)
  {
    var mm := score(g);
    if mm.min < p.threshold then
      Success(SubGrid(g, mm.minLoc, PatternWidth(p), PatternHeight(p)))
    else if score(probe1).max < p.threshold then
      Success(probe1)
    else if score(probe2).max < p.threshold then
      Success(probe2)
    else
      Failure(InvalidPattern)
  }

  /** What finding all occurrences produces: the matches, the image left behind, and whether the search ran out. */
  datatype Outcome = Outcome(matches: seq<Match>, final: Grid, complete: bool)

  /** Every match reaches the threshold and has the pattern's size. */
  predicate Qualified(rs: seq<Match>, pw: int, ph: int, threshold: real)
  {
    forall i :: 0 <= i < |rs| ==>
      threshold <= rs[i].similarity && rs[i].rect.width == pw && rs[i].rect.height == ph
  }

  /**
    The search for all occurrences, allowed at most `fuel` rounds: while
    the best placement reaches the threshold, record it as a match and
    cover it with the filler `f`.
   */
  function Extract(g: Grid, f: Grid, score: Scorer, threshold: real, pw: int, ph: int, fuel: nat): (o: Outcome)
    ensures Qualified(o.matches, pw, ph, threshold)
    ensures |o.matches| <= fuel
    ensures o.complete ==> score(o.final).max < threshold
    ensures !o.complete ==> |o.matches| == fuel
    ensures |o.final| == |g| && forall row :: 0 <= row < |g| ==> |o.final[row]| == |g[row]|
    decreases fuel
  {
    var mm := score(g);
    if mm.max < threshold then
      Outcome([], g, true)
    else if fuel == 0 then
      Outcome([], g, false)
    else
      var o := Extract(Paste(g, f, mm.maxLoc), f, score, threshold, pw, ph, fuel - 1);
      o.(matches := [Match(Rect(mm.maxLoc.x, mm.maxLoc.y, pw, ph), mm.max)] + o.matches)
  }

  /** The top-left corners of the matches. */
  function Locations(rs: seq<Match>): (ls: seq<Point>)
    ensures |ls| == |rs| && forall i :: 0 <= i < |rs| ==> ls[i] == rs[i].rect.Location()
  {
    if rs == [] then [] else [rs[0].rect.Location()] + Locations(rs[1..])
  }

  /** `g` with the filler pasted at each location in turn. */
  function PasteAll(g: Grid, f: Grid, ls: seq<Point>): (g': Grid)
    ensures |g'| == |g| && forall row :: 0 <= row < |g| ==> |g'[row]| == |g[row]|
    decreases |ls|
  {
    if ls == [] then g else PasteAll(Paste(g, f, ls[0]), f, ls[1..])
  }

  /** The image the search leaves behind is the original with the filler pasted over every match. */
  lemma {:induction false} ExtractCovers(g: Grid, f: Grid, score: Scorer, threshold: real, pw: int, ph: int, fuel: nat)
    ensures var o := Extract(g, f, score, threshold, pw, ph, fuel);
            o.final == PasteAll(g, f, Locations(o.matches))
    decreases fuel
  {
    var mm := score(g);
    if mm.max >= threshold && fuel > 0 {
      var g' := Paste(g, f, mm.maxLoc);
      ExtractCovers(g', f, score, threshold, pw, ph, fuel - 1);
      var o := Extract(g, f, score, threshold, pw, ph, fuel);
      var o' := Extract(g', f, score, threshold, pw, ph, fuel - 1);
      assert o.matches == [Match(Rect(mm.maxLoc.x, mm.maxLoc.y, pw, ph), mm.max)] + o'.matches;
      assert Locations(o.matches)[1..] == Locations(o'.matches);
    }
  }

  /**
    Match `j` of the search is what finding the pattern once reports on
    the original image with the filler pasted over the first `j` matches;
    the first match is what finding the pattern once reports, and an
    empty result of a search that had fuel means finding once fails too.
   */
  lemma {:induction false} ExtractIsRepeatedFind(g: Grid, p: Pattern, f: Grid, score: Scorer, fuel: nat, j: int)
    requires 0 <= j < |Extract(g, f, score, p.threshold, PatternWidth(p), PatternHeight(p), fuel).matches|
    ensures var rs := Extract(g, f, score, p.threshold, PatternWidth(p), PatternHeight(p), fuel).matches;
            Find(PasteAll(g, f, Locations(rs[..j])), p, score) == Some(rs[j])
    decreases fuel
  {
    var rs := Extract(g, f, score, p.threshold, PatternWidth(p), PatternHeight(p), fuel).matches;
    var mm := score(g);
    var g' := Paste(g, f, mm.maxLoc);
    var rs' := Extract(g', f, score, p.threshold, PatternWidth(p), PatternHeight(p), fuel - 1).matches;
    assert rs == [Match(Rect(mm.maxLoc.x, mm.maxLoc.y, PatternWidth(p), PatternHeight(p)), mm.max)] + rs';
    if j > 0 {
      ExtractIsRepeatedFind(g', p, f, score, fuel - 1, j - 1);
      assert rs[..j][1..] == rs'[..j - 1];
      assert Locations(rs[..j])[1..] == Locations(rs'[..j - 1]);
    } else {
      assert rs[..0] == [];
    }
  }

  /** With fuel left, the search finds nothing exactly when finding the pattern once fails. */
  lemma ExtractEmpty(g: Grid, p: Pattern, f: Grid, score: Scorer, fuel: nat)
    requires 0 < fuel
    ensures Extract(g, f, score, p.threshold, PatternWidth(p), PatternHeight(p), fuel).matches == []
            <==> Find(g, p, score).None?
  {
  }

  /** The pixels of an image buffer, row by row. */
  function Pixels(a: array2<int>): (g: Grid)
    reads a
    ensures IsGrid(g, a.Length1, a.Length0)
    ensures forall row, col :: 0 <= row < a.Length0 && 0 <= col < a.Length1 ==> g[row][col] == a[row, col]
  {
    seq(a.Length0, row requires 0 <= row < a.Length0 reads a =>
      seq(a.Length1, col requires 0 <= col < a.Length1 reads a => a[row, col]))
  }

  /** Copy patch `f` over `image` at `at`, in place. */
  method PasteInto(image: array2<int>, f: Grid, at: Point)
    modifies image
    ensures Pixels(image) == Paste(old(Pixels(image)), f, at)
  {
    ghost var g := Pixels(image);
    forall row, col | 0 <= row < image.Length0 && 0 <= col < image.Length1 && UnderPatch(f, at, row, col) {
      image[row, col] := f[row - at.y][col - at.x];
    }
    ghost var g' := Paste(g, f, at);
    forall row | 0 <= row < image.Length0
      ensures Pixels(image)[row] == g'[row]
    {
      assert forall col :: 0 <= col < image.Length1 ==> Pixels(image)[row][col] == g'[row][col];
    }
  }

  /**
    Find all occurrences of the pattern in `image`, covering each one in
    place with the filler; at most `fuel` rounds are run, and `complete`
    says whether the search stopped because nothing reached the threshold.
    A pattern without a usable filler is rejected and the image is left as
    it was.
   */
  method FindAll(image: array2<int>, p: Pattern, score: Scorer, probe1: Grid, probe2: Grid, fuel: nat)
    returns (r: Result<seq<Match>, PatternError>, ghost complete: bool)
    requires 1 <= PatternWidth(p) <= image.Length1 && 1 <= PatternHeight(p) <= image.Length0
    requires Places(score, image.Length1, image.Length0, PatternWidth(p), PatternHeight(p))
    requires IsGrid(probe1, PatternWidth(p), PatternHeight(p)) && IsGrid(probe2, PatternWidth(p), PatternHeight(p))
    modifies image
    ensures Filler(old(Pixels(image)), p, score, probe1, probe2).Failure? ==>
              r == Failure(InvalidPattern) && Pixels(image) == old(Pixels(image))
    ensures Filler(old(Pixels(image)), p, score, probe1, probe2).Success? ==>
              var o := Extract(old(Pixels(image)), Filler(old(Pixels(image)), p, score, probe1, probe2).value,
                               score, p.threshold, PatternWidth(p), PatternHeight(p), fuel);
              r == Success(o.matches) && Pixels(image) == o.final && complete == o.complete
  {
    var g := Pixels(image);
    var choice := Filler(g, p, score, probe1, probe2);
    if choice.Failure? {
      return Failure(choice.error), false;
    }
    var o := Search(image, choice.value, score, p.threshold, PatternWidth(p), PatternHeight(p), fuel);
    r, complete := Success(o.matches), o.complete;
  }

  /** The search loop of `FindAll`, proved against `Extract`. */
  method Search(image: array2<int>, f: Grid, score: Scorer, threshold: real, pw: int, ph: int, fuel: nat)
    returns (o: Outcome)
    modifies image
    ensures o == Extract(old(Pixels(image)), f, score, threshold, pw, ph, fuel) && Pixels(image) == o.final
  {
    ghost var goal := Extract(Pixels(image), f, score, threshold, pw, ph, fuel);
    var rs: seq<Match> := [];
    var mm := score(Pixels(image));
    var n: nat := 0;
    while mm.max >= threshold && n < fuel
      invariant n <= fuel && mm == score(Pixels(image))
      invariant goal == Prefixed(rs, Extract(Pixels(image), f, score, threshold, pw, ph, fuel - n))
      decreases fuel - n
    {
      rs, mm := SearchRound(image, f, score, threshold, pw, ph, rs, mm, fuel - n);
      n := n + 1;
    }
    o := Outcome(rs, Pixels(image), mm.max < threshold);
  }

  /** One round of `Search`: record the best placement, cover it with the filler and score again. */
  method SearchRound(image: array2<int>, f: Grid, score: Scorer, threshold: real, pw: int, ph: int,
                     rs: seq<Match>, mm: MinMax, ghost left: nat)
    returns (rs': seq<Match>, mm': MinMax)
    requires 0 < left && mm == score(Pixels(image)) && threshold <= mm.max
    modifies image
    ensures mm' == score(Pixels(image))
    ensures Prefixed(rs, Extract(old(Pixels(image)), f, score, threshold, pw, ph, left))
            == Prefixed(rs', Extract(Pixels(image), f, score, threshold, pw, ph, left - 1))
  {
    ghost var g := Pixels(image);
    var m := Match(Rect(mm.maxLoc.x, mm.maxLoc.y, pw, ph), mm.max);
    SearchStep(rs, m, g, f, score, threshold, pw, ph, left);
    rs' := rs + [m];
    PasteInto(image, f, mm.maxLoc);
    mm' := score(Pixels(image));
  }

  /** One round of the search moves the best placement's match from the search still to run to the matches found. */
  lemma SearchStep(rs: seq<Match>, m: Match, g: Grid, f: Grid, score: Scorer, threshold: real, pw: int, ph: int, fuel: nat)
    requires threshold <= score(g).max && 0 < fuel
    requires m == Match(Rect(score(g).maxLoc.x, score(g).maxLoc.y, pw, ph), score(g).max)
    ensures Prefixed(rs, Extract(g, f, score, threshold, pw, ph, fuel))
            == Prefixed(rs + [m], Extract(Paste(g, f, score(g).maxLoc), f, score, threshold, pw, ph, fuel - 1))
  {
    var o := Extract(Paste(g, f, score(g).maxLoc), f, score, threshold, pw, ph, fuel - 1);
    assert rs + ([m] + o.matches) == (rs + [m]) + o.matches;
  }

  /** An outcome with `rs` found before it. */
  function Prefixed(rs: seq<Match>, o: Outcome): Outcome
  {
    o.(matches := rs + o.matches)
  }

  /**
    Finding all occurrences in a bitmap works on a copy, so the caller's
    image is not changed; the result is the search on that image.
   */
  method FindAllInCopy(image: Grid, p: Pattern, score: Scorer, probe1: Grid, probe2: Grid, fuel: nat)
    returns (r: Result<seq<Match>, PatternError>)
    requires 1 <= PatternWidth(p) && 1 <= PatternHeight(p)
    requires 0 < |image| && IsGrid(image, |image[0]|, |image|)
    requires PatternWidth(p) <= |image[0]| && PatternHeight(p) <= |image|
    requires Places(score, |image[0]|, |image|, PatternWidth(p), PatternHeight(p))
    requires IsGrid(probe1, PatternWidth(p), PatternHeight(p)) && IsGrid(probe2, PatternWidth(p), PatternHeight(p))
    ensures Filler(image, p, score, probe1, probe2).Failure? ==> r == Failure(InvalidPattern)
    ensures Filler(image, p, score, probe1, probe2).Success? ==>
              r == Success(Extract(image, Filler(image, p, score, probe1, probe2).value,
                                   score, p.threshold, PatternWidth(p), PatternHeight(p), fuel).matches)
  {
    var w, h := |image[0]|, |image|;
    var copy := new int[h, w]((row, col) requires 0 <= row < h && 0 <= col < w => image[row][col]);
    forall row | 0 <= row < h
      ensures Pixels(copy)[row] == image[row]
    {
    }
    assert Pixels(copy) == image;
    ghost var complete;
    r, complete := FindAll(copy, p, score, probe1, probe2, fuel);
  }
}
