/**
  Image patterns of the current generation. They hold the same three
  values as the older patterns, but a constructor that is not given a
  matcher takes the peak-extracting matcher, and the pattern itself gates
  the matcher's results by its threshold.
 */
module ImagePatterns {
  import opened Types
  import opened Surface
  import opened Patterns
  import PeakMatcher
  import ScanMatcher

  /** A pattern with the given threshold and the peak-extracting matcher. */
  function WithThreshold(bitmap: Grid, threshold: real): Pattern
  {
    Create(bitmap, threshold, PeakCcoeffNormed)
  }

  /** A pattern with the current default threshold and the peak-extracting matcher. */
  function FromBitmap(bitmap: Grid, defaultThreshold: real): Pattern
  {
    WithThreshold(bitmap, defaultThreshold)
  }

  /** The defaulting constructors of this generation differ from the older ones only in the matcher. */
  lemma ConstructorFields(bitmap: Grid, threshold: real, defaultThreshold: real)
    ensures WithThreshold(bitmap, threshold) == Pattern(bitmap, threshold, PeakCcoeffNormed)
    ensures FromBitmap(bitmap, defaultThreshold) == Pattern(bitmap, defaultThreshold, PeakCcoeffNormed)
    ensures FromBitmap(bitmap, defaultThreshold) == Patterns.FromBitmap(bitmap, defaultThreshold).(matcher := PeakCcoeffNormed)
    ensures FromBitmap(bitmap, InitialDefaultThreshold) == Pattern(bitmap, 0.75, PeakCcoeffNormed)
  {
  }

  /** The pattern's image has at least one pixel. */
  predicate NonEmpty(p: Pattern)
  {
    1 <= GridWidth(p.image) && 1 <= GridHeight(p.image)
  }

  /**
    The best match of the pattern on the correlation surface `s`, or
    nothing when it scores below the pattern's threshold; a score equal to
    the threshold is accepted.
   */
  method GetMax(p: Pattern, s: array2<real>) returns (r: Option<Match>)
    requires 1 <= s.Length0 && 1 <= s.Length1
    ensures r.None? <==> Below(Cells(s), p.threshold)
    ensures r.Some? ==>
              && PeakMatcher.IsFirstMax(Cells(s), r.value.rect.Location(), r.value.similarity)
              && p.threshold <= r.value.similarity
              && r.value.rect.width == GridWidth(p.image) && r.value.rect.height == GridHeight(p.image)
  {
    var m: Match;
    // Both pattern generations share one type here, so an image pattern may
    // carry the older scanning matcher, which the library's typed matcher field rules out.
    if p.matcher == ScanCcoeffNormed {
      m := ScanMatcher.GetMax(s, GridWidth(p.image), GridHeight(p.image));
    } else {
      m := PeakMatcher.GetMax(s, GridWidth(p.image), GridHeight(p.image));
    }
    if m.similarity < p.threshold {
      r := None;
    } else {
      r := Some(m);
    }
  }

  /**
    All matches of the pattern on the correlation surface `s`, from the
    pattern's own matcher run with the pattern's own threshold and returned
    unchanged. `ts` names the triggering cells when the scanning matcher
    runs; the peak-extracting matcher has none.
   */
  method GetMatches(p: Pattern, s: array2<real>) returns (rs: seq<Match>, ghost ts: seq<Point>)
    requires 1 <= s.Length0 && 1 <= s.Length1 && NonEmpty(p)
    requires p.matcher == PeakCcoeffNormed ==> 0.0 < p.threshold || AllBelow(s, p.threshold)
    modifies s
    ensures PeakMatcher.Qualified(rs, GridWidth(p.image), GridHeight(p.image), p.threshold)
    ensures p.matcher == ScanCcoeffNormed ==>
              ScanMatcher.ScanResult(old(Cells(s)), Cells(s), GridWidth(p.image), GridHeight(p.image), p.threshold, rs, ts)
    ensures p.matcher == PeakCcoeffNormed ==>
              PeakMatcher.PeakResult(old(Cells(s)), Cells(s), GridWidth(p.image), GridHeight(p.image), p.threshold, rs)
  {
    // Both pattern generations share one type here, so an image pattern may
    // carry the older scanning matcher, which the library's typed matcher field rules out.
    if p.matcher == ScanCcoeffNormed {
      rs, ts := ScanMatches(s, GridWidth(p.image), GridHeight(p.image), p.threshold);
    } else {
      rs := PeakMatches(s, GridWidth(p.image), GridHeight(p.image), p.threshold);
      ts := [];
    }
  }

  /** The scanning matcher's matches, each clearing the threshold, as that matcher promises them. */
  method ScanMatches(s: array2<real>, w: int, h: int, threshold: real) returns (rs: seq<Match>, ghost ts: seq<Point>)
    requires 1 <= w && 1 <= h
    modifies s
    ensures PeakMatcher.Qualified(rs, w, h, threshold)
    ensures ScanMatcher.ScanResult(old(Cells(s)), Cells(s), w, h, threshold, rs, ts)
  {
    rs, ts := ScanMatcher.GetMatches(s, w, h, threshold);
  }

  /** The peak-extracting matcher's matches, each clearing the threshold, as that matcher promises them. */
  method PeakMatches(s: array2<real>, w: int, h: int, threshold: real) returns (rs: seq<Match>)
    requires 1 <= s.Length0 && 1 <= s.Length1 && 1 <= w && 1 <= h
    requires 0.0 < threshold || AllBelow(s, threshold)
    modifies s
    ensures PeakMatcher.Qualified(rs, w, h, threshold)
    ensures PeakMatcher.PeakResult(old(Cells(s)), Cells(s), w, h, threshold, rs)
  {
    rs := PeakMatcher.GetMatches(s, w, h, threshold);
  }
}
