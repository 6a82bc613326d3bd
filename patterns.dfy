/**
  Patterns of the older generation: an image to look for, the similarity a
  match must reach, and the matcher that scores it. Constructors that are
  not given a threshold take the default current at construction time,
  which is passed in here as `defaultThreshold`; constructors that are not
  given a matcher take the scanning matcher.
 */
module Patterns {
  import opened Types

  /** The value the default threshold starts with. */
  const InitialDefaultThreshold: real := 0.75

  datatype Pattern = Pattern(image: Grid, threshold: real, matcher: MatcherKind)

  /** The full constructor: stores image, threshold and matcher as given. */
  function Create(bitmap: Grid, threshold: real, matcher: MatcherKind): Pattern
  {
    Pattern(bitmap, threshold, matcher)
  }

  /** A pattern with the given matcher and the current default threshold. */
  function WithMatcher(bitmap: Grid, matcher: MatcherKind, defaultThreshold: real): Pattern
  {
    Create(bitmap, defaultThreshold, matcher)
  }

  /** A pattern with the given threshold and the scanning matcher. */
  function WithThreshold(bitmap: Grid, threshold: real): Pattern
  {
    Create(bitmap, threshold, ScanCcoeffNormed)
  }

  /** A pattern with the current default threshold and the scanning matcher. */
  function FromBitmap(bitmap: Grid, defaultThreshold: real): Pattern
  {
    WithThreshold(bitmap, defaultThreshold)
  }

  /** Each constructor stores what it is given and fills the rest with its defaults. */
  lemma ConstructorFields(bitmap: Grid, threshold: real, matcher: MatcherKind, defaultThreshold: real)
    ensures Create(bitmap, threshold, matcher) == Pattern(bitmap, threshold, matcher)
    ensures WithMatcher(bitmap, matcher, defaultThreshold) == Pattern(bitmap, defaultThreshold, matcher)
    ensures WithThreshold(bitmap, threshold) == Pattern(bitmap, threshold, ScanCcoeffNormed)
    ensures FromBitmap(bitmap, defaultThreshold) == Pattern(bitmap, defaultThreshold, ScanCcoeffNormed)
    ensures FromBitmap(bitmap, InitialDefaultThreshold).threshold == 0.75
  {
  }

  /**
    The two routes to a fully defaulted pattern agree, and a pattern keeps
    the default it was built with: building it under another default gives
    a pattern that differs only in its threshold.
   */
  lemma DefaultsAgree(bitmap: Grid, d1: real, d2: real)
    ensures FromBitmap(bitmap, d1) == WithMatcher(bitmap, ScanCcoeffNormed, d1)
    ensures FromBitmap(bitmap, d1).threshold == d1
    ensures FromBitmap(bitmap, d2) == FromBitmap(bitmap, d1).(threshold := d2)
  {
  }
}
