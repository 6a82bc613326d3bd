/**
  A rectangular area of the screen: its rectangle with the corner and
  centre points derived from it, translation of area-relative points to
  screen points, sub-areas, and the loops that poll the area until a
  pattern appears, enough occurrences appear, a pattern vanishes, or one
  of several patterns appears, each bounded by a timeout.

  The screen and the clock are inputs: `frames[k]` is the image the k-th
  capture of the area returns, and `clock[k]` is the stopwatch reading
  when the loop tests its condition for the k-th time.
 */
module Areas {
  import opened Types
  import opened Patterns
  import opened Graphics

  /** The wait time a new area starts with, in milliseconds. */
  const DefaultWaitTimeMilliseconds: int := 10000

  /** Integer division by two that truncates toward zero, as C# does for `int`. */
  function Half(n: int): (r: int)
    ensures 0 <= n ==> 0 <= r && 2 * r <= n <= 2 * r + 1
    ensures n < 0 ==> r <= 0 && 2 * r - 1 <= n <= 2 * r
  {
    if 0 <= n then n / 2 else -((-n) / 2)
  }

  /** The centre point of a rectangle, rounded toward its top-left corner (toward its origin for negative sizes). */
  function CenterOf(r: Rect): Point
  {
    Point(r.Left() + Half(r.width), r.Top() + Half(r.height))
  }

  /** The centre lies between the left and right edges and between the top and bottom edges, whatever the signs of the sizes. */
  lemma CenterInside(r: Rect)
    ensures 0 <= r.width ==> r.Left() <= CenterOf(r).x <= r.Right()
    ensures r.width < 0 ==> r.Right() <= CenterOf(r).x <= r.Left()
    ensures 0 <= r.height ==> r.Top() <= CenterOf(r).y <= r.Bottom()
    ensures r.height < 0 ==> r.Bottom() <= CenterOf(r).y <= r.Top()
    ensures 0 <= r.width ==> r.Right() - CenterOf(r).x - (CenterOf(r).x - r.Left()) in {0, 1}
  {
  }

  /** The rectangle `r`, given relative to the top-left corner of `outer`, in screen coordinates. */
  function SubRect(outer: Rect, r: Rect): (s: Rect)
    ensures s.width == r.width && s.height == r.height
    ensures s.x - outer.x == r.x && s.y - outer.y == r.y
  {
    Rect(outer.x + r.x, outer.y + r.y, r.width, r.height)
  }

  /** A sub-area of a sub-area is the sub-area at the summed offset. */
  lemma SubRectCompose(outer: Rect, a: Rect, b: Rect)
    ensures SubRect(SubRect(outer, a), b) == SubRect(outer, SubRect(a, b))
  {
  }

  /** The stopwatch readings never go below zero and never go back. */
  predicate Stopwatch(clock: seq<int>)
  {
    forall i, j :: 0 <= i <= j < |clock| ==> 0 <= clock[i] <= clock[j]
  }

  /** Some reading reaches the timeout, so the loops end. */
  predicate Expires(clock: seq<int>, timeout: int)
  {
    0 < |clock| && timeout <= clock[|clock| - 1]
  }

  /** The index of the first reading that has reached the timeout. */
  function Deadline(clock: seq<int>, timeout: int): (n: nat)
    requires Expires(clock, timeout)
    ensures n < |clock| && timeout <= clock[n]
    ensures forall k :: 0 <= k < n ==> clock[k] < timeout
  {
    if timeout <= clock[0] then 0 else 1 + Deadline(clock[1..], timeout)
  }

  /** A timeout that is not positive has expired at the first reading. */
  lemma NoTimeNoDeadline(clock: seq<int>, timeout: int)
    requires Stopwatch(clock) && Expires(clock, timeout) && timeout <= 0
    ensures Deadline(clock, timeout) == 0
  {
    assert 0 <= clock[0];
  }

  /** A match found in an area-relative image, moved to screen coordinates by the area's origin. */
  function Moved(m: Match, origin: Point): (m': Match)
    ensures m'.rect == SubRect(Rect(origin.x, origin.y, 0, 0), m.rect) && m'.similarity == m.similarity
  {
    Match(Rect(origin.x + m.rect.x, origin.y + m.rect.y, m.rect.width, m.rect.height), m.similarity)
  }

  /** The index of the first pattern found in `frame`, or the number of patterns when none is. */
  function FirstFound(frame: Grid, patterns: seq<Pattern>, scores: seq<Scorer>): (i: nat)
    requires |scores| == |patterns|
    ensures i <= |patterns|
    ensures forall j :: 0 <= j < i ==> Find(frame, patterns[j], scores[j]).None?
    ensures i < |patterns| ==> Find(frame, patterns[i], scores[i]).Some?
  {
    if patterns == [] then 0
    else if Find(frame, patterns[0], scores[0]).Some? then 0
    else 1 + FirstFound(frame, patterns[1..], scores[1..])
  }

  /**
    What one capture shows when waiting for any of several patterns: the
    first pattern, in the given order, that is found in the frame, moved
    to screen coordinates; a later pattern with a higher score does not win.
   */
  function Sighting(frame: Grid, patterns: seq<Pattern>, scores: seq<Scorer>, origin: Point): (r: Option<Match>)
    requires |scores| == |patterns|
    ensures r.None? <==> forall j :: 0 <= j < |patterns| ==> Find(frame, patterns[j], scores[j]).None?
    ensures r.Some? ==>
              var i := FirstFound(frame, patterns, scores);
              i < |patterns| && r.value == Moved(Find(frame, patterns[i], scores[i]).value, origin)
  {
    var i := FirstFound(frame, patterns, scores);
    if i < |patterns| then Some(Moved(Find(frame, patterns[i], scores[i]).value, origin)) else None
  }

  /** The index of the first of the first `n` samples with at least `count` matches, or `n` when there is none. */
  function FirstEnough(found: seq<seq<Match>>, n: nat, count: nat): (k: nat)
    requires n <= |found|
    ensures k <= n
    ensures forall j :: 0 <= j < k ==> |found[j]| < count
    ensures k < n ==> count <= |found[k]|
  {
    if n == 0 then 0
    else if count <= |found[0]| then 0
    else 1 + FirstEnough(found[1..], n - 1, count)
  }

  /**
    What waiting for `count` occurrences returns when the loop runs while
    the latest result has at least `count` matches, with `n` samples
    possible before the deadline.
   */
  function CountWaitAsWritten(found: seq<seq<Match>>, n: nat, count: nat): seq<Match>
    requires n <= |found|
  {
    if 1 <= count || n == 0 then [] else found[n - 1]
  }

  /**
    What waiting for `count` occurrences returns when the loop runs while
    the latest result has fewer than `count` matches: the first sample with
    enough matches, otherwise the last sample taken before the deadline.
   */
  function CountWaitIntended(found: seq<seq<Match>>, n: nat, count: nat): (r: seq<Match>)
    requires n <= |found|
    ensures 1 <= count ==> (count <= |r| <==> exists k :: 0 <= k < n && count <= |found[k]|)
  {
    if count == 0 then []
    else
      var k := FirstEnough(found, n, count);
      if k < n then found[k] else if n == 0 then [] else found[n - 1]
  }

  /**
    As written, waiting for one or more occurrences returns an empty list
    at once even when the very first capture would have shown enough of
    them; with the guard the other way round, it returns those matches.
   */
  lemma InvertedCountGuard(found: seq<seq<Match>>, n: nat, count: nat)
    requires n <= |found| && 1 <= count
    requires exists k :: 0 <= k < n && count <= |found[k]|
    ensures CountWaitAsWritten(found, n, count) == []
    ensures count <= |CountWaitIntended(found, n, count)|
  {
  }

  /** A concrete case: one capture with one match, waiting for one occurrence. */
  lemma InvertedCountGuardExample(m: Match)
    ensures CountWaitAsWritten([[m]], 1, 1) == []
    ensures CountWaitIntended([[m]], 1, 1) == [m]
  {
    assert FirstEnough([[m]], 1, 1) == 0;
  }

  /** The first sample that shows something, or nothing when none does. */
  function FirstHit(hits: seq<Option<Match>>): (r: Option<Match>)
    ensures r.None? <==> forall k :: 0 <= k < |hits| ==> hits[k].None?
    ensures r.Some? ==> exists k :: 0 <= k < |hits| && hits[k] == r && forall j :: 0 <= j < k ==> hits[j].None?
  {
    if hits == [] then None
    else if hits[0].Some? then hits[0]
    else
      var r := FirstHit(hits[1..]);
      assert r.Some? ==> exists k :: 1 <= k < |hits| && hits[k] == r && forall j :: 0 <= j < k ==> hits[j].None?;
      r
  }

  /** What finding the pattern once reports on each capture. */
  function Finds(frames: seq<Grid>, p: Pattern, score: Scorer): (hits: seq<Option<Match>>)
    ensures |hits| == |frames| && forall k :: 0 <= k < |frames| ==> hits[k] == Find(frames[k], p, score)
  {
    seq(|frames|, k requires 0 <= k < |frames| => Find(frames[k], p, score))
  }

  /** What each capture shows when waiting for any of several patterns. */
  function Sightings(frames: seq<Grid>, patterns: seq<Pattern>, scores: seq<Scorer>, origin: Point): (hits: seq<Option<Match>>)
    requires |scores| == |patterns|
    ensures |hits| == |frames| && forall k :: 0 <= k < |frames| ==> hits[k] == Sighting(frames[k], patterns, scores, origin)
  {
    seq(|frames|, k requires 0 <= k < |frames| => Sighting(frames[k], patterns, scores, origin))
  }

  /** The first hit of two runs of samples is the first run's, unless it has none. */
  lemma {:induction false} FirstHitAppend(s: seq<Option<Match>>, t: seq<Option<Match>>)
    ensures FirstHit(s + t) == if FirstHit(s).Some? then FirstHit(s) else FirstHit(t)
    decreases |s|
  {
    if s == [] {
      assert s + t == t;
    } else {
      assert (s + t)[1..] == s[1..] + t;
      FirstHitAppend(s[1..], t);
    }
  }

  /** Taking one more sample changes the first hit only when there was none yet. */
  lemma FirstHitNext(hits: seq<Option<Match>>, k: nat)
    requires k < |hits|
    ensures FirstHit(hits[..k + 1]) == if FirstHit(hits[..k]).Some? then FirstHit(hits[..k]) else hits[k]
  {
    assert hits[..k + 1] == hits[..k] + [hits[k]];
    FirstHitAppend(hits[..k], [hits[k]]);
    assert [hits[k]][1..] == [];
  }

  /** Once a hit has been seen, later samples do not change the first hit. */
  lemma FirstHitKept(hits: seq<Option<Match>>, k: nat, n: nat)
    requires k <= n <= |hits|
    requires FirstHit(hits[..k]).Some? || k == n
    ensures FirstHit(hits[..n]) == FirstHit(hits[..k])
  {
    assert hits[..n] == hits[..k] + hits[k..n];
    FirstHitAppend(hits[..k], hits[k..n]);
  }

  class Area {
    var rect: Rect
    var center: Point
    var topLeft: Point
    var topRight: Point
    var bottomLeft: Point
    var bottomRight: Point
    var waitTimeMilliseconds: int

    /** The derived points agree with the rectangle. */
    ghost predicate Valid()
      reads this
    {
      && center == CenterOf(rect)
      && topLeft == rect.Location()
      && topRight == Point(rect.Right(), rect.Top())
      && bottomLeft == Point(rect.Left(), rect.Bottom())
      && bottomRight == Point(rect.Right(), rect.Bottom())
    }

    /** A new area over `r` with the default wait time. */
    constructor(r: Rect)
      ensures rect == r && Valid() && waitTimeMilliseconds == DefaultWaitTimeMilliseconds
    {
      waitTimeMilliseconds := DefaultWaitTimeMilliseconds;
      new;
      SetRectangle(r);
    }

    /** Replace the rectangle and recompute the derived points; the wait time is kept. */
    method SetRectangle(r: Rect)
      modifies this
      ensures rect == r && Valid() && waitTimeMilliseconds == old(waitTimeMilliseconds)
    {
      rect := r;
      center := CenterOf(r);
      topLeft := r.Location();
      topRight := Point(r.Right(), r.Top());
      bottomLeft := Point(r.Left(), r.Bottom());
      bottomRight := Point(r.Right(), r.Bottom());
    }

    /** The screen point at (x, y) relative to the area's top-left corner. */
    function Offset(x: int, y: int): (p: Point)
      reads this
      ensures p.x - rect.x == x && p.y - rect.y == y
    {
      Point(rect.x + x, rect.y + y)
    }

    /** The screen point at `q` relative to the area's top-left corner. */
    function OffsetPoint(q: Point): (p: Point)
      reads this
      ensures p == Offset(q.x, q.y)
    {
      Offset(q.x, q.y)
    }

    /** A new area over `r`, given relative to this area's top-left corner. */
    method SubArea(r: Rect) returns (a: Area)
      ensures fresh(a) && a.Valid() && a.waitTimeMilliseconds == DefaultWaitTimeMilliseconds
      ensures a.rect.Location() == OffsetPoint(r.Location()) && a.rect == SubRect(rect, r)
    {
      var at := OffsetPoint(r.Location());
      a := new Area(Rect(at.x, at.y, r.width, r.height));
    }

    /**
      Poll for the pattern until it is found or the timeout expires: the
      result is the first capture before the deadline in which it is
      found, or nothing when there is none. Capturing stops at the first
      find, and nothing is captured when the timeout is 0 or less.
     */
    method WaitFor(p: Pattern, score: Scorer, frames: seq<Grid>, clock: seq<int>, timeout: int)
      returns (result: Option<Match>, ghost samples: nat)
      requires Stopwatch(clock) && Expires(clock, timeout) && |clock| <= |frames|
      ensures result == FirstHit(Finds(frames, p, score)[..Deadline(clock, timeout)])
      ensures samples <= Deadline(clock, timeout)
      ensures result.None? ==> samples == Deadline(clock, timeout)
      ensures result.Some? ==> 1 <= samples && result == FirstHit(Finds(frames, p, score)[..samples])
      ensures timeout <= 0 ==> samples == 0 && result.None?
    {
      NoTimeNoDeadlineIf(clock, timeout);
      ghost var hits := Finds(frames, p, score);
      result := None;
      var k := 0;
      while clock[k] < timeout && result.None?
        invariant k <= Deadline(clock, timeout)
        invariant result == FirstHit(hits[..k])
        invariant result.Some? ==> 1 <= k
        decreases |clock| - k
      {
        FirstHitNext(hits, k);
        result := Find(frames[k], p, score);
        k := k + 1;
      }
      samples := k;
      FirstHitKept(hits, k, Deadline(clock, timeout));
    }

    /**
      Poll for `count` occurrences of the pattern, with the loop condition
      as the library writes it: the loop runs while the latest result has
      at least `count` matches, so for one or more it returns an empty list
      without capturing anything, and for zero it captures until the
      timeout and returns the last result.
     */
    method WaitForCount(found: seq<seq<Match>>, count: nat, clock: seq<int>, timeout: int)
      returns (result: seq<Match>, ghost samples: nat)
      requires Stopwatch(clock) && Expires(clock, timeout) && |clock| <= |found|
      ensures result == CountWaitAsWritten(found, Deadline(clock, timeout), count)
      ensures 1 <= count ==> samples == 0
      ensures count == 0 ==> samples == Deadline(clock, timeout)
    {
      result := [];
      var k := 0;
      while clock[k] < timeout && |result| >= count
        invariant k <= Deadline(clock, timeout)
        invariant 1 <= count ==> k == 0
        invariant result == if k == 0 then [] else found[k - 1]
        decreases |clock| - k
      {
        result := found[k];
        k := k + 1;
      }
      samples := k;
    }

    /**
      Poll for `count` occurrences of the pattern, running while the latest
      result has fewer than `count` matches: the result is the first
      capture with enough matches, otherwise the last capture taken before
      the deadline.
     */
    method WaitForCountIntended(found: seq<seq<Match>>, count: nat, clock: seq<int>, timeout: int)
      returns (result: seq<Match>, ghost samples: nat)
      requires Stopwatch(clock) && Expires(clock, timeout) && |clock| <= |found|
      ensures result == CountWaitIntended(found, Deadline(clock, timeout), count)
      ensures samples <= Deadline(clock, timeout)
      ensures |result| < count ==> samples == Deadline(clock, timeout)
    {
      ghost var n := Deadline(clock, timeout);
      result := [];
      var k := 0;
      while clock[k] < timeout && |result| < count
        invariant k <= n
        invariant forall j :: 0 <= j < k - 1 ==> |found[j]| < count
        invariant result == if k == 0 then [] else found[k - 1]
        invariant 0 < k ==> 1 <= count
        decreases |clock| - k
      {
        result := found[k];
        k := k + 1;
      }
      samples := k;
      if count != 0 {
        FirstEnoughAt(found, n, count, k);
      }
    }

    /**
      Poll until the pattern is no longer found or the timeout expires. The
      first capture is taken before the clock is first read, so there is
      always at least one; `last` is the final capture's result, which is
      nothing unless the deadline was reached.
     */
    method WaitVanish(p: Pattern, score: Scorer, frames: seq<Grid>, clock: seq<int>, timeout: int)
      returns (last: Option<Match>, ghost samples: nat)
      requires Stopwatch(clock) && Expires(clock, timeout) && |clock| <= |frames|
      ensures 1 <= samples <= Deadline(clock, timeout) + 1
      ensures forall k :: 0 <= k < samples - 1 ==> Find(frames[k], p, score).Some?
      ensures last == Find(frames[samples - 1], p, score)
      ensures last.Some? ==> samples == Deadline(clock, timeout) + 1
      ensures last.None? <==> exists k :: 0 <= k <= Deadline(clock, timeout) && Find(frames[k], p, score).None?
      ensures last.Some? ==> last == Find(frames[Deadline(clock, timeout)], p, score)
    {
      last := Find(frames[0], p, score);
      var k := 0;
      while clock[k] < timeout && last.Some?
        invariant k <= Deadline(clock, timeout)
        invariant forall j :: 0 <= j < k ==> Find(frames[j], p, score).Some?
        invariant last == Find(frames[k], p, score)
        decreases |clock| - k
      {
        last := Find(frames[k + 1], p, score);
        k := k + 1;
      }
      samples := k + 1;
    }

    /**
      Poll for any of several patterns, one capture per round: the result
      is the sighting in the first capture before the deadline where any
      pattern is found (the first such pattern in the given order, moved
      to screen coordinates), or nothing when there is none.
     */
    method WaitAny(patterns: seq<Pattern>, scores: seq<Scorer>, frames: seq<Grid>, clock: seq<int>, timeout: int)
      returns (result: Option<Match>, ghost samples: nat)
      requires |scores| == |patterns|
      requires Stopwatch(clock) && Expires(clock, timeout) && |clock| <= |frames|
      ensures result == FirstHit(Sightings(frames, patterns, scores, rect.Location())[..Deadline(clock, timeout)])
      ensures samples <= Deadline(clock, timeout)
      ensures result.None? ==> samples == Deadline(clock, timeout)
      ensures result.Some? ==>
                1 <= samples && result == FirstHit(Sightings(frames, patterns, scores, rect.Location())[..samples])
    {
      ghost var hits := Sightings(frames, patterns, scores, rect.Location());
      result := None;
      var k := 0;
      while clock[k] < timeout && result.None?
        invariant k <= Deadline(clock, timeout)
        invariant result == FirstHit(hits[..k])
        invariant result.Some? ==> 1 <= k
        decreases |clock| - k
      {
        FirstHitNext(hits, k);
        result := Sight(frames[k], patterns, scores);
        k := k + 1;
      }
      samples := k;
      FirstHitKept(hits, k, Deadline(clock, timeout));
    }

    /** Try each pattern in order on one capture and stop at the first one found. */
    method Sight(frame: Grid, patterns: seq<Pattern>, scores: seq<Scorer>) returns (r: Option<Match>)
      requires |scores| == |patterns|
      ensures r == Sighting(frame, patterns, scores, rect.Location())
    {
      r := None;
      var i := 0;
      while i < |patterns|
        invariant i <= |patterns|
        invariant forall j :: 0 <= j < i ==> Find(frame, patterns[j], scores[j]).None?
        invariant r.None?
      {
        var mm := scores[i](frame);
        if mm.max >= patterns[i].threshold {
          var found := Rect(rect.x + mm.maxLoc.x, rect.y + mm.maxLoc.y, PatternWidth(patterns[i]), PatternHeight(patterns[i]));
          r := Some(Match(found, mm.max));
          FirstFoundAt(frame, patterns, scores, i);
          break;
        }
        i := i + 1;
      }
    }
  }

  /** When the timeout is not positive, the first reading already meets it. */
  lemma NoTimeNoDeadlineIf(clock: seq<int>, timeout: int)
    requires Stopwatch(clock) && Expires(clock, timeout)
    ensures timeout <= 0 ==> Deadline(clock, timeout) == 0
  {
    if timeout <= 0 {
      NoTimeNoDeadline(clock, timeout);
    }
  }

  /** The first found pattern is the one at `i` when all before it are not found and it is. */
  lemma FirstFoundAt(frame: Grid, patterns: seq<Pattern>, scores: seq<Scorer>, i: nat)
    requires |scores| == |patterns| && i < |patterns|
    requires forall j :: 0 <= j < i ==> Find(frame, patterns[j], scores[j]).None?
    requires Find(frame, patterns[i], scores[i]).Some?
    ensures FirstFound(frame, patterns, scores) == i
  {
  }

  /** The loop of the intended count wait ends on the sample `FirstEnough` names, or at the deadline. */
  lemma FirstEnoughAt(found: seq<seq<Match>>, n: nat, count: nat, k: nat)
    requires n <= |found| && 1 <= count && k <= n
    requires forall j :: 0 <= j < k - 1 ==> |found[j]| < count
    requires (0 < k && count <= |found[k - 1]|) || k == n
    ensures CountWaitIntended(found, n, count) == if k == 0 then [] else found[k - 1]
  {
    var f := FirstEnough(found, n, count);
    if 0 < k && count <= |found[k - 1]| {
      assert f == k - 1;
    }
  }
}
