/**
 * The exact integer geometry of the random street generator: whether a point
 * lies on a segment, and the check that rejects degenerate, overlapping and
 * repeated segments before a set of streets is printed.
 */
module StreetGeometry {

  /** A grid point; `row` and `col` are the x and y the streets are printed with. */
  datatype Coordinate = Coordinate(row: int, col: int)

  datatype Segment = Segment(from: Coordinate, to: Coordinate)

  /** A street: its name and its segments, each starting where the previous one ends. */
  datatype Path = Path(identifier: string, segments: seq<Segment>)

  function Min(a: int, b: int): int {
    if a <= b then a else b
  }

  function Max(a: int, b: int): int {
    if a <= b then b else a
  }

  /**
   * `isPointOnSegment`: `p` is inside the segment's bounding box and on the
   * line through its endpoints (the cross product vanishes).
   */
  predicate OnSegment(p: Coordinate, e: Segment) {
    && Min(e.from.row, e.to.row) <= p.row <= Max(e.from.row, e.to.row)
    && Min(e.from.col, e.to.col) <= p.col <= Max(e.from.col, e.to.col)
    && (p.row - e.from.row) * (e.to.col - e.from.col) == (p.col - e.from.col) * (e.to.row - e.from.row)
  }

  /** `p` is `from + (num / den) * (to - from)` for a fraction `num / den` in [0, 1]. */
  predicate ScaledAlong(p: Coordinate, e: Segment, num: int, den: int) {
    && 0 <= num <= den && 0 < den
    && den * (p.row - e.from.row) == num * (e.to.row - e.from.row)
    && den * (p.col - e.from.col) == num * (e.to.col - e.from.col)
  }

  /** The points of the closed segment, by its parametric description. */
  ghost predicate Between(p: Coordinate, e: Segment) {
    exists num: int, den: int :: ScaledAlong(p, e, num, den)
  }

  /** The bounding-box-and-cross-product test picks out exactly the points of the segment. */
  lemma OnSegmentIsBetween(p: Coordinate, e: Segment)
    ensures OnSegment(p, e) <==> Between(p, e)
  {
    if OnSegment(p, e) {
      var num, den := Fraction(p, e);
    }
    if Between(p, e) {
      var num: int, den: int :| ScaledAlong(p, e, num, den);
      ScaledIsOn(p, e, num, den);
    }
  }

  /** Both endpoints of a segment are on it. */
  lemma EndpointsOnSegment(e: Segment)
    ensures OnSegment(e.from, e) && OnSegment(e.to, e)
  {
    assert ScaledAlong(e.from, e, 0, 1);
    assert ScaledAlong(e.to, e, 1, 1);
    ScaledIsOn(e.from, e, 0, 1);
    ScaledIsOn(e.to, e, 1, 1);
  }

  /** A point that passes the test, as a fraction along the segment: the offset along a non-constant coordinate. */
  lemma Fraction(p: Coordinate, e: Segment) returns (num: int, den: int)
    requires OnSegment(p, e)
    ensures ScaledAlong(p, e, num, den)
  {
    var x, y := p.row - e.from.row, p.col - e.from.col;
    var dr, dc := e.to.row - e.from.row, e.to.col - e.from.col;
    assert x * dc == y * dr;
    if dr > 0 {
      num, den := x, dr;
      assert den * y == num * dc;
    } else if dr < 0 {
      num, den := -x, -dr;
      assert den * y == -(y * dr) == -(x * dc) == num * dc;
    } else if dc > 0 {
      assert x == 0;
      num, den := y, dc;
    } else if dc < 0 {
      assert x == 0;
      num, den := -y, -dc;
    } else {
      assert x == 0 && y == 0;
      num, den := 0, 1;
    }
  }

  /** A point along the segment passes the bounding box test and the cross product test. */
  lemma ScaledIsOn(p: Coordinate, e: Segment, num: int, den: int)
    requires ScaledAlong(p, e, num, den)
    ensures OnSegment(p, e)
  {
    var x, y := p.row - e.from.row, p.col - e.from.col;
    var dr, dc := e.to.row - e.from.row, e.to.col - e.from.col;
    ScaledOffset(den, num, dr, x);
    ScaledOffset(den, num, dc, y);
    CrossVanishes(den, num, x, y, dr, dc);
  }

  /** Two offsets scaled by the same fraction are parallel to the direction. */
  lemma CrossVanishes(den: int, num: int, x: int, y: int, dr: int, dc: int)
    requires 0 < den && den * x == num * dr && den * y == num * dc
    ensures x * dc == y * dr
  {
    calc {
      den * (x * dc);
      (den * x) * dc;
      (num * dr) * dc;
      (num * dc) * dr;
      (den * y) * dr;
      den * (y * dr);
    }
    Cancel(den, x * dc, y * dr);
  }

  /** With `den * x == num * d` and `num / den` in [0, 1], `x` lies between 0 and `d`. */
  lemma ScaledOffset(den: int, num: int, d: int, x: int)
    requires 0 < den && 0 <= num <= den && den * x == num * d
    ensures d >= 0 ==> 0 <= x <= d
    ensures d <= 0 ==> d <= x <= 0
  {
    assert den * (d - x) == (den - num) * d;
    if d >= 0 {
      NonNegativeProduct(num, d);
      NonNegativeProduct(den - num, d);
    } else {
      NonNegativeProduct(num, -d);
      NonNegativeProduct(den - num, -d);
    }
    SignOfProduct(den, x);
    SignOfProduct(den, d - x);
  }

  lemma NonNegativeProduct(a: int, b: int)
    requires 0 <= a && 0 <= b
    ensures 0 <= a * b
  {
  }

  lemma SignOfProduct(den: int, t: int)
    requires 0 < den
    ensures den * t >= 0 ==> t >= 0
    ensures den * t <= 0 ==> t <= 0
  {
  }

  lemma Cancel(den: int, a: int, b: int)
    requires 0 < den && den * a == den * b
    ensures a == b
  {
    assert den * (a - b) == 0;
    SignOfProduct(den, a - b);
  }

  // ---------------------------------------------------------------- the street check

  /** Both endpoints coincide. */
  predicate Degenerate(e: Segment) {
    e.from.row == e.to.row && e.from.col == e.to.col
  }

  /** Both endpoints of `b` lie on `a`: `b` lies entirely on `a`. */
  predicate Covers(a: Segment, b: Segment) {
    OnSegment(b.from, a) && OnSegment(b.to, a)
  }

  /**
   * The partial-overlap test: no endpoint row of one segment equals an
   * endpoint row of the other, and each has an endpoint on the other.
   */
  predicate OverlapsEnds(a: Segment, b: Segment) {
    && a.from.row != b.from.row && a.from.row != b.to.row
    && a.to.row != b.from.row && a.to.row != b.to.row
    && (OnSegment(b.from, a) || OnSegment(b.to, a))
    && (OnSegment(a.from, b) || OnSegment(a.to, b))
  }

  /** The same segment, in the same or the opposite direction. */
  predicate SameSegment(a: Segment, b: Segment) {
    a == b || (a.from == b.to && a.to == b.from)
  }

  /** The tests `checkStreets` runs on two different segments, in its order. */
  predicate Clash(a: Segment, b: Segment) {
    Covers(a, b) || Covers(b, a) || OverlapsEnds(a, b) || SameSegment(a, b)
  }

  /** What `checkStreets` accepts: no degenerate segment, and no clash within a street or between two streets. */
  predicate Acceptable(paths: seq<Path>) {
    && (forall i, k | 0 <= i < |paths| && 0 <= k < |paths[i].segments| :: !Degenerate(paths[i].segments[k]))
    && (forall i | 0 <= i < |paths| :: NoClashWithin(paths[i].segments))
    && (forall i, j | 0 <= i < j < |paths| :: NoClashAcross(paths[i].segments, paths[j].segments))
  }

  predicate NoClashWithin(segs: seq<Segment>) {
    forall k, l | 0 <= k < l < |segs| :: !Clash(segs[k], segs[l])
  }

  predicate NoClashAcross(segs1: seq<Segment>, segs2: seq<Segment>) {
    forall k, l | 0 <= k < |segs1| && 0 <= l < |segs2| :: !Clash(segs1[k], segs2[l])
  }

  /** Everything about streets before `i`: they passed, alone and against every later street. */
  predicate CheckedUpTo(paths: seq<Path>, i: nat)
    requires i <= |paths|
  {
    forall i' | 0 <= i' < i ::
      && (forall k | 0 <= k < |paths[i'].segments| :: !Degenerate(paths[i'].segments[k]))
      && NoClashWithin(paths[i'].segments)
      && (forall j | i' < j < |paths| :: NoClashAcross(paths[i'].segments, paths[j].segments))
  }

  /** `checkStreets`: the loops over streets, over segment pairs within a street, and over pairs across streets. */
  method CheckStreets(paths: seq<Path>) returns (ok: bool)
    ensures ok <==> Acceptable(paths)
  {
    for i := 0 to |paths|
      invariant CheckedUpTo(paths, i)
    {
      var segs := paths[i].segments;
      for k := 0 to |segs|
        invariant forall k' | 0 <= k' < k :: !Degenerate(segs[k'])
      {
        if Degenerate(segs[k]) {
          return false;
        }
      }
      ok := CheckWithin(segs);
      if !ok {
        return false;
      }
      for j := i + 1 to |paths|
        invariant forall j' | i < j' < j :: NoClashAcross(segs, paths[j'].segments)
      {
        ok := CheckAcross(segs, paths[j].segments);
        if !ok {
          return false;
        }
      }
    }
    return true;
  }

  /** The loop over pairs `k < l` of segments of one street. */
  method CheckWithin(segs: seq<Segment>) returns (ok: bool)
    ensures ok <==> NoClashWithin(segs)
  {
    for k := 0 to |segs|
      invariant forall k', l | 0 <= k' < k && k' < l < |segs| :: !Clash(segs[k'], segs[l])
    {
      for l := k + 1 to |segs|
        invariant forall l' | k < l' < l :: !Clash(segs[k], segs[l'])
      {
        if Clash(segs[k], segs[l]) {
          return false;
        }
      }
    }
    return true;
  }

  /** The loop over every segment of one street against every segment of a later one. */
  method CheckAcross(segs1: seq<Segment>, segs2: seq<Segment>) returns (ok: bool)
    ensures ok <==> NoClashAcross(segs1, segs2)
  {
    for k := 0 to |segs1|
      invariant forall k', l | 0 <= k' < k && 0 <= l < |segs2| :: !Clash(segs1[k'], segs2[l])
    {
      for l := 0 to |segs2|
        invariant forall l' | 0 <= l' < l :: !Clash(segs1[k], segs2[l'])
      {
        if Clash(segs1[k], segs2[l]) {
          return false;
        }
      }
    }
    return true;
  }

  /** The segment at position `k` of street `i`. */
  predicate At(paths: seq<Path>, i: int, k: int) {
    0 <= i < |paths| && 0 <= k < |paths[i].segments|
  }

  /**
   * In an accepted set of streets no segment lies on another one, wherever
   * the two are, and no segment appears twice in either direction.
   */
  lemma AcceptedNoCover(paths: seq<Path>, i: int, k: int, j: int, l: int)
    requires Acceptable(paths) && At(paths, i, k) && At(paths, j, l) && (i, k) != (j, l)
    ensures !Covers(paths[i].segments[k], paths[j].segments[l])
    ensures !SameSegment(paths[i].segments[k], paths[j].segments[l])
  {
    var a, b := paths[i].segments[k], paths[j].segments[l];
    if i == j {
      assert NoClashWithin(paths[i].segments);
      if k < l { assert !Clash(a, b); } else { assert !Clash(b, a); }
    } else if i < j {
      assert NoClashAcross(paths[i].segments, paths[j].segments);
      assert !Clash(a, b);
    } else {
      assert NoClashAcross(paths[j].segments, paths[i].segments);
      assert !Clash(b, a);
    }
  }
}
