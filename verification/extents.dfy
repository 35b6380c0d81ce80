/** The bounding-box pass that precedes the super triangle: a min/max scan
    over the x values (even slots) and y values (odd slots) of the points
    at offsets `offset`, `offset + 2`, ..., `end - 2`. Coordinates are
    compared only, so they are modelled as reals without NaN. */
module Extents {

  datatype Bounds = Bounds(xmin: real, ymin: real, xmax: real, ymax: real)

  /** The x and y of the `k`-th point of the range starting at `offset`. */
  function X(points: seq<real>, offset: int, k: int): real
    requires 0 <= offset + 2 * k < |points|
  {
    points[offset + 2 * k]
  }

  function Y(points: seq<real>, offset: int, k: int): real
    requires 0 <= offset + 2 * k + 1 < |points|
  {
    points[offset + 2 * k + 1]
  }

  /** Every point `lo <= k < n` of the range lies inside the box. */
  ghost predicate Covers(points: seq<real>, offset: int, lo: int, n: int, b: Bounds)
    requires 0 <= offset && 0 <= lo && offset + 2 * n <= |points|
  {
    forall k :: lo <= k < n ==>
      b.xmin <= X(points, offset, k) <= b.xmax && b.ymin <= Y(points, offset, k) <= b.ymax
  }

  /** Each of the four bounds is the coordinate of some point `0 <= k < n`. */
  ghost predicate Attained(points: seq<real>, offset: int, n: int, b: Bounds)
    requires 0 <= offset && offset + 2 * n <= |points|
  {
    && (exists k :: 0 <= k < n && X(points, offset, k) == b.xmin)
    && (exists k :: 0 <= k < n && X(points, offset, k) == b.xmax)
    && (exists k :: 0 <= k < n && Y(points, offset, k) == b.ymin)
    && (exists k :: 0 <= k < n && Y(points, offset, k) == b.ymax)
  }

  /** The box of a single point. */
  function Seed(x: real, y: real): (b: Bounds)
    ensures b.xmin == b.xmax == x && b.ymin == b.ymax == y
  {
    Bounds(x, y, x, y)
  }

  /** One turn of the loop: four independent comparisons, each one moving a
      bound outwards when the new coordinate lies beyond it. */
  function Include(b: Bounds, x: real, y: real): (r: Bounds)
    ensures r.xmin <= b.xmin && r.xmin <= x && (r.xmin == b.xmin || r.xmin == x)
    ensures r.xmax >= b.xmax && r.xmax >= x && (r.xmax == b.xmax || r.xmax == x)
    ensures r.ymin <= b.ymin && r.ymin <= y && (r.ymin == b.ymin || r.ymin == y)
    ensures r.ymax >= b.ymax && r.ymax >= y && (r.ymax == b.ymax || r.ymax == y)
  {
    var xmin := if x < b.xmin then x else b.xmin;
    var xmax := if x > b.xmax then x else b.xmax;
    var ymin := if y < b.ymin then y else b.ymin;
    var ymax := if y > b.ymax then y else b.ymax;
    Bounds(xmin, ymin, xmax, ymax)
  }

  /** A bound of the folded box is the seed's or a coordinate of a point
      `lo <= k < n`. */
  ghost predicate FromX(points: seq<real>, offset: int, lo: int, n: int, v: real, seed: real)
    requires 0 <= offset && 0 <= lo && offset + 2 * n <= |points|
  {
    v == seed || exists k :: lo <= k < n && X(points, offset, k) == v
  }

  ghost predicate FromY(points: seq<real>, offset: int, lo: int, n: int, v: real, seed: real)
    requires 0 <= offset && 0 <= lo && offset + 2 * n <= |points|
  {
    v == seed || exists k :: lo <= k < n && Y(points, offset, k) == v
  }

  /** The loop read as a fold: start from `b` and include the points
      `k`, `k + 1`, ..., `n - 1` of the range. The result contains `b` and
      every included point, and each of its bounds is `b`'s or a coordinate
      of an included point. */
  function Fold(points: seq<real>, offset: int, k: int, n: int, b: Bounds): (r: Bounds)
    requires 0 <= offset && 0 <= k <= n && offset + 2 * n <= |points|
    ensures r.xmin <= b.xmin && r.xmax >= b.xmax && r.ymin <= b.ymin && r.ymax >= b.ymax
    ensures Covers(points, offset, k, n, r)
    ensures FromX(points, offset, k, n, r.xmin, b.xmin) && FromX(points, offset, k, n, r.xmax, b.xmax)
    ensures FromY(points, offset, k, n, r.ymin, b.ymin) && FromY(points, offset, k, n, r.ymax, b.ymax)
    decreases n - k
  {
    if k == n then b
    else Fold(points, offset, k + 1, n, Include(b, X(points, offset, k), Y(points, offset, k)))
  }

  /** Folding the points after the first into the box of the first point
      gives a box that contains every point and whose bounds are attained. */
  lemma FoldFromFirst(points: seq<real>, offset: int, n: int)
    requires 0 <= offset && 1 <= n && offset + 2 * n <= |points|
    ensures var b := Fold(points, offset, 1, n, Seed(X(points, offset, 0), Y(points, offset, 0)));
      Covers(points, offset, 0, n, b) && Attained(points, offset, n, b)
  {
  }

  /** The scan exactly as written: the box is seeded from the first two
      entries of the whole buffer, whatever `offset` is, and the loop then
      runs over the points after `offset`. */
  function ExtentsAsWritten(points: seq<real>, offset: int, end: int): (b: Bounds)
    requires 2 <= |points| && 0 <= offset && offset + 2 <= end <= |points| && (end - offset) % 2 == 0
  {
    Fold(points, offset, 1, (end - offset) / 2, Seed(points[0], points[1]))
  }

  /** With `offset = 0`, the only offset the public entry points pass, the
      scan as written yields a box that contains every point and whose four
      bounds are all attained. */
  lemma AsWrittenAtZero(points: seq<real>, end: int)
    requires 2 <= end <= |points| && end % 2 == 0
    ensures Covers(points, 0, 0, end / 2, ExtentsAsWritten(points, 0, end))
    ensures Attained(points, 0, end / 2, ExtentsAsWritten(points, 0, end))
  {
    FoldFromFirst(points, 0, end / 2);
  }

  /** With a non-zero offset the seed comes from outside the range and the
      first point of the range is never read: for the buffer (5,5), (0,0),
      (1,1) and offset 2 the box is x, y in [1, 5], which leaves out the
      point (0,0) and reaches 5, which no point of the range has. */
  lemma AsWrittenOffsetMisses()
    ensures var points := [5.0, 5.0, 0.0, 0.0, 1.0, 1.0];
      && ExtentsAsWritten(points, 2, 6) == Bounds(1.0, 1.0, 5.0, 5.0)
      && !Covers(points, 2, 0, 2, ExtentsAsWritten(points, 2, 6))
      && !Attained(points, 2, 2, ExtentsAsWritten(points, 2, 6))
  {
    var points := [5.0, 5.0, 0.0, 0.0, 1.0, 1.0];
    assert X(points, 2, 1) == 1.0 && Y(points, 2, 1) == 1.0;
    assert Fold(points, 2, 2, 2, Bounds(1.0, 1.0, 5.0, 5.0)) == Bounds(1.0, 1.0, 5.0, 5.0);
    assert X(points, 2, 0) == 0.0;
    forall k | 0 <= k < 2
      ensures X(points, 2, k) != 5.0
    {
      assert k == 0 || k == 1;
    }
  }

  /** The scan with the seed taken from the first point of the range: the
      box contains every point of the range and each bound is attained. */
  method ComputeExtents(points: seq<real>, offset: int, end: int) returns (b: Bounds)
    requires 0 <= offset && offset + 2 <= end <= |points| && (end - offset) % 2 == 0
    ensures Covers(points, offset, 0, (end - offset) / 2, b)
    ensures Attained(points, offset, (end - offset) / 2, b)
    ensures b == Fold(points, offset, 1, (end - offset) / 2, Seed(points[offset], points[offset + 1]))
  {
    b := ScanPoints(points, offset, end, Seed(points[offset], points[offset + 1]));
    assert X(points, offset, 0) == points[offset] && Y(points, offset, 0) == points[offset + 1];
    FoldFromFirst(points, offset, (end - offset) / 2);
  }

  /** The loop over the points after the first, from the box `start`. */
  method ScanPoints(points: seq<real>, offset: int, end: int, start: Bounds) returns (b: Bounds)
    requires 0 <= offset && offset + 2 <= end <= |points| && (end - offset) % 2 == 0
    ensures b == Fold(points, offset, 1, (end - offset) / 2, start)
  {
    ghost var n := (end - offset) / 2;
    b := start;
    var i := offset + 2;
    ghost var k := 1;
    while i < end
      invariant 1 <= k <= n && i == offset + 2 * k
      invariant Fold(points, offset, k, n, b) == Fold(points, offset, 1, n, start)
    {
      var x := points[i];
      var y := points[i + 1];
      assert x == X(points, offset, k) && y == Y(points, offset, k);
      b := Include(b, x, y);
      i, k := i + 2, k + 1;
    }
  }
}
