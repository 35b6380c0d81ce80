/** The public entry point: sort the points by x unless the caller says they
    already are, take the bounding box for the super triangle, and run the
    incremental triangulation over all points of the buffer. The floating-
    point work that turns the box into super-triangle coordinates and the
    circumcircle test are folded into the classifier `cls`. */
module Delaunay {
  import opened Mesh
  import opened PairSort
  import opened Quicksort
  import opened Extents
  import opened Triangulator

  /** Triangulates the interleaved buffer `points` (offset 0, every point).
      Returns the buffer as the triangulation sees it, sorted by x when
      `sorted` is false, and the flat list of output triangles, whose
      references are offsets into that buffer. */
  method ComputeTriangles(points: seq<real>, sorted: bool, cls: Classifier)
    returns (buffer: seq<real>, box: Bounds, tris: seq<int>)
    requires 2 <= |points| && |points| % 2 == 0
    ensures |buffer| == |points|
    ensures sorted ==> buffer == points
    ensures !sorted ==> Sorted(buffer, 0, |points| - 2)
    ensures SamePairs(points, buffer, 0, |points| - 2)
    ensures Covers(buffer, 0, 0, |points| / 2, box) && Attained(buffer, 0, |points| / 2, box)
    ensures |tris| % 3 == 0
    ensures forall k :: 0 <= k < |tris| / 3 ==> RealTri(TriAt(tris, k), |points|)
    ensures |points| <= 4 ==> tris == []
  {
    buffer := SortUnlessSorted(points, sorted);
    box := ComputeExtents(buffer, 0, |points|);
    tris := Triangulate(|points|, cls);
  }

  /** The optional sort of the whole buffer by x. */
  method SortUnlessSorted(points: seq<real>, sorted: bool) returns (buffer: seq<real>)
    requires 2 <= |points| && |points| % 2 == 0
    ensures |buffer| == |points|
    ensures sorted ==> buffer == points
    ensures !sorted ==> Sorted(buffer, 0, |points| - 2)
    ensures SamePairs(points, buffer, 0, |points| - 2)
  {
    buffer := points;
    if !sorted {
      buffer := QuicksortPairs(points, 0, |points| - 1);
    }
  }
}
