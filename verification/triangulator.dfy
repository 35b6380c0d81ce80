/** The insertion loop of the triangulator and the final sweep that purges
    the super triangle, composed into one run over a buffer of `end`
    coordinates (`end / 2` points). */
module Triangulator {
  import opened Seqs
  import opened Mesh
  import opened Scan
  import opened Dedup

  /** One insertion: scan and remove, then cancel shared edges and fan the
      boundary out to the new point, then clear the edge buffer. The live
      lists stay well formed, now admitting the point at `pi`. The
      survivors of the scan stay in front, in order; behind them come the
      new triangles: the surviving edges joined to `pi`, which for a clean
      edge buffer are exactly the boundary edges of the removed region. */
  method InsertPoint(triangles: seq<int>, complete: seq<bool>, pi: int, end: int, cls: Classifier)
    returns (ts: seq<int>, fs: seq<bool>, edges: seq<Edge>)
    requires 0 <= pi < end && pi % 2 == 0
    requires LiveOk(triangles, complete, pi, end)
    ensures LiveOk(ts, fs, pi + 2, end)
    ensures edges == []
    ensures var kept := Filter(Entries(triangles, complete), KeepFor(cls, pi));
      && |kept| <= |fs|
      && Entries(ts, fs)[..|kept|] == kept
      && ts[3 * |kept|..] == Fan(Survivors(RemovedEdges(Entries(triangles, complete), cls, pi)), pi)
      && (Clean(RemovedEdges(Entries(triangles, complete), cls, pi)) ==>
            ts[3 * |kept|..] == Fan(Boundary(RemovedEdges(Entries(triangles, complete), cls, pi)), pi))
  {
    var ts1, fs1, buffer := ScanStep(triangles, complete, pi, cls);
    ScanLive(triangles, complete, ts1, fs1, pi, end, cls);
    RemovedEdgesOk(Entries(triangles, complete), cls, pi, end);
    ts, fs := DedupStep(ts1, fs1, buffer, pi);
    DedupLive(ts1, fs1, buffer, ts, fs, pi, end);
    assert Entries(ts, fs)[..|fs1|] == Entries(ts1, fs1) by {
      forall k | 0 <= k < |fs1|
        ensures TriAt(ts, k) == TriAt(ts1, k)
      {
        assert ts[..|ts1|][3 * k] == ts1[3 * k];
        assert ts[..|ts1|][3 * k + 1] == ts1[3 * k + 1];
        assert ts[..|ts1|][3 * k + 2] == ts1[3 * k + 2];
      }
      assert fs[..|fs1|] == fs1;
    }
    if Clean(buffer) {
      SurvivorsClean(buffer);
    }
    edges := [];
  }

  /** The scan keeps a subset of well-formed, unflagged entries. */
  lemma ScanLive(triangles: seq<int>, complete: seq<bool>, ts: seq<int>, fs: seq<bool>,
                 pi: int, end: int, cls: Classifier)
    requires LiveOk(triangles, complete, pi, end) && |ts| == 3 * |fs|
    requires Entries(ts, fs) == Filter(Entries(triangles, complete), KeepFor(cls, pi))
    ensures LiveOk(ts, fs, pi, end)
  {
    var es := Entries(triangles, complete);
    forall k | 0 <= k < |fs|
      ensures !fs[k] && TriOk(TriAt(ts, k), pi, end)
    {
      assert Entries(ts, fs)[k] in es;
    }
  }

  /** Every edge pushed for well-formed triangles joins two distinct valid
      references. */
  lemma {:induction false} RemovedEdgesOk(es: seq<Entry>, cls: Classifier, pi: int, end: int)
    requires forall k :: 0 <= k < |es| ==> TriOk(es[k].tri, pi, end)
    ensures forall j :: 0 <= j < |RemovedEdges(es, cls, pi)| ==> EdgeOk(RemovedEdges(es, cls, pi)[j], pi, end)
  {
    if |es| > 0 {
      RemovedEdgesOk(es[1..], cls, pi, end);
    }
  }

  /** After the dedup, the old entries are untouched and each new triangle
      joins an edge of valid, distinct references to the fresh point `pi`. */
  lemma DedupLive(ts1: seq<int>, fs1: seq<bool>, buffer: seq<Edge>, ts: seq<int>, fs: seq<bool>, pi: int, end: int)
    requires 0 <= pi < end && pi % 2 == 0
    requires LiveOk(ts1, fs1, pi, end)
    requires forall j :: 0 <= j < |buffer| ==> EdgeOk(buffer[j], pi, end)
    requires |ts| == 3 * |fs| && |fs1| <= |fs|
    requires ts[..|ts1|] == ts1 && fs[..|fs1|] == fs1
    requires forall k :: |fs1| <= k < |fs| ==> !fs[k]
    requires ts[|ts1|..] == Fan(Survivors(buffer), pi)
    ensures LiveOk(ts, fs, pi + 2, end)
  {
    forall k | 0 <= k < |fs|
      ensures !fs[k] && TriOk(TriAt(ts, k), pi + 2, end)
    {
      if k < |fs1| {
        assert ts[..|ts1|][3 * k] == ts1[3 * k];
        assert ts[..|ts1|][3 * k + 1] == ts1[3 * k + 1];
        assert ts[..|ts1|][3 * k + 2] == ts1[3 * k + 2];
        assert fs[..|fs1|][k] == fs1[k];
        assert TriAt(ts, k) == TriAt(ts1, k);
      } else {
        var s, k' := Survivors(buffer), k - |fs1|;
        var tail := ts[|ts1|..];
        assert tail[3 * k'] == ts[3 * k] && tail[3 * k' + 1] == ts[3 * k + 1] && tail[3 * k' + 2] == ts[3 * k + 2];
        assert TriAt(ts, k) == Tri(s[k'].a, s[k'].b, pi);
        assert s[k'] in buffer;
      }
    }
  }

  function NotSuper(end: int): Tri -> bool
  {
    t => !TouchesSuper(t, end)
  }

  /** The final sweep as `computeTriangles` writes it: a backward walk over a
      snapshot, removing by index every triangle with a reference at or
      beyond `end`. */
  method FinalSweep(triangles: seq<int>, end: int) returns (ts: seq<int>)
    requires |triangles| % 3 == 0
    ensures |ts| % 3 == 0
    ensures Tris(ts) == Filter(Tris(triangles), NotSuper(end))
  {
    var trianglesArray := triangles;
    ts := triangles;
    var i := |ts| - 1;
    ghost var m := |triangles| / 3;
    assert Tris(triangles)[m..] == [] && ts[3 * m..] == [];
    while i >= 0
      invariant 0 <= m <= |triangles| / 3 && i == 3 * m - 1
      invariant SweepInv(triangles, ts, m, end)
    {
      ts := SweepVisit(triangles, trianglesArray, ts, i, m, end);
      i := i - 3;
      m := m - 1;
    }
    assert ts[0..] == ts && Tris(triangles)[0..] == Tris(triangles);
  }

  /** One turn of the final sweep: the triangle whose last reference is at
      `i` in the snapshot is removed from `ts` when it touches the super
      triangle. */
  method SweepVisit(ghost triangles: seq<int>, trianglesArray: seq<int>, ts: seq<int>, i: int, ghost m: int, end: int)
    returns (ts': seq<int>)
    requires |triangles| % 3 == 0 && 1 <= m <= |triangles| / 3 && i == 3 * m - 1
    requires trianglesArray == triangles
    requires SweepInv(triangles, ts, m, end)
    ensures SweepInv(triangles, ts', m - 1, end)
  {
    assert Tri(trianglesArray[i - 2], trianglesArray[i - 1], trianglesArray[i]) == TriAt(triangles, m - 1) by {
      assert i - 2 == 3 * (m - 1);
    }
    if trianglesArray[i] >= end || trianglesArray[i - 1] >= end || trianglesArray[i - 2] >= end {
      SweepDrop(triangles, ts, m, end);
      RemoveThree(ts, i);
      ts' := RemoveAt(RemoveAt(RemoveAt(ts, i), i - 1), i - 2);
      assert i - 2 == 3 * (m - 1) && i + 1 == 3 * m;
    } else {
      SweepKeep(triangles, ts, m, end);
      ts' := ts;
    }
  }

  ghost predicate SweepInv(triangles: seq<int>, ts: seq<int>, m: int, end: int)
    requires |triangles| % 3 == 0 && 0 <= m <= |triangles| / 3
  {
    && |ts| % 3 == 0 && 3 * m <= |ts|
    && ts[..3 * m] == triangles[..3 * m]
    && Tris(ts[3 * m..]) == Filter(Tris(triangles)[m..], NotSuper(end))
  }

  lemma TrisStep(ts: seq<int>, m: int)
    requires |ts| % 3 == 0 && 1 <= m <= |ts| / 3
    ensures Tris(ts[3 * (m - 1)..]) == [TriAt(ts, m - 1)] + Tris(ts[3 * m..])
  {
    TrisCons(ts[3 * (m - 1)..]);
    assert ts[3 * (m - 1)..][3..] == ts[3 * m..];
  }

  lemma SweepKeep(triangles: seq<int>, ts: seq<int>, m: int, end: int)
    requires |triangles| % 3 == 0 && 1 <= m <= |triangles| / 3
    requires SweepInv(triangles, ts, m, end)
    requires !TouchesSuper(TriAt(triangles, m - 1), end)
    ensures SweepInv(triangles, ts, m - 1, end)
  {
    var xs := Tris(triangles);
    assert xs[m - 1..] == [xs[m - 1]] + xs[m..];
    assert TriAt(ts, m - 1) == TriAt(triangles, m - 1) by {
      assert ts[..3 * m][3 * (m - 1)..] == triangles[..3 * m][3 * (m - 1)..];
    }
    TrisStep(ts, m);
    assert ts[..3 * (m - 1)] == ts[..3 * m][..3 * (m - 1)];
    assert triangles[..3 * (m - 1)] == triangles[..3 * m][..3 * (m - 1)];
  }

  lemma SweepDrop(triangles: seq<int>, ts: seq<int>, m: int, end: int)
    requires |triangles| % 3 == 0 && 1 <= m <= |triangles| / 3
    requires SweepInv(triangles, ts, m, end)
    requires TouchesSuper(TriAt(triangles, m - 1), end)
    ensures SweepInv(triangles, ts[..3 * (m - 1)] + ts[3 * m..], m - 1, end)
  {
    var xs := Tris(triangles);
    assert xs[m - 1..] == [xs[m - 1]] + xs[m..];
    var ts' := ts[..3 * (m - 1)] + ts[3 * m..];
    assert ts'[3 * (m - 1)..] == ts[3 * m..];
    assert ts'[..3 * (m - 1)] == ts[..3 * m][..3 * (m - 1)];
    assert triangles[..3 * (m - 1)] == triangles[..3 * m][..3 * (m - 1)];
  }

  /** The whole insertion run for the points at offsets 0, 2, ..., end - 2,
      seeded with the super triangle `(end, end + 2, end + 4)`, followed by
      the final sweep. Every surviving triangle joins three distinct input
      points, and with one or two points nothing survives. */
  method Triangulate(end: int, cls: Classifier) returns (tris: seq<int>)
    requires end >= 2 && end % 2 == 0
    ensures |tris| % 3 == 0
    ensures forall k :: 0 <= k < |tris| / 3 ==> RealTri(TriAt(tris, k), end)
    ensures end <= 4 ==> tris == []
  {
    var triangles, complete := InsertAll(end, cls);
    complete := [];
    tris := FinalSweep(triangles, end);
    SweepResult(triangles, tris, end);
    if end <= 4 {
      FewPointsNoTriangle(end);
      assert |tris| > 0 ==> !RealTri(TriAt(tris, 0), end);
    }
  }

  /** The insertion loop: seeded with the super triangle and one `false`
      flag, every point at offsets 0, 2, ..., end - 2 is inserted in turn.
      Afterwards the lists still hold three references per flag, every flag
      is false, and every triangle joins three distinct references, each an
      input point or a super vertex. */
  method InsertAll(end: int, cls: Classifier) returns (triangles: seq<int>, complete: seq<bool>)
    requires end >= 0 && end % 2 == 0
    ensures LiveOk(triangles, complete, end, end)
  {
    triangles, complete := [end, end + 2, end + 4], [false];
    assert TriAt(triangles, 0) == Tri(end, end + 2, end + 4);
    var pointIndex := 0;
    while pointIndex < end
      invariant 0 <= pointIndex <= end && pointIndex % 2 == 0
      invariant LiveOk(triangles, complete, pointIndex, end)
    {
      assert pointIndex + 2 <= end && (pointIndex + 2) % 2 == 0;
      var edges;
      triangles, complete, edges := InsertPoint(triangles, complete, pointIndex, end, cls);
      pointIndex := pointIndex + 2;
    }
  }

  /** A triangle of the output: three distinct even offsets below `end`. */
  predicate RealTri(t: Tri, end: int)
  {
    TriOk(t, end, end) && !TouchesSuper(t, end)
  }

  /** The sweep of a well-formed list leaves only triangles of real points. */
  lemma SweepResult(triangles: seq<int>, ts: seq<int>, end: int)
    requires |triangles| % 3 == 0 && |ts| % 3 == 0
    requires forall k :: 0 <= k < |triangles| / 3 ==> TriOk(TriAt(triangles, k), end, end)
    requires Tris(ts) == Filter(Tris(triangles), NotSuper(end))
    ensures forall k :: 0 <= k < |ts| / 3 ==> RealTri(TriAt(ts, k), end)
  {
    forall k | 0 <= k < |ts| / 3
      ensures RealTri(TriAt(ts, k), end)
    {
      assert Tris(ts)[k] in Tris(triangles);
    }
  }

  /** With one or two points there are at most two real references, so no
      triangle of three distinct real references exists. */
  lemma FewPointsNoTriangle(end: int)
    requires end <= 4
    ensures forall t: Tri :: !RealTri(t, end)
  {
  }
}
