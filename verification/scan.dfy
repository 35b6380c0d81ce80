/** The scan half of one insertion: every live triangle is classified
    against the new point, from the last triangle to the first, and those
    whose circumcircle contains the point are removed while their edges are
    collected. */
module Scan {
  import opened Seqs
  import opened Mesh

  /** A triangle the scan removes: not flagged complete in the snapshot, and
      classified INSIDE. */
  predicate Removed(e: Entry, cls: Classifier, pi: int)
  {
    !e.done && cls(pi, e.tri) == Inside
  }

  function KeepFor(cls: Classifier, pi: int): Entry -> bool
  {
    e => !Removed(e, cls, pi)
  }

  /** The edges the scan pushes for the entries `es`: it visits the last
      entry first, so the block of a later triangle precedes that of an
      earlier one. */
  function RemovedEdges(es: seq<Entry>, cls: Classifier, pi: int): seq<Edge>
  {
    if |es| == 0 then []
    else RemovedEdges(es[1..], cls, pi) + (if Removed(es[0], cls, pi) then EdgesOf(es[0].tri) else [])
  }

  /** Three edges per removed triangle. */
  lemma {:induction false} RemovedEdgesCount(es: seq<Entry>, cls: Classifier, pi: int)
    ensures |RemovedEdges(es, cls, pi)| == 3 * (|es| - |Filter(es, KeepFor(cls, pi))|)
  {
    if |es| > 0 {
      RemovedEdgesCount(es[1..], cls, pi);
    }
  }

  /** An edge is pushed iff it is an edge of a removed triangle. */
  lemma {:induction false} RemovedEdgesExact(es: seq<Entry>, cls: Classifier, pi: int)
    ensures forall e :: e in RemovedEdges(es, cls, pi) <==>
      exists k :: 0 <= k < |es| && Removed(es[k], cls, pi) && e in EdgesOf(es[k].tri)
  {
    if |es| > 0 {
      var rest := es[1..];
      RemovedEdgesExact(rest, cls, pi);
      forall e
        ensures e in RemovedEdges(es, cls, pi) <==>
          exists k :: 0 <= k < |es| && Removed(es[k], cls, pi) && e in EdgesOf(es[k].tri)
      {
        if exists k :: 0 <= k < |es| && Removed(es[k], cls, pi) && e in EdgesOf(es[k].tri) {
          var k :| 0 <= k < |es| && Removed(es[k], cls, pi) && e in EdgesOf(es[k].tri);
          if k > 0 {
            assert rest[k - 1] == es[k];
          }
        }
        if e in RemovedEdges(rest, cls, pi) {
          var k :| 0 <= k < |rest| && Removed(rest[k], cls, pi) && e in EdgesOf(rest[k].tri);
          assert es[k + 1] == rest[k];
        }
      }
    }
  }

  /** The scan as `computeTriangles` writes it: a backward walk over snapshots of
      the triangle and flag lists, removing from the live lists by index.
      Because the walk runs backwards, each removal leaves the positions
      still to be visited in place, and the outcome is the snapshot
      filtered by the verdicts. */
  method ScanStep(triangles: seq<int>, complete: seq<bool>, pi: int, cls: Classifier)
    returns (ts: seq<int>, fs: seq<bool>, edges: seq<Edge>)
    requires |triangles| == 3 * |complete|
    ensures |ts| == 3 * |fs|
    ensures Entries(ts, fs) == Filter(Entries(triangles, complete), KeepFor(cls, pi))
    ensures edges == RemovedEdges(Entries(triangles, complete), cls, pi)
  {
    var trianglesArray, completeArray := triangles, complete;
    ts, fs, edges := triangles, complete, [];
    var triangleIndex := |ts| - 1;
    ghost var m := |complete|;
    assert ts[3 * m..] == [] && fs[m..] == [];
    assert Entries(triangles, complete)[m..] == [];
    while triangleIndex >= 0
      invariant 0 <= m <= |complete| && triangleIndex == 3 * m - 1
      invariant ScanInv(triangles, complete, ts, fs, edges, m, cls, pi)
      invariant |completeArray| == |complete|
      invariant forall k :: 0 <= k < m ==> completeArray[k] == complete[k]
    {
      ts, fs, edges, completeArray := ScanVisit(triangles, complete, trianglesArray, completeArray, ts, fs, edges, triangleIndex, m, pi, cls);
      triangleIndex := triangleIndex - 3;
      m := m - 1;
    }
    assert ts[0..] == ts && fs[0..] == fs && Entries(triangles, complete)[0..] == Entries(triangles, complete);
  }

  /** One turn of the scan loop, visiting triangle `m - 1`: a triangle
      flagged in the snapshot is passed over; otherwise it is classified, a
      COMPLETE verdict flags only the snapshot, and an INSIDE verdict cuts
      the triangle out of the live lists and pushes its three edges. */
  method ScanVisit(ghost triangles: seq<int>, ghost complete: seq<bool>, trianglesArray: seq<int>, completeArray: seq<bool>,
                   ts: seq<int>, fs: seq<bool>, edges: seq<Edge>, triangleIndex: int, ghost m: int, pi: int, cls: Classifier)
    returns (ts': seq<int>, fs': seq<bool>, edges': seq<Edge>, completeArray': seq<bool>)
    requires |triangles| == 3 * |complete| && 1 <= m <= |complete| && triangleIndex == 3 * m - 1
    requires trianglesArray == triangles
    requires |completeArray| == |complete| && forall k :: 0 <= k < m ==> completeArray[k] == complete[k]
    requires ScanInv(triangles, complete, ts, fs, edges, m, cls, pi)
    ensures ScanInv(triangles, complete, ts', fs', edges', m - 1, cls, pi)
    ensures |completeArray'| == |complete| && forall k :: 0 <= k < m - 1 ==> completeArray'[k] == complete[k]
  {
    ts', fs', edges', completeArray' := ts, fs, edges, completeArray;
    var completeIndex := triangleIndex / 3;
    assert completeIndex == m - 1;
    if !completeArray[completeIndex] {
      var p1, p2, p3 := trianglesArray[triangleIndex - 2], trianglesArray[triangleIndex - 1], trianglesArray[triangleIndex];
      assert Tri(p1, p2, p3) == TriAt(triangles, m - 1) by {
        assert triangleIndex - 2 == 3 * (m - 1);
      }
      match cls(pi, Tri(p1, p2, p3))
      case Complete =>
        completeArray' := completeArray[completeIndex := true];
        ScanKeep(triangles, complete, ts, fs, edges, m, cls, pi);
      case Inside =>
        ScanDrop(triangles, complete, ts, fs, edges, m, cls, pi);
        edges' := edges + [Edge(p1, p2), Edge(p2, p3), Edge(p3, p1)];
        RemoveThree(ts, triangleIndex);
        ts' := RemoveAt(RemoveAt(RemoveAt(ts, triangleIndex), triangleIndex - 1), triangleIndex - 2);
        fs' := RemoveAt(fs, completeIndex);
      case Incomplete =>
        ScanKeep(triangles, complete, ts, fs, edges, m, cls, pi);
    } else {
      ScanKeep(triangles, complete, ts, fs, edges, m, cls, pi);
    }
  }

  /** The loop invariant of the scan, with `m` triangles still to visit:
      the unvisited prefix is untouched, the visited suffix is the filtered
      snapshot suffix, and the edges are those of its removed triangles. */
  ghost predicate ScanInv(triangles: seq<int>, complete: seq<bool>, ts: seq<int>, fs: seq<bool>,
                          edges: seq<Edge>, m: int, cls: Classifier, pi: int)
    requires |triangles| == 3 * |complete| && 0 <= m <= |complete|
  {
    && |ts| == 3 * |fs| && m <= |fs|
    && ts[..3 * m] == triangles[..3 * m] && fs[..m] == complete[..m]
    && Entries(ts[3 * m..], fs[m..]) == Filter(Entries(triangles, complete)[m..], KeepFor(cls, pi))
    && edges == RemovedEdges(Entries(triangles, complete)[m..], cls, pi)
  }

  lemma EntriesStep(ts: seq<int>, fs: seq<bool>, m: int)
    requires |ts| == 3 * |fs| && 1 <= m <= |fs|
    ensures Entries(ts[3 * (m - 1)..], fs[m - 1..]) == [Entry(TriAt(ts, m - 1), fs[m - 1])] + Entries(ts[3 * m..], fs[m..])
  {
    var t, f := ts[3 * (m - 1)..], fs[m - 1..];
    EntriesCons(t, f);
    assert t[3..] == ts[3 * m..];
    assert f[1..] == fs[m..];
    assert TriAt(t, 0) == TriAt(ts, m - 1) by {
      assert t[0] == ts[3 * (m - 1)] && t[1] == ts[3 * (m - 1) + 1] && t[2] == ts[3 * (m - 1) + 2];
    }
  }

  /** Visiting a triangle the scan keeps moves the invariant one step down. */
  lemma ScanKeep(triangles: seq<int>, complete: seq<bool>, ts: seq<int>, fs: seq<bool>,
                 edges: seq<Edge>, m: int, cls: Classifier, pi: int)
    requires |triangles| == 3 * |complete| && 1 <= m <= |complete|
    requires ScanInv(triangles, complete, ts, fs, edges, m, cls, pi)
    requires !Removed(Entry(TriAt(triangles, m - 1), complete[m - 1]), cls, pi)
    ensures ScanInv(triangles, complete, ts, fs, edges, m - 1, cls, pi)
  {
    var es := Entries(triangles, complete);
    assert es[m - 1..] == [es[m - 1]] + es[m..];
    assert TriAt(ts, m - 1) == TriAt(triangles, m - 1) by {
      assert ts[..3 * m][3 * (m - 1)..] == triangles[..3 * m][3 * (m - 1)..];
    }
    assert fs[m - 1] == complete[m - 1] by {
      assert fs[..m][m - 1] == complete[..m][m - 1];
    }
    EntriesStep(ts, fs, m);
    assert ts[..3 * (m - 1)] == ts[..3 * m][..3 * (m - 1)];
    assert triangles[..3 * (m - 1)] == triangles[..3 * m][..3 * (m - 1)];
    assert fs[..m - 1] == fs[..m][..m - 1];
    assert complete[..m - 1] == complete[..m][..m - 1];
  }

  /** Visiting a triangle the scan removes: cutting it out of the live lists
      and appending its edges moves the invariant one step down. */
  lemma ScanDrop(triangles: seq<int>, complete: seq<bool>, ts: seq<int>, fs: seq<bool>,
                 edges: seq<Edge>, m: int, cls: Classifier, pi: int)
    requires |triangles| == 3 * |complete| && 1 <= m <= |complete|
    requires ScanInv(triangles, complete, ts, fs, edges, m, cls, pi)
    requires Removed(Entry(TriAt(triangles, m - 1), complete[m - 1]), cls, pi)
    ensures ScanInv(triangles, complete, ts[..3 * (m - 1)] + ts[3 * m..], fs[..m - 1] + fs[m..],
                    edges + EdgesOf(TriAt(triangles, m - 1)), m - 1, cls, pi)
  {
    var es := Entries(triangles, complete);
    assert es[m - 1..] == [es[m - 1]] + es[m..];
    var ts', fs' := ts[..3 * (m - 1)] + ts[3 * m..], fs[..m - 1] + fs[m..];
    assert ts'[3 * (m - 1)..] == ts[3 * m..];
    assert fs'[m - 1..] == fs[m..];
    assert ts'[..3 * (m - 1)] == ts[..3 * m][..3 * (m - 1)];
    assert triangles[..3 * (m - 1)] == triangles[..3 * m][..3 * (m - 1)];
    assert fs'[..m - 1] == fs[..m][..m - 1];
    assert complete[..m - 1] == complete[..m][..m - 1];
  }
}
