/** The re-triangulation half of one insertion: the edges collected by the
    scan are walked in order; an edge whose reversed copy occurs later in the
    buffer cancels with every such copy, and every other edge forms a new
    triangle with the inserted point. A cancelled later copy is marked by
    overwriting its first reference with -1. */
module Dedup {
  import opened Seqs
  import opened Mesh

  /** No edge joins a vertex to itself. */
  predicate NoLoop(es: seq<Edge>)
  {
    forall e :: e in es ==> e.a != e.b
  }

  /** No directed edge twice and no loop: the buffer removed triangles of a
      consistently oriented mesh push, and the shape under which the
      cancellation rule yields exactly the boundary polygon. */
  predicate Clean(es: seq<Edge>)
  {
    Distinct(es) && NoLoop(es)
  }

  /** Vertex references are never negative, so -1 is free as a mark. */
  predicate NonNegative(es: seq<Edge>)
  {
    forall j :: 0 <= j < |es| ==> es[j].a >= 0 && es[j].b >= 0
  }

  function Unpaired(es: seq<Edge>): Edge -> bool
  {
    e => Rev(e) !in es
  }

  /** The boundary of the removed region: the edges whose reverse is not in
      the buffer, in buffer order. */
  function Boundary(es: seq<Edge>): seq<Edge>
  {
    Filter(es, Unpaired(es))
  }

  /** An edge not yet consumed: its first reference is not the mark. */
  predicate Unmarked(e: Edge)
  {
    e.a != -1
  }

  /** Every edge except the reverse of `e`. */
  function Other(e: Edge): Edge -> bool
  {
    x => x != Rev(e)
  }

  /** The edges the cancellation rule turns into triangles, in order: the
      first edge cancels, together with every later copy of its reverse, if
      such a copy exists, and survives otherwise; the rest is processed the
      same way. */
  function Survivors(es: seq<Edge>): (r: seq<Edge>)
    ensures |r| <= |es|
    ensures forall x :: x in r ==> x in es
    decreases |es|
  {
    if |es| == 0 then []
    else if Rev(es[0]) in es[1..] then Survivors(Filter(es[1..], Other(es[0])))
    else [es[0]] + Survivors(es[1..])
  }

  lemma SurvivorsCons(e: Edge, rest: seq<Edge>)
    ensures Survivors([e] + rest) ==
      if Rev(e) in rest then Survivors(Filter(rest, Other(e))) else [e] + Survivors(rest)
  {
    assert ([e] + rest)[0] == e && ([e] + rest)[1..] == rest;
  }

  /** For a clean buffer the cancellation rule computes the boundary: an
      edge survives iff its reverse is nowhere in the buffer. */
  lemma {:induction false} SurvivorsClean(es: seq<Edge>)
    requires Clean(es)
    ensures Survivors(es) == Boundary(es)
    decreases |es|
  {
    if |es| > 0 {
      var e, rest := es[0], es[1..];
      assert es == [e] + rest;
      SurvivorsCons(e, rest);
      assert e !in rest by {
        forall k | 0 <= k < |rest|
          ensures rest[k] != e
        {
          assert rest[k] == es[k + 1];
        }
      }
      assert Clean(rest) by {
        forall j, k | 0 <= j < k < |rest|
          ensures rest[j] != rest[k]
        {
          assert rest[j] == es[j + 1] && rest[k] == es[k + 1];
        }
      }
      assert e != Rev(e) by {
        assert e in es;
      }
      if Rev(e) in rest {
        var rest' := Filter(rest, Other(e));
        FilterDistinct(rest, Other(e));
        assert Clean(rest');
        SurvivorsClean(rest');
        FilterFilter(rest, Other(e), Unpaired(rest'), Unpaired(es));
        assert Filter(es, Unpaired(es)) == Filter(rest, Unpaired(es));
      } else {
        SurvivorsClean(rest);
        FilterCongruent(rest, Unpaired(rest), Unpaired(es));
        assert Filter(es, Unpaired(es)) == [e] + Filter(rest, Unpaired(es));
      }
    }
  }

  /** `ea` is the working copy of `es`: second references untouched, first
      references either original or the consumed mark. */
  ghost predicate Marks(es: seq<Edge>, ea: seq<Edge>)
  {
    && |ea| == |es|
    && forall j :: 0 <= j < |es| ==> ea[j].b == es[j].b && (ea[j].a == es[j].a || ea[j].a == -1)
  }

  /** The edges from position `i` on that are not consumed. */
  ghost function Live(ea: seq<Edge>, i: int): seq<Edge>
    requires 0 <= i <= |ea|
  {
    Filter(ea[i..], Unmarked)
  }

  /** The inner loop's test: `e` is the reverse of `(p1, p2)`. */
  predicate Hit(e: Edge, p1: int, p2: int)
  {
    p1 == e.b && p2 == e.a
  }

  /** The dedup-and-fan loop of `computeTriangles` over the edge buffer `edges`. The
      triangles appended behind the old ones are exactly the surviving
      edges joined to `pi`, each with a false flag. */
  method DedupStep(triangles: seq<int>, complete: seq<bool>, edges: seq<Edge>, pi: int)
    returns (ts: seq<int>, fs: seq<bool>)
    requires |triangles| == 3 * |complete|
    requires NonNegative(edges)
    ensures |ts| == 3 * |fs| && |complete| <= |fs| <= |complete| + |edges|
    ensures ts[..|triangles|] == triangles && fs[..|complete|] == complete
    ensures forall k :: |complete| <= k < |fs| ==> !fs[k]
    ensures ts[|triangles|..] == Fan(Survivors(edges), pi)
  {
    var edgesArray := edges;
    ts, fs := triangles, complete;
    ghost var out: seq<Edge> := [];
    DedupStart(triangles, complete, edges, pi);
    var n := |edgesArray|;
    var i := 0;
    while i < n
      invariant DedupInv(triangles, complete, edges, pi, edgesArray, ts, fs, out, i)
    {
      edgesArray, ts, fs, out := DedupEdge(triangles, complete, edges, pi, edgesArray, ts, fs, out, i);
      i := i + 1;
    }
    DedupDone(triangles, complete, edges, pi, edgesArray, ts, fs, out);
  }

  /** One round of the outer loop, for the edge at `i`: skip it if it is
      consumed; otherwise consume the later copies of its reverse and, if
      there were none, append its triangle. */
  method DedupEdge(ghost triangles: seq<int>, ghost complete: seq<bool>, ghost edges: seq<Edge>, pi: int,
                   edgesArray: seq<Edge>, ts: seq<int>, fs: seq<bool>, ghost out: seq<Edge>, i: int)
    returns (ea: seq<Edge>, ts': seq<int>, fs': seq<bool>, ghost out': seq<Edge>)
    requires DedupInv(triangles, complete, edges, pi, edgesArray, ts, fs, out, i) && i < |edges|
    ensures DedupInv(triangles, complete, edges, pi, ea, ts', fs', out', i + 1)
    ensures edgesArray[i].a == -1 ==> ea == edgesArray && ts' == ts && fs' == fs
    ensures (ts' == ts && fs' == fs) || (ts' == ts + [edgesArray[i].a, edgesArray[i].b, pi] && fs' == fs + [false])
    ensures edgesArray[i].a != -1 ==>
      && (forall j :: 0 <= j <= i ==> ea[j] == edgesArray[j])
      && (forall j :: i < j < |ea| ==>
            ea[j].b == edgesArray[j].b
            && ea[j].a == (if Hit(edgesArray[j], edgesArray[i].a, edgesArray[i].b) then -1 else edgesArray[j].a))
      && (ts' == ts <==> exists j :: i < j < |edgesArray| && Hit(edgesArray[j], edgesArray[i].a, edgesArray[i].b))
  {
    ea, ts', fs', out' := edgesArray, ts, fs, out;
    var p1 := edgesArray[i].a;
    if p1 == -1 {
      DedupMarked(triangles, complete, edges, pi, edgesArray, ts, fs, out, i);
    } else {
      var skip;
      ea, skip := CancelReversed(edgesArray, i);
      VisitLive(edgesArray, ea, skip, i);
      SweepMarks(edges, edgesArray, ea, i);
      assert edgesArray[i] == edges[i];
      if skip {
        DedupSkip(edges, edgesArray, ea, out, i);
      } else {
        DedupEmit(edges, edgesArray, ea, out, i);
        AppendedSnoc(triangles, complete, pi, ts, fs, out, edges[i]);
        ts' := ts + [p1, ea[i].b, pi];
        fs' := fs + [false];
        out' := out + [edges[i]];
      }
    }
  }

  /** The invariant of the outer loop after `i` edges: `out` are the edges
      that formed triangles so far, and together with the survivors of the
      unconsumed rest they are the survivors of the whole buffer. */
  ghost predicate DedupInv(triangles: seq<int>, complete: seq<bool>, edges: seq<Edge>, pi: int,
                           ea: seq<Edge>, ts: seq<int>, fs: seq<bool>, out: seq<Edge>, i: int)
  {
    && |triangles| == 3 * |complete| && NonNegative(edges)
    && 0 <= i <= |edges|
    && Marks(edges, ea)
    && Appended(triangles, complete, pi, ts, fs, out)
    && out + Survivors(Live(ea, i)) == Survivors(edges)
  }

  /** The lists are the old ones followed by one triangle `(e.a, e.b, pi)`
      with a false flag per edge `e` of `out`. */
  ghost predicate Appended(triangles: seq<int>, complete: seq<bool>, pi: int,
                           ts: seq<int>, fs: seq<bool>, out: seq<Edge>)
  {
    && |triangles| == 3 * |complete|
    && |ts| == 3 * |fs| && |fs| == |complete| + |out|
    && ts[..|triangles|] == triangles && fs[..|complete|] == complete
    && (forall k :: |complete| <= k < |fs| ==> !fs[k])
    && ts[|triangles|..] == Fan(out, pi)
  }

  lemma AppendedSnoc(triangles: seq<int>, complete: seq<bool>, pi: int,
                     ts: seq<int>, fs: seq<bool>, out: seq<Edge>, e: Edge)
    requires Appended(triangles, complete, pi, ts, fs, out)
    ensures Appended(triangles, complete, pi, ts + [e.a, e.b, pi], fs + [false], out + [e])
  {
    var ts', fs' := ts + [e.a, e.b, pi], fs + [false];
    AppendTri(triangles, ts, fs, Tri(e.a, e.b, pi));
    FanSnoc(out, e, pi);
    assert ts'[|triangles|..] == Fan(out + [e], pi);
    assert fs'[..|complete|] == fs[..|complete|];
  }

  lemma DedupStart(triangles: seq<int>, complete: seq<bool>, edges: seq<Edge>, pi: int)
    requires |triangles| == 3 * |complete| && NonNegative(edges)
    ensures DedupInv(triangles, complete, edges, pi, edges, triangles, complete, [], 0)
  {
    assert edges[0..] == edges;
    FilterAll(edges, Unmarked);
    assert triangles[|triangles|..] == [];
  }

  lemma DedupDone(triangles: seq<int>, complete: seq<bool>, edges: seq<Edge>, pi: int,
                  ea: seq<Edge>, ts: seq<int>, fs: seq<bool>, out: seq<Edge>)
    requires DedupInv(triangles, complete, edges, pi, ea, ts, fs, out, |edges|)
    ensures |ts| == 3 * |fs| && |complete| <= |fs| <= |complete| + |edges|
    ensures ts[..|triangles|] == triangles && fs[..|complete|] == complete
    ensures forall k :: |complete| <= k < |fs| ==> !fs[k]
    ensures ts[|triangles|..] == Fan(Survivors(edges), pi)
  {
    assert ea[|edges|..] == [];
    assert out + [] == out;
  }

  /** A consumed edge yields nothing. */
  lemma DedupMarked(triangles: seq<int>, complete: seq<bool>, edges: seq<Edge>, pi: int,
                    ea: seq<Edge>, ts: seq<int>, fs: seq<bool>, out: seq<Edge>, i: int)
    requires DedupInv(triangles, complete, edges, pi, ea, ts, fs, out, i) && i < |edges|
    requires ea[i].a == -1
    ensures DedupInv(triangles, complete, edges, pi, ea, ts, fs, out, i + 1)
  {
    LiveCons(ea, i);
  }

  /** The unconsumed edges from `i` on: the edge at `i` if it is not
      consumed, then those from `i + 1` on. */
  lemma LiveCons(ea: seq<Edge>, i: int)
    requires 0 <= i < |ea|
    ensures Unmarked(ea[i]) ==> Live(ea, i) == [ea[i]] + Live(ea, i + 1)
    ensures !Unmarked(ea[i]) ==> Live(ea, i) == Live(ea, i + 1)
  {
    assert ea[i..] == [ea[i]] + ea[i + 1..];
    FilterAppend([ea[i]], ea[i + 1..], Unmarked);
    assert [ea[i]][1..] == [];
  }

  /** An unconsumed edge `e` at `i` whose reverse comes later yields
      nothing: the survivors of the rest are those of the rest without the
      consumed copies. */
  lemma DedupSkip(edges: seq<Edge>, ea: seq<Edge>, ea': seq<Edge>, out: seq<Edge>, i: int)
    requires 0 <= i < |ea| && |ea'| == |ea| && Unmarked(ea[i])
    requires out + Survivors(Live(ea, i)) == Survivors(edges)
    requires Live(ea', i + 1) == Filter(Live(ea, i + 1), Other(ea[i]))
    requires Rev(ea[i]) in Live(ea, i + 1)
    ensures out + Survivors(Live(ea', i + 1)) == Survivors(edges)
  {
    LiveCons(ea, i);
    SurvivorsCons(ea[i], Live(ea, i + 1));
  }

  /** An unconsumed edge `e` at `i` whose reverse does not come later
      survives. */
  lemma DedupEmit(edges: seq<Edge>, ea: seq<Edge>, ea': seq<Edge>, out: seq<Edge>, i: int)
    requires 0 <= i < |ea| && |ea'| == |ea| && Unmarked(ea[i])
    requires out + Survivors(Live(ea, i)) == Survivors(edges)
    requires Live(ea', i + 1) == Filter(Live(ea, i + 1), Other(ea[i]))
    requires Rev(ea[i]) !in Live(ea, i + 1)
    ensures (out + [ea[i]]) + Survivors(Live(ea', i + 1)) == Survivors(edges)
  {
    var e := ea[i];
    LiveCons(ea, i);
    SurvivorsCons(e, Live(ea, i + 1));
    FilterAll(Live(ea, i + 1), Other(e));
    var later := Survivors(Live(ea, i + 1));
    assert Survivors(Live(ea, i)) == [e] + later;
    assert Survivors(Live(ea', i + 1)) == later;
    assert (out + [e]) + later == out + ([e] + later);
  }

  /** The sweep for the unconsumed edge `e` at `i`, seen through the
      unconsumed edges behind it: it drops exactly the copies of `e`'s
      reverse, and it reports whether there was one. */
  lemma VisitLive(ea: seq<Edge>, ea': seq<Edge>, skip: bool, i: int)
    requires 0 <= i < |ea| && ea[i].a != -1 && ea[i].b >= 0
    requires |ea'| == |ea|
    requires forall j :: i < j < |ea'| ==> ea'[j].b == ea[j].b
    requires forall j :: i < j < |ea'| ==> ea'[j].a == (if Hit(ea[j], ea[i].a, ea[i].b) then -1 else ea[j].a)
    requires skip <==> exists j :: i < j < |ea'| && Hit(ea[j], ea[i].a, ea[i].b)
    ensures Live(ea', i + 1) == Filter(Live(ea, i + 1), Other(ea[i]))
    ensures skip <==> Rev(ea[i]) in Live(ea, i + 1)
  {
    VisitMarks(ea, ea', i);
  }

  /** Marking the later hits of the edge at `i` drops exactly the copies
      of its reverse from the unconsumed edges behind it. */
  lemma VisitMarks(ea: seq<Edge>, ea': seq<Edge>, i: int)
    requires 0 <= i < |ea| && ea[i].b >= 0
    requires |ea'| == |ea|
    requires forall j :: i < j < |ea'| ==> ea'[j].b == ea[j].b
    requires forall j :: i < j < |ea'| ==> ea'[j].a == (if Hit(ea[j], ea[i].a, ea[i].b) then -1 else ea[j].a)
    ensures Live(ea', i + 1) == Filter(Live(ea, i + 1), Other(ea[i]))
  {
    var e := ea[i];
    var rest, rest' := ea[i + 1..], ea'[i + 1..];
    forall k | 0 <= k < |rest|
      ensures rest'[k] == (if rest[k] == Rev(e) then rest[k].(a := -1) else rest[k])
    {
      assert rest[k] == ea[i + 1 + k] && rest'[k] == ea'[i + 1 + k];
    }
    SweepLive(rest, rest', e);
  }

  /** The sweep for `e`, seen through the unconsumed edges: it drops
      exactly the copies of `e`'s reverse. */
  lemma {:induction false} SweepLive(s: seq<Edge>, s': seq<Edge>, e: Edge)
    requires |s'| == |s| && e.b != -1
    requires forall k :: 0 <= k < |s| ==> s'[k] == (if s[k] == Rev(e) then s[k].(a := -1) else s[k])
    ensures Filter(s', Unmarked) == Filter(Filter(s, Unmarked), Other(e))
  {
    if |s| > 0 {
      assert forall k :: 0 <= k < |s| - 1 ==> s'[1..][k] == s'[k + 1] && s[1..][k] == s[k + 1];
      SweepLive(s[1..], s'[1..], e);
      var head: seq<Edge> := if Unmarked(s[0]) then [s[0]] else [];
      FilterAppend(head, Filter(s[1..], Unmarked), Other(e));
      if Unmarked(s[0]) {
        assert head[1..] == [];
      }
    }
  }

  /** The inner loop for an unmarked edge `i = (p1, p2)`: every later edge
      that reads `(p2, p1)` gets its first reference overwritten with -1, and
      `skip` reports whether there was one. A later edge already marked
      cannot read `(p2, p1)`, because `p2` is not negative. */
  method CancelReversed(edgesArray: seq<Edge>, i: int) returns (ea: seq<Edge>, skip: bool)
    requires 0 <= i < |edgesArray|
    ensures |ea| == |edgesArray|
    ensures forall j :: 0 <= j <= i ==> ea[j] == edgesArray[j]
    ensures forall j :: i < j < |ea| ==> ea[j].b == edgesArray[j].b
    ensures forall j :: i < j < |ea| ==>
      ea[j].a == (if Hit(edgesArray[j], edgesArray[i].a, edgesArray[i].b) then -1 else edgesArray[j].a)
    ensures skip <==> exists j :: i < j < |ea| && Hit(edgesArray[j], edgesArray[i].a, edgesArray[i].b)
  {
    var p1, p2 := edgesArray[i].a, edgesArray[i].b;
    ea, skip := edgesArray, false;
    var n := |ea|;
    var ii := i + 1;
    while ii < n
      invariant i + 1 <= ii <= n && |ea| == n
      invariant forall j :: 0 <= j < n && !(i < j < ii) ==> ea[j] == edgesArray[j]
      invariant forall j :: i < j < ii ==> ea[j].b == edgesArray[j].b
      invariant forall j :: i < j < ii ==>
        ea[j].a == (if Hit(edgesArray[j], p1, p2) then -1 else edgesArray[j].a)
      invariant skip <==> exists j :: i < j < ii && Hit(edgesArray[j], p1, p2)
    {
      if p1 == ea[ii].b && p2 == ea[ii].a {
        skip := true;
        ea := ea[ii := ea[ii].(a := -1)];
      }
      ii := ii + 1;
    }
  }

  /** The inner sweep keeps the working copy a marking of the buffer. */
  lemma SweepMarks(es: seq<Edge>, ea: seq<Edge>, ea': seq<Edge>, i: int)
    requires 0 <= i < |es| && Marks(es, ea) && |ea'| == |ea|
    requires forall j :: 0 <= j <= i ==> ea'[j] == ea[j]
    requires forall j :: i < j < |ea'| ==> ea'[j].b == ea[j].b
    requires forall j :: i < j < |ea'| ==> ea'[j].a == (if Hit(ea[j], ea[i].a, ea[i].b) then -1 else ea[j].a)
    ensures Marks(es, ea')
  {
  }

  /** Appending one triangle keeps the earlier ones and the reading of the
      appended suffix. */
  lemma AppendTri(prefix: seq<int>, ts: seq<int>, fs: seq<bool>, t: Tri)
    requires |ts| == 3 * |fs| && |prefix| <= |ts| && ts[..|prefix|] == prefix
    ensures (ts + [t.a, t.b, t.c])[..|prefix|] == prefix
    ensures TriAt(ts + [t.a, t.b, t.c], |fs|) == t
    ensures forall k :: 0 <= k < |fs| ==> TriAt(ts + [t.a, t.b, t.c], k) == TriAt(ts, k)
    ensures (ts + [t.a, t.b, t.c])[|prefix|..] == ts[|prefix|..] + [t.a, t.b, t.c]
  {
  }
}
