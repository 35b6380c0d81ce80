/** The data of one triangulation run. Vertex references are offsets into the
    interleaved coordinate buffer: the point at offset `p` has its x at `p`
    and its y at `p + 1`. The three super-triangle vertices are referenced as
    `end`, `end + 2` and `end + 4`, where `end` is the length of the buffer.
    The live triangle list is flat (three references per triangle) and runs
    beside a list of "complete" flags, one per triangle. */
module Mesh {

  datatype Tri = Tri(a: int, b: int, c: int)

  /** A directed edge of a removed triangle. */
  datatype Edge = Edge(a: int, b: int)

  /** One live triangle together with its "complete" flag. */
  datatype Entry = Entry(tri: Tri, done: bool)

  /** The three answers of the circumcircle predicate. */
  datatype Verdict = Inside | Complete | Incomplete

  /** The circumcircle predicate, seen through vertex references: the
      verdict for the point at offset `pi` against triangle `t`. The
      coordinate buffer and the super triangle are fixed during a run, so
      the floating-point test is a function of these references. */
  type Classifier = (int, Tri) -> Verdict

  /** The `k`-th triangle of a flat triangle list. */
  function TriAt(s: seq<int>, k: int): Tri
    requires 0 <= k && 3 * k + 2 < |s|
  {
    Tri(s[3 * k], s[3 * k + 1], s[3 * k + 2])
  }

  /** The flat list read as triangles. */
  function Tris(s: seq<int>): (ts: seq<Tri>)
    requires |s| % 3 == 0
    ensures |ts| == |s| / 3
    ensures forall k :: 0 <= k < |ts| ==> ts[k] == TriAt(s, k)
  {
    seq(|s| / 3, k requires 0 <= k < |s| / 3 => TriAt(s, k))
  }

  /** The flat list and the flags read together, one entry per triangle. */
  function Entries(s: seq<int>, f: seq<bool>): (es: seq<Entry>)
    requires |s| == 3 * |f|
    ensures |es| == |f|
    ensures forall k :: 0 <= k < |es| ==> es[k] == Entry(TriAt(s, k), f[k])
  {
    seq(|f|, k requires 0 <= k < |f| => Entry(TriAt(s, k), f[k]))
  }

  /** The first triangle and its flag, then the rest. */
  lemma EntriesCons(s: seq<int>, f: seq<bool>)
    requires |s| == 3 * |f| && |f| > 0
    ensures Entries(s, f) == [Entry(TriAt(s, 0), f[0])] + Entries(s[3..], f[1..])
  {
    var l, r := Entries(s, f), [Entry(TriAt(s, 0), f[0])] + Entries(s[3..], f[1..]);
    forall k | 1 <= k < |l|
      ensures l[k] == r[k]
    {
      assert TriAt(s[3..], k - 1) == TriAt(s, k);
    }
  }

  lemma TrisCons(s: seq<int>)
    requires |s| % 3 == 0 && |s| > 0
    ensures Tris(s) == [TriAt(s, 0)] + Tris(s[3..])
  {
    var l, r := Tris(s), [TriAt(s, 0)] + Tris(s[3..]);
    forall k | 1 <= k < |l|
      ensures l[k] == r[k]
    {
      assert TriAt(s[3..], k - 1) == TriAt(s, k);
    }
  }

  /** The edges a removed triangle pushes, in the order `computeTriangles` pushes them. */
  function EdgesOf(t: Tri): seq<Edge>
  {
    [Edge(t.a, t.b), Edge(t.b, t.c), Edge(t.c, t.a)]
  }

  function Rev(e: Edge): Edge
  {
    Edge(e.b, e.a)
  }

  /** The triangles formed from boundary edges `es` and the new point `pi`,
      flat, one `(a, b, pi)` per edge in edge order. */
  function Fan(es: seq<Edge>, pi: int): (s: seq<int>)
    ensures |s| == 3 * |es|
    ensures forall k :: 0 <= k < |es| ==> TriAt(s, k) == Tri(es[k].a, es[k].b, pi)
  {
    if |es| == 0 then []
    else
      var rest := Fan(es[1..], pi);
      assert forall k :: 1 <= k < |es| ==> TriAt([es[0].a, es[0].b, pi] + rest, k) == TriAt(rest, k - 1);
      [es[0].a, es[0].b, pi] + rest
  }

  lemma FanSnoc(es: seq<Edge>, e: Edge, pi: int)
    ensures Fan(es + [e], pi) == Fan(es, pi) + [e.a, e.b, pi]
  {
    var l, r := Fan(es + [e], pi), Fan(es, pi) + [e.a, e.b, pi];
    forall i | 0 <= i < |l|
      ensures l[i] == r[i]
    {
      var k := i / 3;
      assert TriAt(l, k) == TriAt(r, k);
    }
  }

  /** A vertex reference that may occur while the point at offset `next` is
      about to be inserted: an earlier point, or a super-triangle vertex. */
  predicate RefOk(r: int, next: int, end: int)
  {
    (0 <= r < next && r % 2 == 0) || r == end || r == end + 2 || r == end + 4
  }

  /** Valid references, pairwise distinct. */
  predicate TriOk(t: Tri, next: int, end: int)
  {
    && RefOk(t.a, next, end) && RefOk(t.b, next, end) && RefOk(t.c, next, end)
    && t.a != t.b && t.b != t.c && t.c != t.a
  }

  predicate EdgeOk(e: Edge, next: int, end: int)
  {
    RefOk(e.a, next, end) && RefOk(e.b, next, end) && e.a != e.b
  }

  /** The invariant of the live lists between two insertions: three
      references per flag, every flag false, every triangle well formed. */
  predicate LiveOk(s: seq<int>, f: seq<bool>, next: int, end: int)
  {
    && |s| == 3 * |f|
    && forall k :: 0 <= k < |f| ==> !f[k] && TriOk(TriAt(s, k), next, end)
  }

  /** A triangle that touches a super-triangle vertex. */
  predicate TouchesSuper(t: Tri, end: int)
  {
    t.a >= end || t.b >= end || t.c >= end
  }
}
