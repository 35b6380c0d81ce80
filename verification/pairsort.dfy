/** The pair sort: an in-place quicksort over a buffer of interleaved
    `(x, y)` coordinates that orders the pairs by `x`. Only x values are
    compared, and every exchange moves a whole pair. Offsets into the buffer
    are those of `SimpleDelaunay2D`: a range `[lo, hi]` names the x slots `lo, lo + 2, ...,
    hi`, and the y of the pair at `p` sits at `p + 1`. Coordinates are
    modelled as reals; NaN is not modelled. */
module PairSort {

  /** `j` is an x slot of a range starting at `lo`. */
  predicate XSlot(lo: int, j: int)
  {
    lo <= j && (j - lo) % 2 == 0
  }

  /** The `n` pairs starting at offset `lo`. */
  function PairSeq(v: seq<real>, lo: int, n: int): (ps: seq<(real, real)>)
    requires 0 <= lo && 0 <= n && lo + 2 * n <= |v|
    ensures |ps| == n
    ensures forall k :: 0 <= k < n ==> ps[k] == (v[lo + 2 * k], v[lo + 2 * k + 1])
  {
    seq(n, k requires 0 <= k < n => (v[lo + 2 * k], v[lo + 2 * k + 1]))
  }

  /** The number of pairs in the range `[lo, hi]` (zero when it is empty). */
  function Count(lo: int, hi: int): nat
  {
    if hi < lo then 0 else (hi - lo) / 2 + 1
  }

  /** The multiset of pairs of `[lo, hi]` is the same in `v` and `w`. */
  ghost predicate SamePairs(v: seq<real>, w: seq<real>, lo: int, hi: int)
    requires 0 <= lo && lo + 2 * Count(lo, hi) <= |v| && |w| == |v|
  {
    multiset(PairSeq(w, lo, Count(lo, hi))) == multiset(PairSeq(v, lo, Count(lo, hi)))
  }

  /** Two pairs at offsets `a` and `b` are the same pair or do not overlap. */
  predicate Apart(a: int, b: int)
  {
    a == b || a + 2 <= b || b + 2 <= a
  }

  /** Two x slots of one range are the same pair or do not overlap. */
  lemma SlotsApart(lo: int, a: int, b: int)
    requires XSlot(lo, a) && XSlot(lo, b)
    ensures Apart(a, b)
  {
  }

  /** The in-line pair exchange of `quicksortPartition`: x with x, then y with y. */
  function SwapPairs(w: seq<real>, a: int, b: int): (r: seq<real>)
    requires 0 <= a && a + 1 < |w| && 0 <= b && b + 1 < |w| && Apart(a, b)
    ensures |r| == |w|
    ensures r[a] == w[b] && r[a + 1] == w[b + 1] && r[b] == w[a] && r[b + 1] == w[a + 1]
    ensures forall j :: 0 <= j < |w| && j != a && j != a + 1 && j != b && j != b + 1 ==> r[j] == w[j]
  {
    var w1 := w[a := w[b]][b := w[a]];
    w1[a + 1 := w1[b + 1]][b + 1 := w1[a + 1]]
  }

  /** Exchanging two elements keeps the multiset. */
  lemma SwapMultiset<T>(s: seq<T>, i: int, j: int)
    requires 0 <= i < |s| && 0 <= j < |s|
    ensures multiset(s[i := s[j]][j := s[i]]) == multiset(s)
  {
  }

  /** The pairs of a range after exchanging its pairs `ka` and `kb` are the
      pairs before, with entries `ka` and `kb` exchanged. */
  lemma SwappedPairSeq(w: seq<real>, lo: int, n: int, ka: int, kb: int)
    requires 0 <= lo && 0 <= ka < n && 0 <= kb < n && lo + 2 * n <= |w|
    ensures PairSeq(SwapPairs(w, lo + 2 * ka, lo + 2 * kb), lo, n)
         == PairSeq(w, lo, n)[ka := PairSeq(w, lo, n)[kb]][kb := PairSeq(w, lo, n)[ka]]
  {
    var a, b := lo + 2 * ka, lo + 2 * kb;
    var ps, qs := PairSeq(w, lo, n), PairSeq(SwapPairs(w, a, b), lo, n);
    var swapped := ps[ka := ps[kb]][kb := ps[ka]];
    forall k | 0 <= k < n
      ensures qs[k] == swapped[k]
    {
      var j := lo + 2 * k;
      if k != ka && k != kb {
        assert j != a && j != a + 1 && j != b && j != b + 1;
      }
    }
  }

  /** Exchanging two pairs of a range permutes the range's pairs. */
  lemma SwapKeepsPairs(w: seq<real>, lo: int, hi: int, a: int, b: int)
    requires 0 <= lo && lo + 2 * Count(lo, hi) <= |w|
    requires XSlot(lo, a) && a <= hi && XSlot(lo, b) && b <= hi && Apart(a, b)
    ensures SamePairs(w, SwapPairs(w, a, b), lo, hi)
  {
    var n := Count(lo, hi);
    var ka, kb := (a - lo) / 2, (b - lo) / 2;
    assert a == lo + 2 * ka && b == lo + 2 * kb;
    SwappedPairSeq(w, lo, n, ka, kb);
    SwapMultiset(PairSeq(w, lo, n), ka, kb);
  }

  /** Two x slots of one range at most one apart are the same slot. */
  lemma SameSlot(lo: int, a: int, j: int)
    requires XSlot(lo, a) && XSlot(lo, j) && a - 2 < j < a + 2
    ensures j == a
  {
  }

  /** Extending "every x slot below `a` is at most `value`" past slot `a`. */
  lemma SlotsBelow(w: seq<real>, lo: int, a: int, value: real)
    requires 0 <= lo && XSlot(lo, a) && a + 1 < |w| && w[a] <= value
    requires forall j :: lo <= j < a && XSlot(lo, j) ==> w[j] <= value
    ensures forall j :: lo <= j < a + 2 && XSlot(lo, j) ==> w[j] <= value
  {
    forall j | lo <= j < a + 2 && XSlot(lo, j)
      ensures w[j] <= value
    {
      if j >= a {
        SameSlot(lo, a, j);
      }
    }
  }

  /** Extending "every x slot above `a` is above `value`" down to slot `a`. */
  lemma SlotsAbove(w: seq<real>, lo: int, a: int, hi: int, value: real)
    requires 0 <= lo && XSlot(lo, a) && a <= hi < |w| && w[a] > value
    requires forall j :: a < j <= hi && XSlot(lo, j) ==> w[j] > value
    ensures forall j :: a - 2 < j <= hi && XSlot(lo, j) ==> w[j] > value
  {
    forall j | a - 2 < j <= hi && XSlot(lo, j)
      ensures w[j] > value
    {
      if j <= a {
        SameSlot(lo, a, j);
      }
    }
  }

  /** The first inner loop of the partition: step `down` over x values at
      most the pivot, stopping at `up`. */
  method Climb(w: seq<real>, lower: int, down: int, up: int, value: real) returns (d: int)
    requires 0 <= lower <= down <= up && up + 1 < |w| && XSlot(lower, down) && XSlot(lower, up)
    requires forall j :: lower <= j < down && XSlot(lower, j) ==> w[j] <= value
    ensures down <= d <= up && XSlot(lower, d)
    ensures forall j :: lower <= j < d && XSlot(lower, j) ==> w[j] <= value
    ensures d < up ==> w[d] > value
  {
    d := down;
    while w[d] <= value && d < up
      invariant down <= d <= up && XSlot(lower, d)
      invariant forall j :: lower <= j < d && XSlot(lower, j) ==> w[j] <= value
      decreases up - d
    {
      SlotsBelow(w, lower, d, value);
      d := d + 2;
    }
  }

  /** The second inner loop of the partition: step `up` down over x values
      above the pivot. It stops at the latest at `lower`, whose x is the pivot. */
  method Descend(w: seq<real>, lower: int, up: int, upper: int, value: real) returns (u: int)
    requires 0 <= lower <= up <= upper && upper + 1 < |w| && XSlot(lower, up)
    requires w[lower] <= value
    requires forall j :: up < j <= upper && XSlot(lower, j) ==> w[j] > value
    ensures lower <= u <= up && XSlot(lower, u) && w[u] <= value
    ensures forall j :: u < j <= upper && XSlot(lower, j) ==> w[j] > value
  {
    u := up;
    while w[u] > value
      invariant lower <= u <= up && XSlot(lower, u)
      invariant forall j :: u < j <= upper && XSlot(lower, j) ==> w[j] > value
      decreases u
    {
      SlotsAbove(w, lower, u, upper, value);
      u := u - 2;
    }
  }

  /** Exchanging the out-of-place pairs at `down` and `up` keeps both sides
      of the partition in order. */
  lemma SwapSides(w: seq<real>, lower: int, upper: int, down: int, up: int, value: real)
    requires 0 <= lower <= down && down + 2 <= up <= upper && upper + 1 < |w|
    requires XSlot(lower, down) && XSlot(lower, up)
    requires w[down] > value && w[up] <= value
    requires forall j :: lower <= j < down && XSlot(lower, j) ==> w[j] <= value
    requires forall j :: up < j <= upper && XSlot(lower, j) ==> w[j] > value
    ensures forall j :: lower <= j < down + 2 && XSlot(lower, j) ==> SwapPairs(w, down, up)[j] <= value
    ensures forall j :: up - 2 < j <= upper && XSlot(lower, j) ==> SwapPairs(w, down, up)[j] > value
  {
    var r := SwapPairs(w, down, up);
    forall j | lower <= j < down + 2 && XSlot(lower, j)
      ensures r[j] <= value
    {
      if j >= down {
        SameSlot(lower, down, j);
      }
    }
    forall j | up - 2 < j <= upper && XSlot(lower, j)
      ensures r[j] > value
    {
      if j <= up {
        SameSlot(lower, up, j);
      }
    }
  }

  /** What the partition keeps while it works: the buffer's length, the
      pivot pair at `lower`, everything outside the range, and the range's
      pairs up to order. */
  ghost predicate Framed(values: seq<real>, w: seq<real>, lower: int, upper: int)
    requires 0 <= lower <= upper && upper + 1 < |values| && (upper - lower) % 2 == 0
  {
    && |w| == |values|
    && w[lower] == values[lower] && w[lower + 1] == values[lower + 1]
    && (forall j :: 0 <= j < |w| && !(lower <= j <= upper + 1) ==> w[j] == values[j])
    && SamePairs(values, w, lower, upper)
  }

  lemma FramedSwap(values: seq<real>, w: seq<real>, lower: int, upper: int, a: int, b: int)
    requires 0 <= lower <= upper && upper + 1 < |values| && (upper - lower) % 2 == 0
    requires Framed(values, w, lower, upper)
    requires XSlot(lower, a) && XSlot(lower, b) && lower < a && a + 2 <= b <= upper
    ensures Framed(values, SwapPairs(w, a, b), lower, upper)
  {
    SwapKeepsPairs(w, lower, upper, a, b);
  }

  /** The final exchange puts the pivot pair at `up`, between the two sides. */
  lemma PivotPlaced(values: seq<real>, w: seq<real>, lower: int, upper: int, up: int)
    requires 0 <= lower <= upper && upper + 1 < |values| && (upper - lower) % 2 == 0
    requires Framed(values, w, lower, upper)
    requires lower <= up <= upper && XSlot(lower, up) && Apart(lower, up) && w[up] <= values[lower]
    requires forall j :: lower <= j < up && XSlot(lower, j) ==> w[j] <= values[lower]
    requires forall j :: up < j <= upper && XSlot(lower, j) ==> w[j] > values[lower]
    ensures |SwapPairs(w, lower, up)| == |values|
    ensures SwapPairs(w, lower, up)[up] == values[lower] && SwapPairs(w, lower, up)[up + 1] == values[lower + 1]
    ensures forall j :: lower <= j < up && XSlot(lower, j) ==> SwapPairs(w, lower, up)[j] <= values[lower]
    ensures forall j :: up < j <= upper && XSlot(lower, j) ==> SwapPairs(w, lower, up)[j] > values[lower]
    ensures forall j :: 0 <= j < |w| && !(lower <= j <= upper + 1) ==> SwapPairs(w, lower, up)[j] == values[j]
    ensures SamePairs(values, SwapPairs(w, lower, up), lower, upper)
  {
    SwapKeepsPairs(w, lower, upper, lower, up);
    var r := SwapPairs(w, lower, up);
    forall j | lower <= j < up && XSlot(lower, j)
      ensures r[j] <= values[lower]
    {
      if j == lower {
        assert r[j] == w[up];
      } else {
        assert r[j] == w[j];
      }
    }
  }

  /** `quicksortPartition`: the partition of `[lower, upper]` around the x at `lower`.
      `down` climbs over x values at most the pivot, `up` descends over x
      values above it, and out-of-place pairs are exchanged; finally the
      pivot pair is exchanged into slot `up`, which is returned. */
  method Partition(values: seq<real>, lower: int, upper: int) returns (w: seq<real>, up: int)
    requires 0 <= lower <= upper && upper + 1 < |values| && (upper - lower) % 2 == 0
    ensures |w| == |values|
    ensures lower <= up <= upper && XSlot(lower, up)
    ensures w[up] == values[lower] && w[up + 1] == values[lower + 1]
    ensures forall j :: lower <= j < up && XSlot(lower, j) ==> w[j] <= w[up]
    ensures forall j :: up < j <= upper && XSlot(lower, j) ==> w[j] > w[up]
    ensures forall j :: 0 <= j < |w| && !(lower <= j <= upper + 1) ==> w[j] == values[j]
    ensures SamePairs(values, w, lower, upper)
  {
    var value := values[lower];
    w := values;
    up := upper;
    var down := lower;
    while down < up
      invariant lower <= down <= upper && lower <= up <= upper
      invariant XSlot(lower, down) && XSlot(lower, up)
      invariant Framed(values, w, lower, upper)
      invariant forall j :: lower <= j < down && XSlot(lower, j) ==> w[j] <= value
      invariant forall j :: up < j <= upper && XSlot(lower, j) ==> w[j] > value
      invariant down < up ==> w[down] <= value
      invariant up <= down ==> w[up] <= value
      decreases up - down
    {
      down := Climb(w, lower, down, up, value);
      up := Descend(w, lower, up, upper, value);
      if down < up {
        SlotBelow(lower, up, down);
        FramedSwap(values, w, lower, upper, down, up);
        SwapSides(w, lower, upper, down, up, value);
        w := SwapPairs(w, down, up);
      }
    }
    SlotsApart(lower, lower, up);
    PivotPlaced(values, w, lower, upper, up);
    ghost var target := SwapPairs(w, lower, up);
    w := w[lower := w[up]][up := value];
    var temp := w[lower + 1];
    w := w[lower + 1 := w[up + 1]][up + 1 := temp];
    assert w == target;
  }

  /** A slot below another slot of the same range is at least one pair below. */
  lemma SlotBelow(lo: int, a: int, j: int)
    requires XSlot(lo, a) && XSlot(lo, j) && j < a
    ensures j <= a - 2
  {
  }

  /** Slots of a range starting at a slot of an enclosing range are slots of
      the enclosing range, and conversely. */
  lemma SlotShift(outer: int, lo: int, j: int)
    requires XSlot(outer, lo) && lo <= j
    ensures XSlot(outer, j) <==> XSlot(lo, j)
  {
  }

  /** Cutting the pairs of a range at pair `k`. */
  lemma PairSeqSplit(v: seq<real>, lo: int, k: int, n: int)
    requires 0 <= lo && 0 <= k <= n && lo + 2 * n <= |v|
    ensures PairSeq(v, lo, n) == PairSeq(v, lo, k) + PairSeq(v, lo + 2 * k, n - k)
  {
    var l, r := PairSeq(v, lo, n), PairSeq(v, lo, k) + PairSeq(v, lo + 2 * k, n - k);
    forall m | 0 <= m < n
      ensures l[m] == r[m]
    {
      if m >= k {
        assert r[m] == PairSeq(v, lo + 2 * k, n - k)[m - k];
      }
    }
  }

  /** The x value now at a slot of a permuted range was at some slot of
      that range before. */
  lemma ValueOrigin(v: seq<real>, w: seq<real>, lo: int, hi: int, p: int) returns (p': int)
    requires 0 <= lo && lo + 2 * Count(lo, hi) <= |v| && |w| == |v|
    requires SamePairs(v, w, lo, hi)
    requires XSlot(lo, p) && p <= hi
    ensures XSlot(lo, p') && p' <= hi && w[p] == v[p']
  {
    var n := Count(lo, hi);
    var k := (p - lo) / 2;
    assert p == lo + 2 * k;
    var pair := PairSeq(w, lo, n)[k];
    assert pair in multiset(PairSeq(w, lo, n));
    assert pair in PairSeq(v, lo, n);
    var k' :| 0 <= k' < n && PairSeq(v, lo, n)[k'] == pair;
    p' := lo + 2 * k';
  }

  /** Permuting the pairs of a sub-range, and touching nothing else,
      permutes the pairs of the enclosing range. */
  lemma SubPermutes(v: seq<real>, w: seq<real>, outer: int, upper: int, lo: int, hi: int)
    requires 0 <= outer <= lo <= hi <= upper && upper + 1 < |v| && |w| == |v|
    requires (lo - outer) % 2 == 0 && (hi - outer) % 2 == 0 && (upper - outer) % 2 == 0
    requires forall j :: 0 <= j < |v| && !(lo <= j <= hi + 1) ==> w[j] == v[j]
    requires SamePairs(v, w, lo, hi)
    ensures SamePairs(v, w, outer, upper)
  {
    var n, ka, nr := Count(outer, upper), (lo - outer) / 2, Count(lo, hi);
    var kh, ku := (hi - outer) / 2, (upper - outer) / 2;
    assert hi == outer + 2 * kh && upper == outer + 2 * ku;
    assert lo == outer + 2 * ka;
    assert hi + 2 == lo + 2 * nr;
    assert ka + nr <= n;
    var rest := n - ka - nr;
    PairSeqSplit(v, outer, ka, n);
    PairSeqSplit(w, outer, ka, n);
    PairSeqSplit(v, lo, nr, n - ka);
    PairSeqSplit(w, lo, nr, n - ka);
    AgreeingPairs(v, w, outer, ka);
    AgreeingPairs(v, w, hi + 2, rest);
    var a, b, c := PairSeq(v, outer, ka), PairSeq(v, lo, nr), PairSeq(v, hi + 2, rest);
    var b' := PairSeq(w, lo, nr);
    assert PairSeq(v, outer, n) == a + (b + c);
    assert PairSeq(w, outer, n) == a + (b' + c);
    assert multiset(b') == multiset(b);
  }

  /** Pairs read from buffers that agree on them are equal. */
  lemma AgreeingPairs(v: seq<real>, w: seq<real>, lo: int, n: int)
    requires 0 <= lo && 0 <= n && lo + 2 * n <= |v| && |w| == |v|
    requires forall j :: lo <= j < lo + 2 * n ==> w[j] == v[j]
    ensures PairSeq(v, lo, n) == PairSeq(w, lo, n)
  {
  }
}
