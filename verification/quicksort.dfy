/** The driver of the pair sort: an explicit stack of pending x-slot ranges
    replaces recursion. `quicksortPairs` keeps the stack as a flat list of
    integers pushed and popped in `(lower, upper)` pairs; here each pair is
    one `Range`. After a range is partitioned around slot `i`, the larger of
    its two halves is pushed first, so the smaller one is popped next. */
module Quicksort {
  import opened PairSort

  /** The x slots `lo, lo + 2, ..., hi` (empty when `hi < lo`). */
  datatype Range = Range(lo: int, hi: int)

  /** A range of the stack for a sort of the slots `L..U`: aligned with `L`,
      inside `L..U`, and at most one pair past empty. */
  predicate RangeOk(r: Range, L: int, U: int)
  {
    L <= r.lo <= r.hi + 2 <= U + 2 && (r.lo - L) % 2 == 0 && (r.hi - L) % 2 == 0
  }

  /** The number of x slots still waiting on the stack. */
  function Pending(rs: seq<Range>): nat
  {
    if |rs| == 0 then 0
    else Pending(rs[..|rs| - 1]) + Count(rs[|rs| - 1].lo, rs[|rs| - 1].hi)
  }

  lemma PendingSnoc(rs: seq<Range>, r: Range)
    ensures Pending(rs + [r]) == Pending(rs) + Count(r.lo, r.hi)
  {
    assert (rs + [r])[..|rs|] == rs;
  }

  /** No two ranges of the stack share a position. */
  ghost predicate Disjoint(rs: seq<Range>)
  {
    forall a, b :: 0 <= a < b < |rs| ==> rs[a].hi < rs[b].lo || rs[b].hi < rs[a].lo
  }

  /** Some pending range holds both `p` and `q`. */
  ghost predicate Together(rs: seq<Range>, p: int, q: int)
  {
    exists r :: r in rs && r.lo <= p && q <= r.hi
  }

  /** The x slots of `L..U` are in order, except between two slots that a
      pending range still holds together. */
  ghost predicate SortedBut(w: seq<real>, L: int, U: int, rs: seq<Range>)
    requires 0 <= L && U < |w|
  {
    forall p, q :: XSlot(L, p) && p < q <= U && XSlot(L, q) ==> w[p] <= w[q] || Together(rs, p, q)
  }

  /** The x slots of `L..U` are in ascending order. */
  ghost predicate Sorted(w: seq<real>, L: int, U: int)
    requires 0 <= L && U < |w|
  {
    forall p, q :: XSlot(L, p) && p < q <= U && XSlot(L, q) ==> w[p] <= w[q]
  }

  /** The loop invariant of the driver. */
  ghost predicate StackInv(values: seq<real>, w: seq<real>, L: int, U: int, rs: seq<Range>)
    requires 0 <= L <= U + 2 && U + 1 < |values| && (U - L) % 2 == 0
  {
    && |w| == |values|
    && (forall k :: 0 <= k < |rs| ==> RangeOk(rs[k], L, U))
    && Disjoint(rs)
    && SortedBut(w, L, U, rs)
    && (forall j :: 0 <= j < |w| && !(L <= j <= U + 1) ==> w[j] == values[j])
    && SamePairs(values, w, L, U)
  }

  /** A range that one of `p`, `q` is in and the other is not cannot be
      the range holding them together, and a range disjoint from it
      cannot be either. */
  lemma NotTogether(stack: seq<Range>, r: Range, p: int, q: int)
    requires Disjoint(stack + [r]) && p < q
    requires (r.lo <= p <= r.hi) != (r.lo <= q <= r.hi)
    ensures !Together(stack + [r], p, q)
  {
    var rs := stack + [r];
    forall s | s in rs
      ensures !(s.lo <= p && q <= s.hi)
    {
      if s != r {
        var a :| 0 <= a < |stack| && stack[a] == s;
        assert rs[a] == s && rs[|stack|] == r;
      }
    }
  }

  /** Popping a range with at most one slot keeps the invariant: such a
      range holds no two slots together. */
  lemma PopTrivial(values: seq<real>, w: seq<real>, L: int, U: int, stack: seq<Range>, r: Range)
    requires 0 <= L <= U + 2 && U + 1 < |values| && (U - L) % 2 == 0
    requires StackInv(values, w, L, U, stack + [r]) && r.hi <= r.lo
    ensures StackInv(values, w, L, U, stack)
    ensures Pending(stack) <= Pending(stack + [r])
  {
    PendingSnoc(stack, r);
    var rs := stack + [r];
    assert SortedBut(w, L, U, rs);
    forall a, b | 0 <= a < b < |stack|
      ensures stack[a].hi < stack[b].lo || stack[b].hi < stack[a].lo
    {
      assert rs[a] == stack[a] && rs[b] == stack[b];
    }
    forall k | 0 <= k < |stack|
      ensures RangeOk(stack[k], L, U)
    {
      assert rs[k] == stack[k];
    }
    forall p, q | XSlot(L, p) && p < q <= U && XSlot(L, q)
      ensures w[p] <= w[q] || Together(stack, p, q)
    {
      if !(w[p] <= w[q]) {
        assert Together(rs, p, q);
        var s :| s in rs && s.lo <= p && q <= s.hi;
        assert s != r;
        assert s in stack;
      }
    }
  }

  /** The ranges pushed after partitioning `r` around slot `i`. */
  function Halves(r: Range, i: int): (Range, Range)
  {
    (Range(r.lo, i - 2), Range(i + 2, r.hi))
  }

  /** The two halves of a range of the stack are ranges of the stack. */
  lemma HalvesOk(L: int, U: int, r: Range, i: int)
    requires RangeOk(r, L, U) && r.lo <= i <= r.hi && XSlot(r.lo, i)
    ensures RangeOk(Halves(r, i).0, L, U) && RangeOk(Halves(r, i).1, L, U)
  {
    SlotShift(L, r.lo, i);
  }

  /** Replacing a range by its two halves keeps the stack disjoint. */
  lemma HalvesDisjoint(stack: seq<Range>, r: Range, i: int, ns: seq<Range>)
    requires Disjoint(stack + [r]) && r.lo <= i <= r.hi
    requires ns == stack + [Halves(r, i).0, Halves(r, i).1] || ns == stack + [Halves(r, i).1, Halves(r, i).0]
    ensures Disjoint(ns)
  {
    var rs := stack + [r];
    forall a, b | 0 <= a < b < |ns|
      ensures ns[a].hi < ns[b].lo || ns[b].hi < ns[a].lo
    {
      if b < |stack| {
        assert rs[a] == ns[a] && rs[b] == ns[b];
      } else if a < |stack| {
        assert rs[a] == ns[a] && rs[|stack|] == r;
      }
    }
  }

  /** Replacing a range by its two halves leaves one slot fewer pending. */
  lemma HalvesPending(stack: seq<Range>, r: Range, i: int, ns: seq<Range>)
    requires r.lo <= i <= r.hi && XSlot(r.lo, i) && XSlot(r.lo, r.hi)
    requires ns == stack + [Halves(r, i).0, Halves(r, i).1] || ns == stack + [Halves(r, i).1, Halves(r, i).0]
    ensures Pending(ns) + 1 == Pending(stack + [r])
  {
    var (x, y) := Halves(r, i);
    CountHalves(r.lo, r.hi, i);
    PendingSnoc(stack, r);
    PendingSnoc(stack, x);
    PendingSnoc(stack, y);
    PendingSnoc(stack + [x], y);
    PendingSnoc(stack + [y], x);
    assert stack + [x] + [y] == stack + [x, y];
    assert stack + [y] + [x] == stack + [y, x];
  }

  /** After a partition of the popped range, the two halves keep the stack
      in bounds and disjoint, and hold fewer slots than the popped range. */
  lemma PushHalves(L: int, U: int, stack: seq<Range>, r: Range, i: int, ns: seq<Range>)
    requires forall k :: 0 <= k < |stack + [r]| ==> RangeOk((stack + [r])[k], L, U)
    requires Disjoint(stack + [r]) && r.lo < r.hi
    requires r.lo <= i <= r.hi && XSlot(r.lo, i)
    requires ns == stack + [Halves(r, i).0, Halves(r, i).1] || ns == stack + [Halves(r, i).1, Halves(r, i).0]
    ensures forall k :: 0 <= k < |ns| ==> RangeOk(ns[k], L, U)
    ensures Disjoint(ns)
    ensures Pending(ns) < Pending(stack + [r])
  {
    var rs := stack + [r];
    assert rs[|stack|] == r;
    HalvesOk(L, U, r, i);
    forall k | 0 <= k < |ns|
      ensures RangeOk(ns[k], L, U)
    {
      if k < |stack| {
        assert rs[k] == ns[k];
      }
    }
    HalvesDisjoint(stack, r, i, ns);
    SlotShift(L, r.lo, r.hi);
    HalvesPending(stack, r, i, ns);
  }

  /** The two halves of a range hold one slot fewer than the range. */
  lemma CountHalves(lo: int, hi: int, i: int)
    requires lo <= i <= hi && XSlot(lo, i) && XSlot(lo, hi)
    ensures Count(lo, i - 2) + Count(i + 2, hi) + 1 == Count(lo, hi)
  {
    var m, n := (i - lo) / 2, (hi - i) / 2;
    assert i == lo + 2 * m && hi == i + 2 * n;
    assert Count(lo, i - 2) == m;
    assert Count(i + 2, hi) == n;
  }

  /** Two slots of the partitioned range are in order across the pivot
      slot `i`; otherwise one half holds them both. */
  lemma PairInside(w': seq<real>, r: Range, i: int, ns: seq<Range>, p: int, q: int)
    requires 0 <= r.lo <= i <= r.hi < |w'| && XSlot(r.lo, i)
    requires forall j :: r.lo <= j < i && XSlot(r.lo, j) ==> w'[j] <= w'[i]
    requires forall j :: i < j <= r.hi && XSlot(r.lo, j) ==> w'[j] > w'[i]
    requires Halves(r, i).0 in ns && Halves(r, i).1 in ns
    requires XSlot(r.lo, p) && XSlot(r.lo, q) && p < q <= r.hi
    ensures w'[p] <= w'[q] || Together(ns, p, q)
  {
    var (x, y) := Halves(r, i);
    if q < i {
      SlotBelow(r.lo, i, q);
      assert x.lo <= p && q <= x.hi;
    } else if i < p {
      SlotBelow(r.lo, p, i);
      assert y.lo <= p && q <= y.hi;
    } else {
      assert w'[p] <= w'[i] <= w'[q];
    }
  }

  /** A slot of the partitioned range and a later slot past it are in
      order: the value now at `p` came from the range, and the range was
      not held together with anything past it. */
  lemma PairLeaving(w: seq<real>, w': seq<real>, L: int, U: int, stack: seq<Range>, r: Range, p: int, q: int)
    requires 0 <= L && U + 1 < |w| && |w'| == |w|
    requires RangeOk(r, L, U) && r.lo <= r.hi
    requires Disjoint(stack + [r]) && SortedBut(w, L, U, stack + [r])
    requires forall j :: 0 <= j < |w| && !(r.lo <= j <= r.hi + 1) ==> w'[j] == w[j]
    requires SamePairs(w, w', r.lo, r.hi)
    requires XSlot(L, p) && XSlot(L, q) && r.lo <= p <= r.hi < q <= U
    ensures w'[p] <= w'[q]
  {
    SlotShift(L, r.lo, p);
    var p' := ValueOrigin(w, w', r.lo, r.hi, p);
    SlotShift(L, r.lo, p');
    SlotBelow(L, q, r.hi);
    NotTogether(stack, r, p', q);
  }

  /** A slot before the partitioned range and a slot of it are in order. */
  lemma PairEntering(w: seq<real>, w': seq<real>, L: int, U: int, stack: seq<Range>, r: Range, p: int, q: int)
    requires 0 <= L && U + 1 < |w| && |w'| == |w|
    requires RangeOk(r, L, U) && r.lo <= r.hi
    requires Disjoint(stack + [r]) && SortedBut(w, L, U, stack + [r])
    requires forall j :: 0 <= j < |w| && !(r.lo <= j <= r.hi + 1) ==> w'[j] == w[j]
    requires SamePairs(w, w', r.lo, r.hi)
    requires XSlot(L, p) && XSlot(L, q) && p < r.lo <= q <= r.hi
    ensures w'[p] <= w'[q]
  {
    SlotShift(L, r.lo, q);
    var q' := ValueOrigin(w, w', r.lo, r.hi, q);
    SlotShift(L, r.lo, q');
    NotTogether(stack, r, p, q');
  }

  /** Two slots outside the partitioned range keep their values, and a
      range other than the popped one still holds them if one did. */
  lemma PairOutside(w: seq<real>, w': seq<real>, L: int, U: int, stack: seq<Range>, r: Range, ns: seq<Range>, p: int, q: int)
    requires 0 <= L && U + 1 < |w| && |w'| == |w|
    requires RangeOk(r, L, U) && r.lo <= r.hi && SortedBut(w, L, U, stack + [r])
    requires forall j :: 0 <= j < |w| && !(r.lo <= j <= r.hi + 1) ==> w'[j] == w[j]
    requires forall s :: s in stack ==> s in ns
    requires XSlot(L, p) && XSlot(L, q) && p < q <= U
    requires !(r.lo <= p <= r.hi) && !(r.lo <= q <= r.hi)
    ensures w'[p] <= w'[q] || Together(ns, p, q)
  {
    if r.hi < p {
      SlotBelow(L, p, r.hi);
    }
    if r.hi < q {
      SlotBelow(L, q, r.hi);
    }
    if !(w[p] <= w[q]) {
      var s :| s in stack + [r] && s.lo <= p && q <= s.hi;
      assert s in stack;
    }
  }

  /** After a partition of the popped range, every pair of slots is in
      order or held together by one of the halves or another pending range. */
  lemma SortedAfter(w: seq<real>, w': seq<real>, L: int, U: int, stack: seq<Range>, r: Range, i: int, ns: seq<Range>)
    requires 0 <= L && U + 1 < |w| && |w'| == |w|
    requires RangeOk(r, L, U) && r.lo < r.hi
    requires Disjoint(stack + [r]) && SortedBut(w, L, U, stack + [r])
    requires r.lo <= i <= r.hi && XSlot(r.lo, i)
    requires forall j :: r.lo <= j < i && XSlot(r.lo, j) ==> w'[j] <= w'[i]
    requires forall j :: i < j <= r.hi && XSlot(r.lo, j) ==> w'[j] > w'[i]
    requires forall j :: 0 <= j < |w| && !(r.lo <= j <= r.hi + 1) ==> w'[j] == w[j]
    requires SamePairs(w, w', r.lo, r.hi)
    requires ns == stack + [Halves(r, i).0, Halves(r, i).1] || ns == stack + [Halves(r, i).1, Halves(r, i).0]
    ensures SortedBut(w', L, U, ns)
  {
    assert Halves(r, i).0 in ns && Halves(r, i).1 in ns;
    assert forall s :: s in stack ==> s in ns;
    forall p, q | XSlot(L, p) && p < q <= U && XSlot(L, q)
      ensures w'[p] <= w'[q] || Together(ns, p, q)
    {
      var pin, qin := r.lo <= p <= r.hi, r.lo <= q <= r.hi;
      if pin && qin {
        SlotShift(L, r.lo, p);
        SlotShift(L, r.lo, q);
        PairInside(w', r, i, ns, p, q);
      } else if pin {
        PairLeaving(w, w', L, U, stack, r, p, q);
      } else if qin {
        PairEntering(w, w', L, U, stack, r, p, q);
      } else {
        PairOutside(w, w', L, U, stack, r, ns, p, q);
      }
    }
  }

  /** Partitioning the popped range and pushing its halves keeps the
      driver's invariant and shrinks the pending work. */
  lemma PartitionKeeps(values: seq<real>, w: seq<real>, w': seq<real>, L: int, U: int, stack: seq<Range>, r: Range, i: int, ns: seq<Range>)
    requires 0 <= L <= U + 2 && U + 1 < |values| && (U - L) % 2 == 0
    requires StackInv(values, w, L, U, stack + [r]) && r.lo < r.hi && RangeOk(r, L, U)
    requires |w'| == |w|
    requires r.lo <= i <= r.hi && XSlot(r.lo, i)
    requires forall j :: r.lo <= j < i && XSlot(r.lo, j) ==> w'[j] <= w'[i]
    requires forall j :: i < j <= r.hi && XSlot(r.lo, j) ==> w'[j] > w'[i]
    requires forall j :: 0 <= j < |w| && !(r.lo <= j <= r.hi + 1) ==> w'[j] == w[j]
    requires SamePairs(w, w', r.lo, r.hi)
    requires ns == stack + [Halves(r, i).0, Halves(r, i).1] || ns == stack + [Halves(r, i).1, Halves(r, i).0]
    ensures StackInv(values, w', L, U, ns)
    ensures Pending(ns) < Pending(stack + [r])
  {
    var rs := stack + [r];
    assert Disjoint(rs) && SortedBut(w, L, U, rs);
    assert forall k :: 0 <= k < |rs| ==> RangeOk(rs[k], L, U);
    PushHalves(L, U, stack, r, i, ns);
    SortedAfter(w, w', L, U, stack, r, i, ns);
    SubPermutes(w, w', L, U, r.lo, r.hi);
    assert SamePairs(values, w', L, U);
    assert forall j :: 0 <= j < |w'| && !(L <= j <= U + 1) ==> w'[j] == values[j];
  }

  /** One partition step of the driver: partition the popped range `r`,
      then push its halves, the larger one first. */
  method SplitRange(values: seq<real>, w: seq<real>, L: int, U: int, stack: seq<Range>, r: Range)
    returns (w': seq<real>, ns: seq<Range>, i: int)
    requires 0 <= L <= U + 2 && U + 1 < |values| && (U - L) % 2 == 0
    requires StackInv(values, w, L, U, stack + [r]) && r.lo < r.hi
    ensures r.lo <= i <= r.hi && XSlot(r.lo, i)
    ensures ns == stack + (if i - r.lo > r.hi - i then [Range(r.lo, i - 2), Range(i + 2, r.hi)]
                           else [Range(i + 2, r.hi), Range(r.lo, i - 2)])
    ensures StackInv(values, w', L, U, ns)
    ensures Pending(ns) < Pending(stack + [r])
  {
    assert (stack + [r])[|stack|] == r;
    assert RangeOk(r, L, U);
    SlotShift(L, r.lo, r.hi);
    w', i := Partition(w, r.lo, r.hi);
    ns := stack;
    if i - r.lo > r.hi - i {
      ns := ns + [Range(r.lo, i - 2)];
    }
    ns := ns + [Range(i + 2, r.hi)];
    if r.hi - i >= i - r.lo {
      ns := ns + [Range(r.lo, i - 2)];
    }
    PartitionKeeps(values, w, w', L, U, stack, r, i, ns);
  }

  /** `quicksortPairs`: sort the pairs whose x slots are
      `lower, lower + 2, ..., upper - 1` by x. The caller passes the offset
      of the last y as `upper`. */
  method QuicksortPairs(values: seq<real>, lower: int, upper: int) returns (w: seq<real>)
    requires 0 <= lower <= upper + 1 <= |values| && (upper + 1 - lower) % 2 == 0
    ensures |w| == |values|
    ensures Sorted(w, lower, upper - 1)
    ensures SamePairs(values, w, lower, upper - 1)
    ensures forall j :: 0 <= j < |w| && !(lower <= j <= upper) ==> w[j] == values[j]
  {
    var L, U := lower, upper - 1;
    w := values;
    var stack := [Range(L, U)];
    forall p, q | XSlot(L, p) && p < q <= U && XSlot(L, q)
      ensures Together(stack, p, q)
    {
      assert stack[0] in stack;
    }
    while |stack| > 0
      invariant StackInv(values, w, L, U, stack)
      decreases Pending(stack), |stack|
    {
      ghost var popped := stack;
      var r := stack[|stack| - 1];
      stack := stack[..|stack| - 1];
      assert popped == stack + [r];
      if r.hi <= r.lo {
        PopTrivial(values, w, L, U, stack, r);
      } else {
        var pivot;
        w, stack, pivot := SplitRange(values, w, L, U, stack, r);
      }
    }
  }
}
