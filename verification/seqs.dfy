/** Order-preserving selection over sequences. The scan step and the final
    sweep of the triangulator both keep some triangles of a snapshot and drop
    the rest; this module states once what "keep in order" means. */
module Seqs {

  /** The elements of `s` that satisfy `keep`, in their original order. */
  function Filter<T>(s: seq<T>, keep: T -> bool): (r: seq<T>)
    ensures |r| <= |s|
    ensures forall x :: x in r ==> x in s && keep(x)
    ensures forall x :: x in s && keep(x) ==> x in r
  {
    if |s| == 0 then []
    else (if keep(s[0]) then [s[0]] else []) + Filter(s[1..], keep)
  }

  /** The positions `lo..|s|-1` of `s` whose element satisfies `keep`, ascending. */
  function Picks<T>(s: seq<T>, keep: T -> bool, lo: nat): seq<int>
    decreases |s| - lo
  {
    if lo >= |s| then []
    else (if keep(s[lo]) then [lo] else []) + Picks(s, keep, lo + 1)
  }

  /** `r` is exactly the elements of `s` at the positions `ix`, those
      positions ascend, and they are exactly the positions `keep` accepts. */
  ghost predicate Selects<T>(s: seq<T>, keep: T -> bool, r: seq<T>, ix: seq<int>)
  {
    && |ix| == |r|
    && (forall j :: 0 <= j < |ix| ==> 0 <= ix[j] < |s| && r[j] == s[ix[j]])
    && (forall j, j' :: 0 <= j < j' < |ix| ==> ix[j] < ix[j'])
    && (forall k :: 0 <= k < |s| ==> (keep(s[k]) <==> k in ix))
  }

  lemma {:induction false} PicksValues<T>(s: seq<T>, keep: T -> bool, lo: nat)
    requires lo <= |s|
    ensures |Picks(s, keep, lo)| == |Filter(s[lo..], keep)|
    ensures forall j :: 0 <= j < |Picks(s, keep, lo)| ==>
      lo <= Picks(s, keep, lo)[j] < |s| && Filter(s[lo..], keep)[j] == s[Picks(s, keep, lo)[j]]
    decreases |s| - lo
  {
    if lo < |s| {
      assert s[lo..][1..] == s[lo + 1..];
      PicksValues(s, keep, lo + 1);
    }
  }

  lemma {:induction false} PicksAscend<T>(s: seq<T>, keep: T -> bool, lo: nat)
    requires lo <= |s|
    ensures forall j :: 0 <= j < |Picks(s, keep, lo)| ==> lo <= Picks(s, keep, lo)[j]
    ensures forall j, j' :: 0 <= j < j' < |Picks(s, keep, lo)| ==> Picks(s, keep, lo)[j] < Picks(s, keep, lo)[j']
    decreases |s| - lo
  {
    if lo < |s| {
      PicksAscend(s, keep, lo + 1);
      var head: seq<int> := if keep(s[lo]) then [lo] else [];
      var rest := Picks(s, keep, lo + 1);
      var ix := head + rest;
      assert Picks(s, keep, lo) == ix;
      forall j | 0 <= j < |ix|
        ensures lo <= ix[j]
      {
        if j >= |head| { assert ix[j] == rest[j - |head|]; } else { assert ix[j] == lo; }
      }
      forall j, j' | 0 <= j < j' < |ix|
        ensures ix[j] < ix[j']
      {
        assert ix[j'] == rest[j' - |head|];
        assert lo + 1 <= rest[j' - |head|];
        if j >= |head| { assert ix[j] == rest[j - |head|]; } else { assert ix[j] == lo; }
      }
    }
  }

  lemma {:induction false} PicksExact<T>(s: seq<T>, keep: T -> bool, lo: nat)
    requires lo <= |s|
    ensures forall k :: lo <= k < |s| ==> (keep(s[k]) <==> k in Picks(s, keep, lo))
    ensures forall k :: k in Picks(s, keep, lo) ==> lo <= k
    decreases |s| - lo
  {
    if lo < |s| {
      PicksExact(s, keep, lo + 1);
    }
  }

  /** Filtering keeps every accepted element, drops every rejected one, and
      keeps the survivors in their relative order. */
  lemma FilterSelects<T>(s: seq<T>, keep: T -> bool)
    ensures Selects(s, keep, Filter(s, keep), Picks(s, keep, 0))
  {
    assert s[0..] == s;
    PicksValues(s, keep, 0);
    PicksAscend(s, keep, 0);
    PicksExact(s, keep, 0);
  }

  lemma {:induction false} FilterAppend<T>(s: seq<T>, t: seq<T>, keep: T -> bool)
    ensures Filter(s + t, keep) == Filter(s, keep) + Filter(t, keep)
  {
    if |s| == 0 {
      assert s + t == t;
    } else {
      assert (s + t)[1..] == s[1..] + t;
      FilterAppend(s[1..], t, keep);
    }
  }

  /** Java's `List.remove(int)`: drop the element at `i`, shift the rest down. */
  function RemoveAt<T>(s: seq<T>, i: int): (r: seq<T>)
    requires 0 <= i < |s|
    ensures |r| == |s| - 1
    ensures forall k :: 0 <= k < i ==> r[k] == s[k]
    ensures forall k :: i <= k < |r| ==> r[k] == s[k + 1]
  {
    s[..i] + s[i + 1..]
  }

  /** Removing positions i, i-1, i-2 in that order cuts out `s[i-2..i+1]`. */
  lemma RemoveThree<T>(s: seq<T>, i: int)
    requires 2 <= i < |s|
    ensures RemoveAt(RemoveAt(RemoveAt(s, i), i - 1), i - 2) == s[..i - 2] + s[i + 1..]
  {
  }

  /** No element occurs twice. */
  predicate Distinct<T(==)>(s: seq<T>)
  {
    forall j, k :: 0 <= j < k < |s| ==> s[j] != s[k]
  }

  lemma {:induction false} FilterDistinct<T>(s: seq<T>, keep: T -> bool)
    requires Distinct(s)
    ensures Distinct(Filter(s, keep))
  {
    if |s| > 0 {
      FilterDistinct(s[1..], keep);
      var rest := Filter(s[1..], keep);
      assert s[0] !in s[1..];
      if keep(s[0]) {
        var r := [s[0]] + rest;
        forall j, k | 0 <= j < k < |r|
          ensures r[j] != r[k]
        {
          if j == 0 {
            assert r[k] == rest[k - 1] && r[k] in s[1..];
          } else {
            assert r[j] == rest[j - 1] && r[k] == rest[k - 1];
          }
        }
      }
    }
  }

  /** Filters that agree on the elements of `s` select the same. */
  lemma {:induction false} FilterCongruent<T>(s: seq<T>, p: T -> bool, q: T -> bool)
    requires forall x :: x in s ==> (p(x) <==> q(x))
    ensures Filter(s, p) == Filter(s, q)
  {
    if |s| > 0 {
      assert s[0] in s;
      FilterCongruent(s[1..], p, q);
    }
  }

  /** Filtering twice is filtering once by the conjunction. */
  lemma {:induction false} FilterFilter<T>(s: seq<T>, p: T -> bool, q: T -> bool, both: T -> bool)
    requires forall x :: x in s ==> (both(x) <==> p(x) && q(x))
    ensures Filter(Filter(s, p), q) == Filter(s, both)
  {
    if |s| > 0 {
      assert s[0] in s;
      FilterFilter(s[1..], p, q, both);
      var head: seq<T> := if p(s[0]) then [s[0]] else [];
      FilterAppend(head, Filter(s[1..], p), q);
      if p(s[0]) {
        assert head[1..] == [];
      }
    }
  }

  /** A filter that accepts every element changes nothing. */
  lemma {:induction false} FilterAll<T>(s: seq<T>, keep: T -> bool)
    requires forall x :: x in s ==> keep(x)
    ensures Filter(s, keep) == s
  {
    if |s| > 0 {
      assert s[0] in s;
      FilterAll(s[1..], keep);
    }
  }
}
