/**
  Order-preserving selection from a sequence, and what it means for one
  sequence to be a subsequence of another.
 */
module Seqs {

  /** The elements of `s` that satisfy `p`, in the order they have in `s`. */
  function Filter<T(!new)>(s: seq<T>, p: T -> bool): (r: seq<T>)
    ensures |r| <= |s|
    ensures forall x :: x in r <==> x in s && p(x)
  {
    if |s| == 0 then []
    else
      var init := s[..|s| - 1];
      assert s == init + [s[|s| - 1]];
      var kept := Filter(init, p);
      if p(s[|s| - 1]) then kept + [s[|s| - 1]] else kept
  }

  /** The positions of `s` that `Filter(s, p)` keeps. */
  function FilterIndices<T(!new)>(s: seq<T>, p: T -> bool): seq<nat>
  {
    if |s| == 0 then []
    else
      var kept := FilterIndices(s[..|s| - 1], p);
      if p(s[|s| - 1]) then kept + [|s| - 1] else kept
  }

  /** `idx` picks out `xs` from `ys` at strictly increasing positions. */
  ghost predicate IsEmbedding<T>(idx: seq<nat>, xs: seq<T>, ys: seq<T>)
  {
    && |idx| == |xs|
    && (forall k :: 0 <= k < |idx| ==> idx[k] < |ys| && ys[idx[k]] == xs[k])
    && (forall k, l :: 0 <= k < l < |idx| ==> idx[k] < idx[l])
  }

  /** `xs` is `ys` with some elements removed and the rest kept in order. */
  ghost predicate IsSubsequence<T>(xs: seq<T>, ys: seq<T>)
  {
    exists idx :: IsEmbedding(idx, xs, ys)
  }

  /** Filtering keeps every element at most once and in input order. */
  lemma {:induction false} FilterIsSubsequence<T(!new)>(s: seq<T>, p: T -> bool)
    ensures IsEmbedding(FilterIndices(s, p), Filter(s, p), s)
    ensures IsSubsequence(Filter(s, p), s)
  {
    if |s| > 0 {
      var n := |s| - 1;
      var init := s[..n];
      FilterIsSubsequence(init, p);
      var idx, kept := FilterIndices(init, p), Filter(init, p);
      assert forall k :: 0 <= k < |idx| ==> idx[k] < n && s[idx[k]] == init[idx[k]];
      if p(s[n]) {
        var idx', kept' := idx + [n], kept + [s[n]];
        assert forall k :: 0 <= k < |idx| ==> idx'[k] == idx[k] && kept'[k] == kept[k];
        assert IsEmbedding(idx', kept', s);
      }
    }
    assert IsEmbedding(FilterIndices(s, p), Filter(s, p), s);
  }

  /** Filtering a sequence extended by one element. */
  lemma FilterSnoc<T(!new)>(s: seq<T>, x: T, p: T -> bool)
    ensures Filter(s + [x], p) == Filter(s, p) + (if p(x) then [x] else [])
  {
    assert (s + [x])[..|s|] == s;
  }

  /** Filtering twice is filtering once by the conjunction of the two tests. */
  lemma {:induction false} FilterTwice<T(!new)>(s: seq<T>, p: T -> bool, q: T -> bool, both: T -> bool)
    requires forall x :: both(x) == (p(x) && q(x))
    ensures Filter(Filter(s, p), q) == Filter(s, both)
  {
    if |s| > 0 {
      var init := s[..|s| - 1];
      FilterTwice(init, p, q, both);
      var once := Filter(init, p);
      if p(s[|s| - 1]) {
        assert (once + [s[|s| - 1]])[..|once|] == once;
      }
    }
  }

  /** A sequence with no elements is empty. */
  lemma NoElementsIsEmpty<T>(s: seq<T>)
    ensures (forall x :: x !in s) ==> s == []
  {
    if |s| > 0 {
      assert s[0] in s;
    }
  }

  /** A sequence without repeats has as many elements as its set of elements. */
  lemma {:induction false} DistinctCardinality<T>(s: seq<T>)
    requires forall i, j :: 0 <= i < j < |s| ==> s[i] != s[j]
    ensures |set x | x in s| == |s|
  {
    if |s| > 0 {
      var init, last := s[..|s|-1], s[|s|-1];
      DistinctCardinality(init);
      assert s == init + [last];
      forall y | y in init ensures y != last {
        var i :| 0 <= i < |init| && init[i] == y;
        assert s[i] == y;
      }
      assert (set x | x in s) == (set x | x in init) + {last};
    }
  }

  /** A sequence without repeats whose elements are all `x` is empty or `[x]`. */
  lemma OnlyElement<T>(s: seq<T>, x: T)
    requires forall y :: y in s ==> y == x
    requires forall i, j :: 0 <= i < j < |s| ==> s[i] != s[j]
    ensures s == [] || s == [x]
  {
    DistinctCardinality(s);
    if |s| > 0 {
      assert s[0] in s;
      assert (set y | y in s) == {x};
      assert s == [x];
    }
  }
}
