/**
 Sequence helpers shared by the scripts: the order-preserving filter that a
 Python loop of `if p(x): out.append(x)` builds, the subsequence relation it
 keeps, and strict sortedness.
 */
module Seqs {

  /** The elements of `xs` that satisfy `p`, in their original order. */
  function Filter<T>(p: T -> bool, xs: seq<T>): (r: seq<T>)
    ensures |r| <= |xs|
  {
    if xs == [] then []
    else Filter(p, xs[..|xs| - 1]) + (if p(xs[|xs| - 1]) then [xs[|xs| - 1]] else [])
  }

  /** `ys` is obtained by deleting elements of `xs`, without reordering. */
  predicate Subsequence<T(==)>(ys: seq<T>, xs: seq<T>)
    decreases |xs|
  {
    ys == [] ||
    (xs != [] &&
     ((ys[|ys| - 1] == xs[|xs| - 1] && Subsequence(ys[..|ys| - 1], xs[..|xs| - 1])) ||
      Subsequence(ys, xs[..|xs| - 1])))
  }

  predicate StrictlyIncreasing(xs: seq<int>)
  {
    forall i, j :: 0 <= i < j < |xs| ==> xs[i] < xs[j]
  }

  /** One more element at the end of the input adds at most that element at the end of the output. */
  lemma FilterSnoc<T>(p: T -> bool, xs: seq<T>, x: T)
    ensures Filter(p, xs + [x]) == Filter(p, xs) + (if p(x) then [x] else [])
  {
    assert (xs + [x])[..|xs|] == xs;
  }

  /** The filter keeps exactly the elements that satisfy the predicate. */
  lemma {:induction false} FilterMembers<T>(p: T -> bool, xs: seq<T>)
    ensures forall x :: x in Filter(p, xs) <==> x in xs && p(x)
  {
    if xs != [] {
      var init := xs[..|xs| - 1];
      FilterMembers(p, init);
      assert xs == init + [xs[|xs| - 1]];
    }
  }

  /** The filter preserves relative order. */
  lemma {:induction false} FilterIsSubsequence<T>(p: T -> bool, xs: seq<T>)
    ensures Subsequence(Filter(p, xs), xs)
  {
    if xs != [] {
      var init := xs[..|xs| - 1];
      FilterIsSubsequence(p, init);
      var r := Filter(p, xs);
      if p(xs[|xs| - 1]) {
        assert r[..|r| - 1] == Filter(p, init);
      } else {
        assert r == Filter(p, init);
        SubsequenceOfLonger(r, init, xs[|xs| - 1]);
        assert init + [xs[|xs| - 1]] == xs;
      }
    }
  }

  lemma SubsequenceOfLonger<T>(ys: seq<T>, xs: seq<T>, x: T)
    requires Subsequence(ys, xs)
    ensures Subsequence(ys, xs + [x])
  {
    assert (xs + [x])[..|xs|] == xs;
  }

  /** Two complementary filters split the input: every element lands in exactly one of them. */
  lemma {:induction false} FilterPartition<T>(p: T -> bool, q: T -> bool, xs: seq<T>)
    requires forall x :: x in xs ==> (p(x) <==> !q(x))
    ensures |Filter(p, xs)| + |Filter(q, xs)| == |xs|
    ensures multiset(Filter(p, xs)) + multiset(Filter(q, xs)) == multiset(xs)
  {
    if xs != [] {
      var init := xs[..|xs| - 1];
      var x := xs[|xs| - 1];
      assert xs == init + [x];
      assert forall y :: y in init ==> y in xs;
      FilterPartition(p, q, init);
    }
  }

  /** A bound on every element of the input bounds every element of the filter. */
  lemma FilterBelow(p: int -> bool, xs: seq<int>, bound: int)
    requires forall y :: y in xs ==> y < bound
    ensures forall y :: y in Filter(p, xs) ==> y < bound
  {
    FilterMembers(p, xs);
  }

  /** A filter of a strictly increasing sequence is strictly increasing. */
  lemma {:induction false} FilterIncreasing(p: int -> bool, xs: seq<int>)
    requires StrictlyIncreasing(xs)
    ensures StrictlyIncreasing(Filter(p, xs))
  {
    if xs != [] {
      var init := xs[..|xs| - 1];
      var x := xs[|xs| - 1];
      FilterIncreasing(p, init);
      FilterMembers(p, init);
      var r := Filter(p, xs);
      if p(x) {
        forall i, j | 0 <= i < j < |r| ensures r[i] < r[j] {
          if j == |r| - 1 {
            assert r[i] in Filter(p, init);
          } else {
            assert r[i] == Filter(p, init)[i] && r[j] == Filter(p, init)[j];
          }
        }
      }
    }
  }
}
