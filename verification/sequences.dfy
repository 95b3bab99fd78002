/**
 * Order-preserving selection over sequences: the `Where` of LINQ, shared by
 * the query pipeline, the repository and the collection helpers.
 */
module Sequences {

  /** The elements of `s` satisfying `p`, in their order in `s`. */
  function Filter<T(==)>(s: seq<T>, p: T -> bool): (r: seq<T>)
    ensures |r| <= |s|
    ensures forall x :: x in r ==> x in s && p(x)
    ensures forall x :: x in s && p(x) ==> x in r
    decreases |s|
  {
    if s == [] then []
    else
      var init, last := s[..|s| - 1], s[|s| - 1];
      assert s == init + [last];
      Filter(init, p) + (if p(last) then [last] else [])
  }

  /** The elements `s[i]` for which `p(s[i], i)` holds, in order (`Where` with an index). */
  function FilterIndexed<T(==)>(s: seq<T>, p: (T, nat) -> bool): (r: seq<T>)
    ensures |r| <= |s|
    ensures forall x :: x in r ==> exists i :: 0 <= i < |s| && s[i] == x && p(x, i)
    ensures forall i :: 0 <= i < |s| && p(s[i], i) ==> s[i] in r
    decreases |s|
  {
    if s == [] then []
    else
      var init, last := s[..|s| - 1], s[|s| - 1];
      var r := FilterIndexed(init, p) + (if p(last, |s| - 1) then [last] else []);
      assert forall i :: 0 <= i < |s| - 1 ==> init[i] == s[i];
      r
  }

  /** The complement of a predicate. */
  function Not<T>(p: T -> bool): T -> bool {
    x => !p(x)
  }

  /** No element occurs twice. */
  predicate NoDuplicates<T(==)>(s: seq<T>) {
    forall i, j :: 0 <= i < j < |s| ==> s[i] != s[j]
  }

  /** Appending one element extends the selection by that element exactly when it qualifies. */
  lemma FilterSnoc<T>(s: seq<T>, x: T, p: T -> bool)
    ensures Filter(s + [x], p) == Filter(s, p) + (if p(x) then [x] else [])
  {
    assert (s + [x])[..|s|] == s;
  }

  /** Predicates that agree on the elements of `s` select the same elements. */
  lemma {:induction false} FilterCongruent<T>(s: seq<T>, p: T -> bool, q: T -> bool)
    requires forall x :: x in s ==> p(x) == q(x)
    ensures Filter(s, p) == Filter(s, q)
    decreases |s|
  {
    if s != [] {
      var init := s[..|s| - 1];
      assert s == init + [s[|s| - 1]];
      FilterCongruent(init, p, q);
      FilterSnoc(init, s[|s| - 1], p);
      FilterSnoc(init, s[|s| - 1], q);
    }
  }

  /** A predicate that every element satisfies selects the whole sequence. */
  lemma {:induction false} FilterAll<T>(s: seq<T>, p: T -> bool)
    requires forall x :: x in s ==> p(x)
    ensures Filter(s, p) == s
    decreases |s|
  {
    if s != [] {
      var init := s[..|s| - 1];
      assert s == init + [s[|s| - 1]];
      FilterAll(init, p);
      FilterSnoc(init, s[|s| - 1], p);
    }
  }

  /** Selecting by `p` and then by `q` is selecting by their conjunction `pq`. */
  lemma {:induction false} FilterTwice<T>(s: seq<T>, p: T -> bool, q: T -> bool, pq: T -> bool)
    requires forall x :: x in s ==> pq(x) == (p(x) && q(x))
    ensures Filter(Filter(s, p), q) == Filter(s, pq)
    decreases |s|
  {
    if s != [] {
      var init, last := s[..|s| - 1], s[|s| - 1];
      assert s == init + [last];
      FilterTwice(init, p, q, pq);
      FilterSnoc(init, last, p);
      FilterSnoc(init, last, pq);
      assert pq(last) == (p(last) && q(last));
      if p(last) {
        FilterSnoc(Filter(init, p), last, q);
        assert Filter(Filter(s, p), q) == Filter(Filter(init, p), q) + (if q(last) then [last] else []);
      } else {
        assert Filter(s, p) == Filter(init, p);
      }
    }
  }

  /** Every element is selected either by `p` or by its complement. */
  lemma {:induction false} FilterPartition<T>(s: seq<T>, p: T -> bool)
    ensures |Filter(s, p)| + |Filter(s, Not(p))| == |s|
    decreases |s|
  {
    if s != [] {
      var init, last := s[..|s| - 1], s[|s| - 1];
      assert s == init + [last];
      FilterPartition(init, p);
      FilterSnoc(init, last, p);
      FilterSnoc(init, last, Not(p));
    }
  }

  /** An index-aware predicate that ignores the index selects what the plain predicate selects. */
  lemma {:induction false} FilterIndexedIgnoringIndex<T>(s: seq<T>, p: (T, nat) -> bool, q: T -> bool)
    requires forall x, i: nat :: p(x, i) == q(x)
    ensures FilterIndexed(s, p) == Filter(s, q)
    decreases |s|
  {
    if s != [] {
      var init, last := s[..|s| - 1], s[|s| - 1];
      assert s == init + [last];
      FilterIndexedIgnoringIndex(init, p, q);
      FilterSnoc(init, last, q);
    }
  }
}
