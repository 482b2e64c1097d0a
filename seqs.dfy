/**
 * `Array.prototype.filter` and the facts about it the quiz relies on: a filter
 * keeps exactly the elements that pass, in their original order, and on a
 * sequence without repeats its length is the number of distinct elements that pass.
 */
module Seqs {

  /** `r` can be obtained from `s` by deleting elements (order kept). */
  predicate IsSubsequence<T(==)>(r: seq<T>, s: seq<T>)
    decreases |s|
  {
    |r| == 0 ||
    (|s| > 0 &&
     ((r[|r| - 1] == s[|s| - 1] && IsSubsequence(r[..|r| - 1], s[..|s| - 1])) ||
      IsSubsequence(r, s[..|s| - 1])))
  }

  /** No element occurs twice. */
  predicate Distinct<T(==)>(s: seq<T>)
  {
    forall i, j :: 0 <= i < j < |s| ==> s[i] != s[j]
  }

  /** `s.filter(keep)`. */
  function Filter<T(!new)>(s: seq<T>, keep: T -> bool): (r: seq<T>)
    ensures |r| <= |s|
    ensures forall x {:trigger x in r} :: x in r <==> x in s && keep(x)
  {
    if |s| == 0 then []
    else
      var init := s[..|s| - 1];
      var last := s[|s| - 1];
      var front := Filter(init, keep);
      assert forall x :: x in s <==> x in init || x == last;
      if keep(last) then front + [last] else front
  }

  /** The filter keeps the passing elements in their original order. */
  lemma {:induction false} FilterSubsequence<T(!new)>(s: seq<T>, keep: T -> bool)
    ensures IsSubsequence(Filter(s, keep), s)
  {
    if |s| > 0 {
      var init, last := s[..|s| - 1], s[|s| - 1];
      var front := Filter(init, keep);
      FilterSubsequence(init, keep);
      if keep(last) {
        assert (front + [last])[..|front|] == front;
      }
    }
  }

  /** Filtering one more element appends it exactly when it passes. */
  lemma FilterSnoc<T(!new)>(s: seq<T>, x: T, keep: T -> bool)
    ensures Filter(s + [x], keep) == Filter(s, keep) + (if keep(x) then [x] else [])
  {
    assert (s + [x])[..|s|] == s;
  }

  /**
   * The filter keeps every passing element as often as it occurs, and drops
   * every other element.
   */
  lemma {:induction false} FilterMultiplicity<T(!new)>(s: seq<T>, keep: T -> bool)
    ensures forall x :: multiset(Filter(s, keep))[x] == if keep(x) then multiset(s)[x] else 0
  {
    if |s| > 0 {
      var init, last := s[..|s| - 1], s[|s| - 1];
      var front := Filter(init, keep);
      FilterMultiplicity(init, keep);
      FilterSnoc(init, last, keep);
      AppendLast([], s);
      assert multiset(s) == multiset(init) + multiset{last};
      assert multiset(Filter(s, keep)) == multiset(front) + if keep(last) then multiset{last} else multiset{};
    }
  }

  lemma AppendLast<T>(a: seq<T>, b: seq<T>)
    requires |b| > 0
    ensures b == b[..|b| - 1] + [b[|b| - 1]]
    ensures a + b == (a + b[..|b| - 1]) + [b[|b| - 1]]
  {
    assert b == b[..|b| - 1] + [b[|b| - 1]];
  }

  /** Filtering a concatenation filters each part. */
  lemma {:induction false} FilterAppend<T(!new)>(a: seq<T>, b: seq<T>, keep: T -> bool)
    ensures Filter(a + b, keep) == Filter(a, keep) + Filter(b, keep)
    decreases |b|
  {
    if |b| > 0 {
      var init, last := b[..|b| - 1], b[|b| - 1];
      FilterAppend(a, init, keep);
      FilterSnoc(a + init, last, keep);
      FilterSnoc(init, last, keep);
      AppendLast(a, b);
    } else {
      assert a + b == a;
    }
  }

  /** A filter that every element passes keeps the whole sequence. */
  lemma {:induction false} FilterAll<T(!new)>(s: seq<T>, keep: T -> bool)
    requires forall i :: 0 <= i < |s| ==> keep(s[i])
    ensures Filter(s, keep) == s
  {
    if |s| > 0 {
      FilterAll(s[..|s| - 1], keep);
      assert s == s[..|s| - 1] + [s[|s| - 1]];
    }
  }

  /** A filter that no element passes is empty. */
  lemma {:induction false} FilterNone<T(!new)>(s: seq<T>, keep: T -> bool)
    requires forall x :: x in s ==> !keep(x)
    ensures Filter(s, keep) == []
  {
    if |s| > 0 {
      FilterNone(s[..|s| - 1], keep);
    }
  }

  /** Filtering a sequence without repeats gives a sequence without repeats. */
  lemma {:induction false} FilterDistinct<T(!new)>(s: seq<T>, keep: T -> bool)
    requires Distinct(s)
    ensures Distinct(Filter(s, keep))
  {
    if |s| > 0 {
      var init := s[..|s| - 1];
      assert Distinct(init);
      FilterDistinct(init, keep);
      assert s[|s| - 1] !in init;
      assert s[|s| - 1] !in Filter(init, keep);
    }
  }

  /** A sequence without repeats has as many elements as the set of its elements. */
  lemma {:induction false} DistinctCardinality<T>(s: seq<T>)
    requires Distinct(s)
    ensures |set x | x in s| == |s|
  {
    if |s| > 0 {
      var init := s[..|s| - 1];
      assert Distinct(init);
      DistinctCardinality(init);
      assert (set x | x in s) == (set x | x in init) + {s[|s| - 1]};
    }
  }

  /** The distinct elements of `s` that pass `keep`. */
  function Passing<T(!new)>(s: seq<T>, keep: T -> bool): set<T>
  {
    set x | x in s && keep(x)
  }

  /**
   * On a sequence without repeats, the length of the filter is the number of
   * distinct elements that pass it.
   */
  lemma FilterCount<T(!new)>(s: seq<T>, keep: T -> bool)
    requires Distinct(s)
    ensures |Filter(s, keep)| == |Passing(s, keep)|
  {
    var r := Filter(s, keep);
    FilterDistinct(s, keep);
    DistinctCardinality(r);
    assert (set x | x in r) == Passing(s, keep);
  }

  /**
   * When every element passes `whole` exactly when it passes one of `a` and `b`
   * and none passes both, the two filters share out the elements that pass `whole`.
   */
  lemma {:induction false} FilterPartition<T(!new)>(s: seq<T>, whole: T -> bool, a: T -> bool, b: T -> bool)
    requires forall x :: x in s ==> (whole(x) <==> a(x) || b(x)) && !(a(x) && b(x))
    ensures |Filter(s, a)| + |Filter(s, b)| == |Filter(s, whole)|
  {
    if |s| > 0 {
      var init := s[..|s| - 1];
      assert forall x :: x in init ==> x in s;
      FilterPartition(init, whole, a, b);
      assert s[|s| - 1] in s;
    }
  }

  /** A subsequence stays one when an element is appended to the longer sequence, or to both. */
  lemma SubsequenceExtend<T>(r: seq<T>, s: seq<T>, x: T)
    requires IsSubsequence(r, s)
    ensures IsSubsequence(r, s + [x])
    ensures IsSubsequence(r + [x], s + [x])
  {
    assert (s + [x])[..|s|] == s;
    assert (r + [x])[..|r|] == r;
  }

  /** A subsequence of a subsequence of `c` is a subsequence of `c`. */
  lemma {:induction false} SubsequenceTransitive<T>(a: seq<T>, b: seq<T>, c: seq<T>)
    requires IsSubsequence(a, b) && IsSubsequence(b, c)
    ensures IsSubsequence(a, c)
    decreases |c|
  {
    if |a| > 0 {
      var cInit := c[..|c| - 1];
      if IsSubsequence(b, cInit) {
        SubsequenceTransitive(a, b, cInit);
      } else {
        var bInit := b[..|b| - 1];
        if IsSubsequence(a, bInit) {
          SubsequenceTransitive(a, bInit, cInit);
        } else {
          SubsequenceTransitive(a[..|a| - 1], bInit, cInit);
        }
      }
    }
  }
}
