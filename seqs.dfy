/** Sequence operations that stand for JavaScript's `Array.prototype.filter`. */
module Seqs {

  /** `s.filter(p)`: the elements of `s` that satisfy `p`, in their order in `s`. */
  function Filter<T>(s: seq<T>, p: T -> bool): (r: seq<T>)
    ensures |r| <= |s|
    ensures forall i :: 0 <= i < |r| ==> r[i] in s && p(r[i])
    ensures forall i :: 0 <= i < |s| && p(s[i]) ==> s[i] in r
  {
    if s == [] then []
    else (if p(s[0]) then [s[0]] else []) + Filter(s[1..], p)
  }

  /** `a` is obtained from `b` by deleting elements: nothing added, order kept. */
  ghost predicate IsSubsequence<T>(a: seq<T>, b: seq<T>)
    decreases |b|
  {
    a == [] ||
    (b != [] && ((a[0] == b[0] && IsSubsequence(a[1..], b[1..])) || IsSubsequence(a, b[1..])))
  }

  /** Filtering only ever deletes elements: no reordering, no additions. */
  lemma {:induction false} FilterIsSubsequence<T>(s: seq<T>, p: T -> bool)
    ensures IsSubsequence(Filter(s, p), s)
  {
    if s != [] {
      FilterIsSubsequence(s[1..], p);
      if p(s[0]) {
        assert Filter(s, p) == [s[0]] + Filter(s[1..], p);
        assert Filter(s, p)[1..] == Filter(s[1..], p);
      } else {
        assert Filter(s, p) == Filter(s[1..], p);
      }
    }
  }

  /** Filtering distributes over concatenation. */
  lemma {:induction false} FilterAppend<T>(a: seq<T>, b: seq<T>, p: T -> bool)
    ensures Filter(a + b, p) == Filter(a, p) + Filter(b, p)
  {
    if a == [] {
      assert a + b == b;
    } else {
      assert (a + b)[1..] == a[1..] + b;
      FilterAppend(a[1..], b, p);
    }
  }

  /** When every element satisfies the predicate, filtering changes nothing. */
  lemma {:induction false} FilterKeepsAll<T>(s: seq<T>, p: T -> bool)
    requires forall i :: 0 <= i < |s| ==> p(s[i])
    ensures Filter(s, p) == s
  {
    if s != [] {
      FilterKeepsAll(s[1..], p);
    }
  }

  /**
   * Two lists of the same length whose elements agree pointwise on the predicate
   * and on a key filter to lists of the same length that agree pointwise on the key.
   */
  lemma {:induction false} FilterPairwise<T, K>(a: seq<T>, b: seq<T>, p: T -> bool, key: T -> K)
    requires |a| == |b|
    requires forall i :: 0 <= i < |a| ==> p(a[i]) == p(b[i]) && key(a[i]) == key(b[i])
    ensures |Filter(a, p)| == |Filter(b, p)|
    ensures forall i :: 0 <= i < |Filter(a, p)| ==> key(Filter(a, p)[i]) == key(Filter(b, p)[i])
    decreases |a|
  {
    if a != [] {
      FilterPairwise(a[1..], b[1..], p, key);
    }
  }

  /** An element the predicate rejects can be dropped without changing the filter. */
  lemma FilterSkip<T>(before: seq<T>, x: T, after: seq<T>, p: T -> bool)
    requires !p(x)
    ensures Filter(before + [x] + after, p) == Filter(before + after, p)
  {
    calc {
      Filter(before + [x] + after, p);
    ==  { FilterAppend(before + [x], after, p); }
      Filter(before + [x], p) + Filter(after, p);
    ==  { FilterAppend(before, [x], p); }
      Filter(before, p) + Filter([x], p) + Filter(after, p);
    ==  { assert Filter([x], p) == []; }
      Filter(before, p) + Filter(after, p);
    ==  { FilterAppend(before, after, p); }
      Filter(before + after, p);
    }
  }

  /** No two elements of `s` have the same `key`. */
  ghost predicate DistinctBy<T, K>(s: seq<T>, key: T -> K) {
    forall i, j :: 0 <= i < j < |s| ==> key(s[i]) != key(s[j])
  }

  /** Two predicates that agree on the elements of `s` filter it alike. */
  lemma {:induction false} FilterAgreeing<T>(s: seq<T>, p: T -> bool, q: T -> bool)
    requires forall i :: 0 <= i < |s| ==> p(s[i]) == q(s[i])
    ensures Filter(s, p) == Filter(s, q)
  {
    if s != [] {
      FilterAgreeing(s[1..], p, q);
    }
  }

  /** If `key` tells the elements of `s` apart, it tells those of `Filter(s, p)` apart. */
  lemma {:induction false} FilterKeepsDistinct<T, K>(s: seq<T>, p: T -> bool, key: T -> K)
    requires DistinctBy(s, key)
    ensures DistinctBy(Filter(s, p), key)
  {
    if s != [] {
      var tail := s[1..];
      assert DistinctBy(tail, key) by {
        forall i, j | 0 <= i < j < |tail| ensures key(tail[i]) != key(tail[j]) {
          assert tail[i] == s[i + 1] && tail[j] == s[j + 1];
        }
      }
      FilterKeepsDistinct(tail, p, key);
      if p(s[0]) {
        var rest := Filter(tail, p);
        forall k | 0 <= k < |rest| ensures key(s[0]) != key(rest[k]) {
          var m :| 0 <= m < |tail| && tail[m] == rest[k];
          assert s[m + 1] == rest[k];
        }
        DistinctCons(s[0], rest, key);
      }
    }
  }

  /** Putting in front an element whose key is new keeps the keys distinct. */
  lemma DistinctCons<T, K>(x: T, r: seq<T>, key: T -> K)
    requires DistinctBy(r, key)
    requires forall k :: 0 <= k < |r| ==> key(x) != key(r[k])
    ensures DistinctBy([x] + r, key)
  {
    var c := [x] + r;
    forall i, j | 0 <= i < j < |c| ensures key(c[i]) != key(c[j]) {
      assert c[j] == r[j - 1];
      if i > 0 {
        assert c[i] == r[i - 1];
      }
    }
  }
}
