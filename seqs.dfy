/** Sequence operations that mirror JavaScript's `Array.prototype` methods:
    `filter`, `reduce` (a left fold), `some`, `find`, an index-based `filter`
    and the stable `sort` with a comparator. Every fold is defined on the last
    element so that it unfolds exactly as a left-to-right loop does. */
module Seqs {
  import opened Wrappers

  /** `s.filter(p)`. */
  function Filter<T>(s: seq<T>, p: T -> bool): (r: seq<T>)
    ensures |r| <= |s|
    ensures forall i :: 0 <= i < |r| ==> p(r[i])
  {
    if s == [] then []
    else Filter(s[..|s| - 1], p) + (if p(s[|s| - 1]) then [s[|s| - 1]] else [])
  }

  /** An element is kept exactly when it occurs in `s` and satisfies `p`. */
  lemma {:induction false} FilterMembership<T>(s: seq<T>, p: T -> bool, x: T)
    ensures x in Filter(s, p) <==> x in s && p(x)
  {
    if s != [] {
      FilterMembership(s[..|s| - 1], p, x);
      assert s == s[..|s| - 1] + [s[|s| - 1]];
    }
  }

  lemma {:induction false} FilterAppend<T>(a: seq<T>, b: seq<T>, p: T -> bool)
    ensures Filter(a + b, p) == Filter(a, p) + Filter(b, p)
  {
    if b != [] {
      assert (a + b)[..|a + b| - 1] == a + b[..|b| - 1];
      FilterAppend(a, b[..|b| - 1], p);
    } else {
      assert a + b == a;
    }
  }

  /** The filter keeps an element of `s` exactly when `p` holds of it. */
  lemma {:induction false} FilterAll<T>(s: seq<T>, p: T -> bool)
    requires forall i :: 0 <= i < |s| ==> p(s[i])
    ensures Filter(s, p) == s
  {
    if s != [] {
      FilterAll(s[..|s| - 1], p);
      assert s == s[..|s| - 1] + [s[|s| - 1]];
    }
  }

  lemma {:induction false} FilterNone<T>(s: seq<T>, p: T -> bool)
    requires forall i :: 0 <= i < |s| ==> !p(s[i])
    ensures Filter(s, p) == []
  {
    if s != [] {
      FilterNone(s[..|s| - 1], p);
    }
  }

  /** A filter and its complement share out the elements between them. */
  lemma {:induction false} FilterComplement<T>(s: seq<T>, p: T -> bool, q: T -> bool)
    requires forall i :: 0 <= i < |s| ==> q(s[i]) == !p(s[i])
    ensures |Filter(s, p)| + |Filter(s, q)| == |s|
  {
    if s != [] {
      FilterComplement(s[..|s| - 1], p, q);
    }
  }

  /** Two predicates that agree on the elements of `s` filter it alike. */
  lemma {:induction false} FilterCongruent<T>(s: seq<T>, p: T -> bool, q: T -> bool)
    requires forall i :: 0 <= i < |s| ==> p(s[i]) == q(s[i])
    ensures Filter(s, p) == Filter(s, q)
  {
    if s != [] {
      FilterCongruent(s[..|s| - 1], p, q);
    }
  }

  /** `r` is obtained from `s` by deleting elements, keeping the order. */
  predicate IsSubsequence<T(==)>(r: seq<T>, s: seq<T>)
    decreases |s|
  {
    if r == [] then true
    else if s == [] then false
    else if r[|r| - 1] == s[|s| - 1] then IsSubsequence(r[..|r| - 1], s[..|s| - 1])
    else IsSubsequence(r, s[..|s| - 1])
  }

  lemma {:induction false} FilterIsSubsequence<T>(s: seq<T>, p: T -> bool)
    ensures IsSubsequence(Filter(s, p), s)
  {
    if s != [] {
      var init, last := s[..|s| - 1], s[|s| - 1];
      var r := Filter(init, p);
      FilterIsSubsequence(init, p);
      if p(last) {
        assert (r + [last])[..|r|] == r;
      } else {
        assert Filter(s, p) == r;
        SubsequenceOfLonger(r, init, last);
        assert init + [last] == s;
      }
    }
  }

  /** Filtering one more element. */
  lemma FilterSnoc<T>(s: seq<T>, x: T, p: T -> bool)
    ensures Filter(s + [x], p) == Filter(s, p) + (if p(x) then [x] else [])
  {
    assert (s + [x])[..|s|] == s;
  }

  /** Filtering keeps exactly the satisfying elements, in order. */
  lemma FilterSpec<T>(s: seq<T>, p: T -> bool)
    ensures forall x :: x in Filter(s, p) <==> x in s && p(x)
    ensures IsSubsequence(Filter(s, p), s)
  {
    forall x ensures x in Filter(s, p) <==> x in s && p(x) {
      FilterMembership(s, p, x);
    }
    FilterIsSubsequence(s, p);
  }

  /** A subsequence of `s` is a subsequence of `s + [x]`. */
  lemma {:induction false} SubsequenceOfLonger<T>(r: seq<T>, s: seq<T>, x: T)
    requires IsSubsequence(r, s)
    ensures IsSubsequence(r, s + [x])
  {
    var t := s + [x];
    assert t[..|t| - 1] == s;
    if r != [] && r[|r| - 1] == x {
      SubsequenceDropLast(r, s);
    }
  }

  /** Deleting the last element of `r` keeps it a subsequence of `s`. */
  lemma {:induction false} SubsequenceDropLast<T>(r: seq<T>, s: seq<T>)
    requires r != [] && IsSubsequence(r, s)
    ensures IsSubsequence(r[..|r| - 1], s)
    decreases |s|
  {
    var r' := r[..|r| - 1];
    var s' := s[..|s| - 1];
    if r[|r| - 1] == s[|s| - 1] {
      assert IsSubsequence(r', s');
    } else {
      assert IsSubsequence(r, s');
      SubsequenceDropLast(r, s');
    }
    // Now IsSubsequence(r', s') holds in both cases.
    if r' != [] && r'[|r'| - 1] == s[|s| - 1] {
      SubsequenceDropLast(r', s');
    }
  }

  /** Every element of a subsequence occurs in the sequence. */
  lemma {:induction false} SubsequenceMembers<T>(r: seq<T>, s: seq<T>)
    requires IsSubsequence(r, s)
    ensures forall a :: 0 <= a < |r| ==> r[a] in s
    decreases |s|
  {
    if r != [] {
      var s' := s[..|s| - 1];
      if r[|r| - 1] == s[|s| - 1] {
        SubsequenceMembers(r[..|r| - 1], s');
        forall a | 0 <= a < |r| - 1 ensures r[a] in s {
          assert r[a] == r[..|r| - 1][a];
        }
      } else {
        SubsequenceMembers(r, s');
      }
    }
  }

  /** A relation that holds between every earlier and later element of `s`
      holds the same way in any subsequence of `s`. */
  lemma {:induction false} SubsequencePairwise<T>(r: seq<T>, s: seq<T>, rel: (T, T) -> bool)
    requires IsSubsequence(r, s)
    requires forall x, y :: 0 <= x < y < |s| ==> rel(s[x], s[y])
    ensures forall a, b :: 0 <= a < b < |r| ==> rel(r[a], r[b])
    decreases |s|
  {
    if r != [] {
      var r', s' := r[..|r| - 1], s[..|s| - 1];
      if r[|r| - 1] == s[|s| - 1] {
        SubsequencePairwise(r', s', rel);
        SubsequenceMembers(r', s');
        forall a, b | 0 <= a < b < |r| ensures rel(r[a], r[b]) {
          if b == |r| - 1 {
            assert r[a] == r'[a];
            var x :| 0 <= x < |s'| && s'[x] == r[a];
            assert s[x] == r[a];
          } else {
            assert r[a] == r'[a] && r[b] == r'[b];
          }
        }
      } else {
        SubsequencePairwise(r, s', rel);
      }
    }
  }

  /** `s.reduce((sum, x) => sum + f(x), 0)`. */
  function SumBy<T>(s: seq<T>, f: T -> int): int {
    if s == [] then 0 else SumBy(s[..|s| - 1], f) + f(s[|s| - 1])
  }

  lemma {:induction false} SumByAppend<T>(a: seq<T>, b: seq<T>, f: T -> int)
    ensures SumBy(a + b, f) == SumBy(a, f) + SumBy(b, f)
  {
    if b != [] {
      assert (a + b)[..|a + b| - 1] == a + b[..|b| - 1];
      SumByAppend(a, b[..|b| - 1], f);
    } else {
      assert a + b == a;
    }
  }

  /** A sum of non-negative terms is non-negative. */
  lemma {:induction false} SumByNonNegative<T>(s: seq<T>, f: T -> int)
    requires forall i :: 0 <= i < |s| ==> f(s[i]) >= 0
    ensures SumBy(s, f) >= 0
  {
    if s != [] {
      SumByNonNegative(s[..|s| - 1], f);
    }
  }

  /** Filtering away only non-negative terms can only lower a sum. */
  lemma {:induction false} SumByFilterAtMost<T>(s: seq<T>, p: T -> bool, f: T -> int)
    requires forall i :: 0 <= i < |s| ==> f(s[i]) >= 0
    ensures SumBy(Filter(s, p), f) <= SumBy(s, f)
  {
    if s != [] {
      var init, last := s[..|s| - 1], s[|s| - 1];
      assert forall i :: 0 <= i < |init| ==> init[i] == s[i];
      SumByFilterAtMost(init, p, f);
      assert f(last) >= 0;
      if p(last) {
        assert Filter(s, p) == Filter(init, p) + [last];
        SumByAppend(Filter(init, p), [last], f);
      } else {
        assert Filter(s, p) == Filter(init, p);
      }
    }
  }

  /** A sum of a constant term is a multiple of the length. */
  lemma {:induction false} SumByConst<T>(s: seq<T>, f: T -> int, c: int)
    requires forall i :: 0 <= i < |s| ==> f(s[i]) == c
    ensures SumBy(s, f) == c * |s|
  {
    if s != [] {
      SumByConst(s[..|s| - 1], f, c);
    }
  }

  /** Two term functions that agree on `s` give the same sum. */
  lemma {:induction false} SumByCongruent<T>(s: seq<T>, f: T -> int, g: T -> int)
    requires forall i :: 0 <= i < |s| ==> f(s[i]) == g(s[i])
    ensures SumBy(s, f) == SumBy(s, g)
  {
    if s != [] {
      SumByCongruent(s[..|s| - 1], f, g);
    }
  }

  lemma SumBySnoc<T>(s: seq<T>, x: T, f: T -> int)
    ensures SumBy(s + [x], f) == SumBy(s, f) + f(x)
  {
    assert (s + [x])[..|s|] == s;
  }

  lemma SplitAround<T>(b: seq<T>, k: nat)
    requires k < |b|
    ensures b == (b[..k] + [b[k]]) + b[k + 1..]
  {
  }

  /** Removing the element at `k` removes its term from the sum. */
  lemma SumByRemove<T>(b: seq<T>, k: nat, f: T -> int)
    requires k < |b|
    ensures SumBy(b, f) == SumBy(b[..k] + b[k + 1..], f) + f(b[k])
  {
    var left, right := b[..k], b[k + 1..];
    SplitAround(b, k);
    SumByAppend(left + [b[k]], right, f);
    SumBySnoc(left, b[k], f);
    SumByAppend(left, right, f);
  }

  lemma MultisetRemove<T>(a: seq<T>, b: seq<T>, k: nat)
    requires a != [] && k < |b| && b[k] == a[|a| - 1]
    requires multiset(a) == multiset(b)
    ensures multiset(a[..|a| - 1]) == multiset(b[..k] + b[k + 1..])
  {
    var x := b[k];
    assert b == b[..k] + [x] + b[k + 1..];
    assert a == a[..|a| - 1] + [x];
    var A, B := multiset(a[..|a| - 1]), multiset(b[..k] + b[k + 1..]);
    assert A + multiset{x} == B + multiset{x};
    forall y ensures A[y] == B[y] {
      assert (A + multiset{x})[y] == (B + multiset{x})[y];
    }
  }

  /** The sum is invariant under permutation. */
  lemma {:induction false} SumByPermutation<T>(a: seq<T>, b: seq<T>, f: T -> int)
    requires multiset(a) == multiset(b)
    ensures SumBy(a, f) == SumBy(b, f)
    decreases |a|
  {
    if a != [] {
      var x := a[|a| - 1];
      assert x in multiset(b);
      var k :| 0 <= k < |b| && b[k] == x;
      MultisetRemove(a, b, k);
      SumByPermutation(a[..|a| - 1], b[..k] + b[k + 1..], f);
      SumByRemove(b, k, f);
    } else {
      assert |b| == |multiset(b)| == 0;
    }
  }

  /** `s.some(p)`. */
  predicate Exists<T>(s: seq<T>, p: T -> bool) {
    exists i :: 0 <= i < |s| && p(s[i])
  }

  /** `s.find(p)`: the first element satisfying `p`. */
  function Find<T>(s: seq<T>, p: T -> bool): (r: Option<T>)
    ensures r.None? <==> !Exists(s, p)
    ensures r.Some? ==> exists i :: 0 <= i < |s| && s[i] == r.value && p(r.value)
                                    && forall j :: 0 <= j < i ==> !p(s[j])
  {
    if s == [] then None
    else if p(s[0]) then
      assert 0 < |s| && s[0] == s[0] && p(s[0]);
      Some(s[0])
    else
      var r := Find(s[1..], p);
      assert forall j :: 1 <= j < |s| ==> s[j] == s[1..][j - 1];
      r
  }

  /** `s.filter((_, i) => i !== k)`. */
  function DropIndex<T>(s: seq<T>, k: int): (r: seq<T>) {
    if s == [] then []
    else DropIndex(s[..|s| - 1], k) + (if |s| - 1 != k then [s[|s| - 1]] else [])
  }

  /** Index filtering removes exactly the element at `k`, or nothing when `k`
      is not an index of `s`. */
  lemma {:induction false} DropIndexIsRemoval<T>(s: seq<T>, k: int)
    ensures DropIndex(s, k) == if 0 <= k < |s| then s[..k] + s[k + 1..] else s
  {
    if s != [] {
      var init := s[..|s| - 1];
      DropIndexIsRemoval(init, k);
      if 0 <= k < |s| - 1 {
        assert s[..k] + s[k + 1..] == init[..k] + init[k + 1..] + [s[|s| - 1]];
      } else if k == |s| - 1 {
        assert s[..k] == init;
      } else {
        assert s == init + [s[|s| - 1]];
      }
    }
  }

  /** No value occurs twice. */
  predicate NoDuplicates<T(==)>(s: seq<T>) {
    forall i, j :: 0 <= i < j < |s| ==> s[i] != s[j]
  }

  /** Excluding one value `e` from a filter over distinct elements drops at
      most one element. */
  lemma {:induction false} FilterExceptOne<T>(s: seq<T>, p: T -> bool, q: T -> bool, e: T)
    requires NoDuplicates(s)
    requires forall i :: 0 <= i < |s| ==> q(s[i]) == (p(s[i]) && s[i] != e)
    ensures |Filter(s, q)| <= |Filter(s, p)| <= |Filter(s, q)| + 1
  {
    if s != [] {
      var init, last := s[..|s| - 1], s[|s| - 1];
      if last == e {
        forall i | 0 <= i < |init| ensures p(init[i]) == q(init[i]) {
          assert init[i] == s[i];
        }
        FilterCongruent(init, p, q);
      } else {
        FilterExceptOne(init, p, q, e);
      }
    }
  }

  /** `le` is a total preorder: what a consistent sort comparator induces. */
  ghost predicate TotalPreorder<T(!new)>(le: (T, T) -> bool) {
    && (forall a, b :: le(a, b) || le(b, a))
    && (forall a, b, c :: le(a, b) && le(b, c) ==> le(a, c))
  }

  predicate SortedBy<T>(s: seq<T>, le: (T, T) -> bool) {
    forall i, j :: 0 <= i < j < |s| ==> le(s[i], s[j])
  }

  /** Insert `x` after every element of the sorted `r` that precedes or ties
      with it (so earlier elements stay first among equals). */
  function Insert<T>(r: seq<T>, x: T, le: (T, T) -> bool): (out: seq<T>)
    ensures multiset(out) == multiset(r) + multiset{x}
    ensures |out| == |r| + 1
  {
    if r == [] then [x]
    else if le(r[|r| - 1], x) then r + [x]
    else
      var last := r[|r| - 1];
      var rest := Insert(r[..|r| - 1], x, le);
      assert r == r[..|r| - 1] + [last];
      rest + [last]
  }

  lemma {:induction false} InsertSorted<T(!new)>(r: seq<T>, x: T, le: (T, T) -> bool)
    requires TotalPreorder(le)
    requires SortedBy(r, le)
    ensures SortedBy(Insert(r, x, le), le)
  {
    if r == [] {
      assert Insert(r, x, le) == [x];
    } else if le(r[|r| - 1], x) {
      var last := r[|r| - 1];
      forall i | 0 <= i < |r| ensures le(r[i], x) {
        if i < |r| - 1 {
          assert le(r[i], last);
        }
      }
      SortedSnoc(r, x, le);
    } else {
      var init := r[..|r| - 1];
      var last := r[|r| - 1];
      assert SortedBy(init, le);
      InsertSorted(init, x, le);
      var rest := Insert(init, x, le);
      assert le(x, last);
      forall i | 0 <= i < |rest| ensures le(rest[i], last) {
        var y := rest[i];
        assert y in multiset(rest);
        assert y in multiset(init) + multiset{x};
        if y in multiset(init) {
          var k :| 0 <= k < |init| && init[k] == y;
          assert r[k] == y;
        }
      }
      SortedSnoc(rest, last, le);
    }
  }

  /** An element that follows every element of a sorted sequence extends it. */
  lemma SortedSnoc<T>(s: seq<T>, y: T, le: (T, T) -> bool)
    requires SortedBy(s, le)
    requires forall i :: 0 <= i < |s| ==> le(s[i], y)
    ensures SortedBy(s + [y], le)
  {
    forall i, j | 0 <= i < j < |s| + 1 ensures le((s + [y])[i], (s + [y])[j]) {
      assert (s + [y])[i] == s[i];
      if j < |s| {
        assert (s + [y])[j] == s[j];
      }
    }
  }

  /** `s.slice().sort(cmp)` for a comparator whose `cmp(a, b) <= 0` is `le(a, b)`;
      JavaScript's sort is stable, and so is this insertion sort. */
  function SortBy<T>(s: seq<T>, le: (T, T) -> bool): (r: seq<T>)
    ensures multiset(r) == multiset(s)
    ensures |r| == |s|
  {
    if s == [] then []
    else
      assert s == s[..|s| - 1] + [s[|s| - 1]];
      Insert(SortBy(s[..|s| - 1], le), s[|s| - 1], le)
  }

  lemma {:induction false} SortBySorted<T(!new)>(s: seq<T>, le: (T, T) -> bool)
    requires TotalPreorder(le)
    ensures SortedBy(SortBy(s, le), le)
  {
    if s != [] {
      SortBySorted(s[..|s| - 1], le);
      InsertSorted(SortBy(s[..|s| - 1], le), s[|s| - 1], le);
    }
  }
}
