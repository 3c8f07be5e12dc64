/** A JavaScript object used as a dictionary of running totals,
    `acc[k] = (acc[k] || 0) + v`, as an association list in insertion order
    (the order `Object.entries` reports for non-numeric keys). */
module Assoc {
  import opened Wrappers
  import opened Seqs

  type Dict<K> = seq<(K, int)>

  predicate HasKey<K(==)>(d: Dict<K>, k: K) {
    exists i :: 0 <= i < |d| && d[i].0 == k
  }

  /** Every key appears once. */
  predicate DistinctKeys<K(==)>(d: Dict<K>) {
    forall i, j :: 0 <= i < j < |d| ==> d[i].0 != d[j].0
  }

  /** `acc[k]`: `None` is `undefined`. */
  function Get<K(==)>(d: Dict<K>, k: K): (r: Option<int>)
    ensures r.Some? <==> HasKey(d, k)
    ensures r.Some? ==> exists i :: 0 <= i < |d| && d[i] == (k, r.value)
  {
    if d == [] then None
    else if d[|d| - 1].0 == k then Some(d[|d| - 1].1)
    else Get(d[..|d| - 1], k)
  }

  /** `acc[k] = (acc[k] || 0) + v`. */
  function Add<K(==)>(d: Dict<K>, k: K, v: int): (r: Dict<K>)
  {
    if d == [] then [(k, v)]
    else if d[|d| - 1].0 == k then d[..|d| - 1] + [(k, d[|d| - 1].1 + v)]
    else Add(d[..|d| - 1], k, v) + [d[|d| - 1]]
  }

  /** The sum of all values (`Object.values(acc).reduce((s, x) => s + x, 0)`). */
  function Total<K>(d: Dict<K>): int {
    if d == [] then 0 else Total(d[..|d| - 1]) + d[|d| - 1].1
  }

  lemma {:induction false} TotalAppend<K>(a: Dict<K>, b: Dict<K>)
    ensures Total(a + b) == Total(a) + Total(b)
  {
    if b != [] {
      assert (a + b)[..|a + b| - 1] == a + b[..|b| - 1];
      TotalAppend(a, b[..|b| - 1]);
    } else {
      assert a + b == a;
    }
  }

  /** Adding `v` under any key adds `v` to the total. */
  lemma {:induction false} AddTotal<K>(d: Dict<K>, k: K, v: int)
    ensures Total(Add(d, k, v)) == Total(d) + v
  {
    if d != [] {
      var init := d[..|d| - 1];
      if d[|d| - 1].0 == k {
        TotalAppend(init, [(k, d[|d| - 1].1 + v)]);
      } else {
        AddTotal(init, k, v);
        TotalAppend(Add(init, k, v), [d[|d| - 1]]);
      }
    }
  }

  /** After the update, key `k` holds its old value (or 0) plus `v` and every
      other key is untouched. */
  lemma {:induction false} AddGet<K>(d: Dict<K>, k: K, v: int, k': K)
    requires DistinctKeys(d)
    ensures Get(Add(d, k, v), k') == if k' == k then Some(Get(d, k).GetOr(0) + v) else Get(d, k')
  {
    if d != [] {
      var init, last := d[..|d| - 1], d[|d| - 1];
      assert DistinctKeys(init);
      if last.0 == k {
        assert !HasKey(init, k);
        var r := Add(d, k, v);
        assert r[..|r| - 1] == init;
      } else {
        AddGet(init, k, v, k');
        var r := Add(d, k, v);
        assert r[..|r| - 1] == Add(init, k, v);
      }
    }
  }

  lemma HasKeyAppend<K>(a: Dict<K>, b: Dict<K>, k: K)
    ensures HasKey(a + b, k) <==> HasKey(a, k) || HasKey(b, k)
  {
    if HasKey(a + b, k) {
      var i :| 0 <= i < |a + b| && (a + b)[i].0 == k;
      if i >= |a| {
        assert b[i - |a|].0 == k;
      }
    }
    if HasKey(a, k) {
      var i :| 0 <= i < |a| && a[i].0 == k;
      assert (a + b)[i].0 == k;
    }
    if HasKey(b, k) {
      var i :| 0 <= i < |b| && b[i].0 == k;
      assert (a + b)[|a| + i].0 == k;
    }
  }

  lemma HasKeySingle<K>(k: K, v: int, k': K)
    ensures HasKey([(k, v)], k') <==> k == k'
  {
    assert [(k, v)][0].0 == k;
  }

  /** The keys after an update are the old keys and `k`. */
  lemma {:induction false} AddKeys<K>(d: Dict<K>, k: K, v: int, k': K)
    ensures HasKey(Add(d, k, v), k') <==> HasKey(d, k') || k' == k
  {
    if d != [] {
      var init, last := d[..|d| - 1], d[|d| - 1];
      assert d == init + [last];
      HasKeyAppend(init, [last], k');
      HasKeySingle(last.0, last.1, k');
      if last.0 == k {
        HasKeyAppend(init, [(k, last.1 + v)], k');
        HasKeySingle(k, last.1 + v, k');
      } else {
        AddKeys(init, k, v, k');
        HasKeyAppend(Add(init, k, v), [last], k');
      }
    } else {
      HasKeySingle(k, v, k');
    }
  }

  /** Updates keep the keys distinct. */
  lemma {:induction false} AddDistinct<K>(d: Dict<K>, k: K, v: int)
    requires DistinctKeys(d)
    ensures DistinctKeys(Add(d, k, v))
  {
    if d != [] {
      var init, last := d[..|d| - 1], d[|d| - 1];
      assert DistinctKeys(init);
      if last.0 != k {
        AddDistinct(init, k, v);
        var a := Add(init, k, v);
        AddKeys(init, k, v, last.0);
        assert !HasKey(init, last.0);
        assert !HasKey(a, last.0);
      }
    }
  }

  /** `s.reduce((acc, x) => { acc[key(x)] = (acc[key(x)] || 0) + val(x); return acc }, {})`. */
  function GroupSum<T, K(==)>(s: seq<T>, key: T -> K, val: T -> int): (d: Dict<K>)
  {
    if s == [] then [] else Add(GroupSum(s[..|s| - 1], key, val), key(s[|s| - 1]), val(s[|s| - 1]))
  }

  /** Grouping one more element adds it to its bucket. */
  lemma GroupSumSnoc<T, K>(s: seq<T>, x: T, key: T -> K, val: T -> int)
    ensures GroupSum(s + [x], key, val) == Add(GroupSum(s, key, val), key(x), val(x))
  {
    assert (s + [x])[..|s|] == s;
  }

  /** The elements whose key is `k`. */
  function KeyIs<T, K(==)>(key: T -> K, k: K): T -> bool {
    x => key(x) == k
  }

  /** The buckets hold distinct keys, their values add up to the total of the
      sequence, and bucket `k` holds exactly the total of the elements whose key
      is `k` (missing when there are none). */
  lemma GroupSumSpec<T, K>(s: seq<T>, key: T -> K, val: T -> int, k: K)
    ensures DistinctKeys(GroupSum(s, key, val))
    ensures Total(GroupSum(s, key, val)) == SumBy(s, val)
    ensures Get(GroupSum(s, key, val), k).GetOr(0) == SumBy(Filter(s, KeyIs(key, k)), val)
    ensures HasKey(GroupSum(s, key, val), k) <==> exists i :: 0 <= i < |s| && key(s[i]) == k
  {
    GroupSumDistinct(s, key, val);
    GroupSumTotal(s, key, val);
    GroupSumGet(s, key, val, k);
    GroupSumKeys(s, key, val, k);
  }

  lemma {:induction false} GroupSumDistinct<T, K>(s: seq<T>, key: T -> K, val: T -> int)
    ensures DistinctKeys(GroupSum(s, key, val))
  {
    if s != [] {
      var init, last := s[..|s| - 1], s[|s| - 1];
      GroupSumDistinct(init, key, val);
      AddDistinct(GroupSum(init, key, val), key(last), val(last));
    }
  }

  lemma {:induction false} GroupSumTotal<T, K>(s: seq<T>, key: T -> K, val: T -> int)
    ensures Total(GroupSum(s, key, val)) == SumBy(s, val)
  {
    if s != [] {
      var init, last := s[..|s| - 1], s[|s| - 1];
      GroupSumTotal(init, key, val);
      GroupSumDistinct(init, key, val);
      AddTotal(GroupSum(init, key, val), key(last), val(last));
    }
  }

  lemma {:induction false} GroupSumGet<T, K>(s: seq<T>, key: T -> K, val: T -> int, k: K)
    ensures Get(GroupSum(s, key, val), k).GetOr(0) == SumBy(Filter(s, KeyIs(key, k)), val)
  {
    if s != [] {
      var init, last := s[..|s| - 1], s[|s| - 1];
      GroupSumGet(init, key, val, k);
      GroupSumDistinct(init, key, val);
      AddGet(GroupSum(init, key, val), key(last), val(last), k);
      var p := KeyIs(key, k);
      if key(last) == k {
        assert Filter(s, p) == Filter(init, p) + [last];
        SumByAppend(Filter(init, p), [last], val);
      } else {
        assert Filter(s, p) == Filter(init, p);
      }
    }
  }

  lemma {:induction false} GroupSumKeys<T, K>(s: seq<T>, key: T -> K, val: T -> int, k: K)
    ensures HasKey(GroupSum(s, key, val), k) <==> exists i :: 0 <= i < |s| && key(s[i]) == k
  {
    if s != [] {
      var init, last := s[..|s| - 1], s[|s| - 1];
      GroupSumKeys(init, key, val, k);
      AddKeys(GroupSum(init, key, val), key(last), val(last), k);
      assert (exists i :: 0 <= i < |s| && key(s[i]) == k)
        <==> (exists i :: 0 <= i < |init| && key(init[i]) == k) || key(last) == k;
    }
  }
}
