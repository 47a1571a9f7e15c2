/**
 * The orderings the analytics sort dictionary items by:
 * `sorted(d.items(), key=lambda x: x[1], reverse=True)[:n]` (a top-n by
 * value), `Counter.most_common(n)` and `sorted(d.items())` (ascending keys).
 */
module Ranking {
  import opened Sorting
  import opened Dicts

  /** "May come before" for a descending sort on an integer value. */
  predicate CountGeq<K>(a: (K, int), b: (K, int)) { a.1 >= b.1 }

  /** "May come before" for a descending sort on a real value. */
  predicate ScoreGeq<K>(a: (K, real), b: (K, real)) { a.1 >= b.1 }

  /** "May come before" for an ascending sort on an integer key. */
  predicate IntKeyLeq<V>(a: (int, V), b: (int, V)) { a.0 <= b.0 }

  /** "May come before" for an ascending sort on a real key. */
  predicate RealKeyLeq<V>(a: (real, V), b: (real, V)) { a.0 <= b.0 }

  lemma CountGeqPreorder<K(!new)>()
    ensures TotalPreorder(CountGeq<K>)
  {
  }

  lemma ScoreGeqPreorder<K(!new)>()
    ensures TotalPreorder(ScoreGeq<K>)
  {
  }

  /** The entries of `d` in non-increasing value order, as a descending
      `sorted` on the value leaves them. */
  ghost predicate NonIncreasing<K>(d: Dict<K, int>) {
    forall i, j :: 0 <= i < j < |d| ==> d[i].1 >= d[j].1
  }

  ghost predicate NonIncreasingReal<K>(d: Dict<K, real>) {
    forall i, j :: 0 <= i < j < |d| ==> d[i].1 >= d[j].1
  }

  /** Keys strictly increasing, as `dict(sorted(c.items()))` leaves a counter. */
  ghost predicate AscendingKeys<V>(d: Dict<int, V>) {
    forall i, j :: 0 <= i < j < |d| ==> d[i].0 < d[j].0
  }

  ghost predicate AscendingRealKeys<V>(d: Dict<real, V>) {
    forall i, j :: 0 <= i < j < |d| ==> d[i].0 < d[j].0
  }

  /** `sorted(d.items(), key=lambda x: x[1], reverse=True)`. */
  function ByCountDesc<K>(d: Dict<K, int>): Dict<K, int> {
    Sort(d, CountGeq)
  }

  /** `dict(sorted(d.items(), key=lambda x: x[1], reverse=True)[:n])`. */
  function TopByCount<K>(d: Dict<K, int>, n: int): Dict<K, int> {
    Prefix(ByCountDesc(d), n)
  }

  /** The same over real values. */
  function TopByScore<K>(d: Dict<K, real>, n: int): Dict<K, real> {
    Prefix(Sort(d, ScoreGeq), n)
  }

  /** `Counter.most_common(n)`: nothing for `n <= 0`, otherwise the top `n`. */
  function MostCommon<K>(c: Dict<K, int>, n: int): Dict<K, int> {
    if n <= 0 then [] else TopByCount(c, n)
  }

  /** `dict(sorted(d.items()))` for integer keys. */
  function ByIntKey<V>(d: Dict<int, V>): Dict<int, V> {
    Sort(d, IntKeyLeq)
  }

  /** `dict(sorted(d.items()))` for real keys. */
  function ByRealKey<V>(d: Dict<real, V>): Dict<real, V> {
    Sort(d, RealKeyLeq)
  }

  /** A top-n selection of `d`: at most `n` of its entries (for `n >= 0`), each
      an entry of `d`, in non-increasing order, none smaller than an entry left
      out, keys still distinct. */
  ghost predicate IsTopCount<K>(r: Dict<K, int>, d: Dict<K, int>, n: int) {
    (n >= 0 ==> |r| == if n < |d| then n else |d|)
    && NonIncreasing(r)
    && multiset(r) <= multiset(d)
    && (forall e :: e in r ==> e in d)
    && (forall e, x :: e in r && x in d && x !in r ==> e.1 >= x.1)
    && (DistinctKeys(d) ==> DistinctKeys(r))
  }

  ghost predicate IsTopScore<K>(r: Dict<K, real>, d: Dict<K, real>, n: int) {
    (n >= 0 ==> |r| == if n < |d| then n else |d|)
    && NonIncreasingReal(r)
    && multiset(r) <= multiset(d)
    && (forall e :: e in r ==> e in d)
    && (forall e, x :: e in r && x in d && x !in r ==> e.1 >= x.1)
    && (DistinctKeys(d) ==> DistinctKeys(r))
  }

  lemma DistinctKeysPrefix<K, V>(d: Dict<K, V>, n: int)
    requires DistinctKeys(d)
    ensures DistinctKeys(Prefix(d, n))
  {
    var p := Prefix(d, n);
    assert forall i :: 0 <= i < |p| ==> p[i] == d[i];
  }

  /** A descending sort by value: non-increasing values, the same entries. */
  lemma ByCountDescSpec<K(!new)>(d: Dict<K, int>)
    ensures NonIncreasing(ByCountDesc(d)) && multiset(ByCountDesc(d)) == multiset(d)
    ensures DistinctKeys(d) ==> DistinctKeys(ByCountDesc(d))
    ensures DistinctKeys(d) ==> forall k :: Get(ByCountDesc(d), k) == Get(d, k)
  {
    CountGeqPreorder<K>();
    SortSorted(d, CountGeq);
    if DistinctKeys(d) {
      SortDistinctBy(d, CountGeq, Key);
      forall k ensures Get(ByCountDesc(d), k) == Get(d, k) {
        GetPermutation(ByCountDesc(d), d, k);
      }
    }
  }

  lemma TopByCountIsTop<K(!new)>(d: Dict<K, int>, n: int)
    ensures IsTopCount(TopByCount(d, n), d, n)
  {
    var s := Sort(d, CountGeq);
    CountGeqPreorder<K>();
    TopOfSort(d, n, CountGeq);
    var r := Prefix(s, n);
    assert NonIncreasing(r) by {
      forall i, j | 0 <= i < j < |r| ensures r[i].1 >= r[j].1 {
        assert CountGeq(r[i], r[j]);
      }
    }
    forall e, x | e in r && x in d && x !in r ensures e.1 >= x.1 {
      assert CountGeq(e, x);
    }
    if DistinctKeys(d) {
      SortDistinctBy(d, CountGeq, Key);
      DistinctKeysPrefix(s, n);
    }
  }

  lemma TopByScoreIsTop<K(!new)>(d: Dict<K, real>, n: int)
    ensures IsTopScore(TopByScore(d, n), d, n)
  {
    var s := Sort(d, ScoreGeq);
    ScoreGeqPreorder<K>();
    TopOfSort(d, n, ScoreGeq);
    var r := Prefix(s, n);
    assert NonIncreasingReal(r) by {
      forall i, j | 0 <= i < j < |r| ensures r[i].1 >= r[j].1 {
        assert ScoreGeq(r[i], r[j]);
      }
    }
    forall e, x | e in r && x in d && x !in r ensures e.1 >= x.1 {
      assert ScoreGeq(e, x);
    }
    if DistinctKeys(d) {
      SortDistinctBy(d, ScoreGeq, Key);
      DistinctKeysPrefix(s, n);
    }
  }

  /** Sorting a dictionary with distinct keys by key makes the keys strictly
      increasing, and keeps its entries. */
  lemma ByIntKeyAscending<V(!new)>(d: Dict<int, V>)
    requires DistinctKeys(d)
    ensures AscendingKeys(ByIntKey(d)) && multiset(ByIntKey(d)) == multiset(d)
  {
    assert TotalPreorder(IntKeyLeq<V>);
    SortSorted(d, IntKeyLeq);
    SortDistinctBy(d, IntKeyLeq, Key);
  }

  lemma ByRealKeyAscending<V(!new)>(d: Dict<real, V>)
    requires DistinctKeys(d)
    ensures AscendingRealKeys(ByRealKey(d)) && multiset(ByRealKey(d)) == multiset(d)
  {
    assert TotalPreorder(RealKeyLeq<V>);
    SortSorted(d, RealKeyLeq);
    SortDistinctBy(d, RealKeyLeq, Key);
  }
}
