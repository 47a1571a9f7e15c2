/**
 * Stable sorting and Python-style slicing.
 *
 * Python's `sorted` (with or without `reverse=True`) is a stable sort: among
 * elements that compare equal under the key, the input order is kept. The
 * model has one sort, parameterised by a "may come before" relation `leq`,
 * which must be a total preorder; every ordering used by the analytics is a
 * named function handed to `Sort`.
 */
module Sorting {

  ghost predicate Total<T(!new)>(leq: (T, T) -> bool) {
    forall a, b :: leq(a, b) || leq(b, a)
  }

  ghost predicate Transitive<T(!new)>(leq: (T, T) -> bool) {
    forall a, b, c :: leq(a, b) && leq(b, c) ==> leq(a, c)
  }

  ghost predicate TotalPreorder<T(!new)>(leq: (T, T) -> bool) {
    Total(leq) && Transitive(leq)
  }

  /** Every element may come before every later one. */
  ghost predicate Sorted<T>(s: seq<T>, leq: (T, T) -> bool) {
    forall i, j :: 0 <= i < j < |s| ==> leq(s[i], s[j])
  }

  /** `f` takes distinct values on distinct positions of `s`. */
  ghost predicate DistinctBy<T, U>(s: seq<T>, f: T -> U) {
    forall i, j :: 0 <= i < j < |s| ==> f(s[i]) != f(s[j])
  }

  /** Inserts `x` in front of the first element it may come before; used on an
      element that precedes all of `s` in the input, this keeps ties stable. */
  function Insert<T>(x: T, s: seq<T>, leq: (T, T) -> bool): (r: seq<T>)
    ensures multiset(r) == multiset(s) + multiset{x}
    ensures |r| == |s| + 1
  {
    if s == [] || leq(x, s[0]) then [x] + s
    else
      assert s == [s[0]] + s[1..];
      [s[0]] + Insert(x, s[1..], leq)
  }

  /** Stable insertion sort; the result is a permutation of the input. */
  function Sort<T>(s: seq<T>, leq: (T, T) -> bool): (r: seq<T>)
    ensures multiset(r) == multiset(s)
    ensures |r| == |s|
  {
    if s == [] then []
    else
      assert s == [s[0]] + s[1..];
      Insert(s[0], Sort(s[1..], leq), leq)
  }

  lemma {:induction false} InsertSorted<T(!new)>(x: T, s: seq<T>, leq: (T, T) -> bool)
    requires TotalPreorder(leq)
    requires Sorted(s, leq)
    ensures Sorted(Insert(x, s, leq), leq)
  {
    if s == [] || leq(x, s[0]) {
      forall k | 0 <= k < |s| ensures leq(x, s[k]) {
        if k > 0 {
          assert leq(s[0], s[k]);
        }
      }
      ConsSorted(x, s, leq);
    } else {
      InsertSorted(x, s[1..], leq);
      var t := Insert(x, s[1..], leq);
      assert leq(s[0], x);
      forall k | 0 <= k < |s[1..]| ensures leq(s[0], s[1..][k]) {
        assert s[1..][k] == s[k + 1];
      }
      BelowAll(s[0], s[1..], x, t, leq);
      ConsSorted(s[0], t, leq);
    }
  }

  /** A sorted sequence stays sorted behind an element that may come before
      all of it. */
  lemma ConsSorted<T>(y: T, t: seq<T>, leq: (T, T) -> bool)
    requires Sorted(t, leq)
    requires forall k :: 0 <= k < |t| ==> leq(y, t[k])
    ensures Sorted([y] + t, leq)
  {
    var r := [y] + t;
    forall i, j | 0 <= i < j < |r| ensures leq(r[i], r[j]) {
      if i > 0 {
        assert r[i] == t[i - 1] && r[j] == t[j - 1];
      } else {
        assert r[j] == t[j - 1];
      }
    }
  }

  /** What may come before `x` and all of `s` may come before all of a
      sequence holding exactly `x` and `s`. */
  lemma BelowAll<T>(y: T, s: seq<T>, x: T, t: seq<T>, leq: (T, T) -> bool)
    requires multiset(t) == multiset(s) + multiset{x}
    requires leq(y, x)
    requires forall k :: 0 <= k < |s| ==> leq(y, s[k])
    ensures forall k :: 0 <= k < |t| ==> leq(y, t[k])
  {
    forall k | 0 <= k < |t| ensures leq(y, t[k]) {
      assert t[k] in multiset(t);
      if t[k] != x {
        assert t[k] in multiset(s);
        var m :| 0 <= m < |s| && s[m] == t[k];
      }
    }
  }

  /** The sort puts its output in the order `leq` demands. */
  lemma {:induction false} SortSorted<T(!new)>(s: seq<T>, leq: (T, T) -> bool)
    requires TotalPreorder(leq)
    ensures Sorted(Sort(s, leq), leq)
  {
    if s != [] {
      SortSorted(s[1..], leq);
      InsertSorted(s[0], Sort(s[1..], leq), leq);
    }
  }

  lemma {:induction false} InsertDistinctBy<T, U>(x: T, s: seq<T>, leq: (T, T) -> bool, f: T -> U)
    requires DistinctBy(s, f)
    requires forall k :: 0 <= k < |s| ==> f(s[k]) != f(x)
    ensures DistinctBy(Insert(x, s, leq), f)
  {
    if s == [] || leq(x, s[0]) {
      var r := [x] + s;
      forall i, j | 0 <= i < j < |r| ensures f(r[i]) != f(r[j]) {
        if i > 0 {
          assert r[i] == s[i - 1];
        }
        assert r[j] == s[j - 1];
      }
    } else {
      InsertDistinctBy(x, s[1..], leq, f);
      var t := Insert(x, s[1..], leq);
      var r := [s[0]] + t;
      forall k | 0 <= k < |t| ensures f(s[0]) != f(t[k]) {
        assert t[k] in multiset(t);
        if t[k] != x {
          assert t[k] in multiset(s[1..]);
          var m :| 0 <= m < |s[1..]| && s[1..][m] == t[k];
          assert s[m + 1] == t[k];
        }
      }
      forall i, j | 0 <= i < j < |r| ensures f(r[i]) != f(r[j]) {
        if i > 0 {
          assert r[i] == t[i - 1];
        }
        assert r[j] == t[j - 1];
      }
    }
  }

  /** Sorting never merges two elements: what was distinct stays distinct. */
  lemma {:induction false} SortDistinctBy<T, U>(s: seq<T>, leq: (T, T) -> bool, f: T -> U)
    requires DistinctBy(s, f)
    ensures DistinctBy(Sort(s, leq), f)
  {
    if s != [] {
      assert DistinctBy(s[1..], f) by {
        forall i, j | 0 <= i < j < |s[1..]| ensures f(s[1..][i]) != f(s[1..][j]) {
          assert s[1..][i] == s[i + 1] && s[1..][j] == s[j + 1];
        }
      }
      SortDistinctBy(s[1..], leq, f);
      var t := Sort(s[1..], leq);
      forall k | 0 <= k < |t| ensures f(t[k]) != f(s[0]) {
        assert t[k] in multiset(t);
        var m :| 0 <= m < |s[1..]| && s[1..][m] == t[k];
        assert s[m + 1] == t[k];
      }
      InsertDistinctBy(s[0], t, leq, f);
    }
  }

  ghost predicate Antisymmetric<T(!new)>(leq: (T, T) -> bool) {
    forall a, b :: leq(a, b) && leq(b, a) ==> a == b
  }

  function Itself<T>(x: T): T { x }

  /** No element occurs twice. */
  ghost predicate Distinct<T>(s: seq<T>) {
    DistinctBy(s, Itself)
  }

  lemma HeadIn<T>(s: seq<T>)
    requires s != []
    ensures s[0] in s
  {
  }

  /** Under an antisymmetric order, a duplicate-free sorted sequence is fixed
      by its elements: two of them with the same elements are equal. */
  lemma {:induction false} SortedSetUnique<T(!new)>(a: seq<T>, b: seq<T>, leq: (T, T) -> bool)
    requires Antisymmetric(leq)
    requires Sorted(a, leq) && Sorted(b, leq) && Distinct(a) && Distinct(b)
    requires forall x :: x in a <==> x in b
    ensures a == b
    decreases |a|
  {
    if a != [] && b != [] {
      assert b[0] in a && a[0] in b;
      var m :| 0 <= m < |a| && a[m] == b[0];
      var k :| 0 <= k < |b| && b[k] == a[0];
      assert leq(a[0], a[m]) || m == 0;
      assert leq(b[0], b[k]) || k == 0;
      assert a[0] == b[0];
      forall x ensures x in a[1..] <==> x in b[1..] {
        if x in a[1..] {
          var i :| 0 <= i < |a[1..]| && a[1..][i] == x;
          assert a[i + 1] != a[0];
          assert x in b;
          var j :| 0 <= j < |b| && b[j] == x;
          assert j != 0;
          assert b[1..][j - 1] == x;
        }
        if x in b[1..] {
          var i :| 0 <= i < |b[1..]| && b[1..][i] == x;
          assert b[i + 1] != b[0];
          assert x in a;
          var j :| 0 <= j < |a| && a[j] == x;
          assert j != 0;
          assert a[1..][j - 1] == x;
        }
      }
      assert Sorted(a[1..], leq) && Distinct(a[1..]) by {
        forall i, j | 0 <= i < j < |a[1..]| ensures leq(a[1..][i], a[1..][j]) && Itself(a[1..][i]) != Itself(a[1..][j]) {
          assert a[1..][i] == a[i + 1] && a[1..][j] == a[j + 1];
        }
      }
      assert Sorted(b[1..], leq) && Distinct(b[1..]) by {
        forall i, j | 0 <= i < j < |b[1..]| ensures leq(b[1..][i], b[1..][j]) && Itself(b[1..][i]) != Itself(b[1..][j]) {
          assert b[1..][i] == b[i + 1] && b[1..][j] == b[j + 1];
        }
      }
      SortedSetUnique(a[1..], b[1..], leq);
      assert a == [a[0]] + a[1..] && b == [b[0]] + b[1..];
    } else if a != [] {
      HeadIn(a);
      assert false;
    } else if b != [] {
      HeadIn(b);
      assert false;
    }
  }

  /** Python's `s[:n]`: a negative `n` drops `-n` elements from the end. */
  function Prefix<T>(s: seq<T>, n: int): (r: seq<T>)
    ensures n >= 0 ==> |r| == if n < |s| then n else |s|
    ensures n < 0 ==> |r| == if |s| + n > 0 then |s| + n else 0
    ensures r <= s
  {
    if n >= 0 then (if n < |s| then s[..n] else s)
    else if |s| + n > 0 then s[..|s| + n]
    else []
  }

  /** A prefix of a sorted sequence is sorted, and every element it keeps may
      come before every element it drops: the prefix is a top-n selection. */
  lemma PrefixIsTop<T>(s: seq<T>, n: int, leq: (T, T) -> bool)
    requires Sorted(s, leq)
    ensures Sorted(Prefix(s, n), leq)
    ensures forall i, j :: 0 <= i < |Prefix(s, n)| <= j < |s| ==> leq(Prefix(s, n)[i], s[j])
  {
  }

  lemma PrefixDistinctBy<T, U>(s: seq<T>, n: int, f: T -> U)
    requires DistinctBy(s, f)
    ensures DistinctBy(Prefix(s, n), f)
  {
    var p := Prefix(s, n);
    assert forall i :: 0 <= i < |p| ==> p[i] == s[i];
  }

  /** The first `n` of a sorted copy of `s` are elements of `s`, in order, and
      each of them may come before every element left out. */
  lemma TopOfSort<T(!new)>(s: seq<T>, n: int, leq: (T, T) -> bool)
    requires TotalPreorder(leq)
    ensures var r := Prefix(Sort(s, leq), n);
      Sorted(r, leq) && multiset(r) <= multiset(s)
      && (forall x :: x in r ==> x in s)
      && (forall x, y :: x in r && y in s && y !in r ==> leq(x, y))
  {
    var t := Sort(s, leq);
    var r := Prefix(t, n);
    SortSorted(s, leq);
    PrefixIsTop(t, n, leq);
    assert t == r + t[|r|..];
    assert multiset(t) == multiset(r) + multiset(t[|r|..]);
    forall x | x in r ensures x in s {
      assert x in multiset(r);
      assert x in multiset(t);
      assert x in multiset(s);
    }
    forall x, y | x in r && y in s && y !in r ensures leq(x, y) {
      assert y in multiset(t);
      var j :| 0 <= j < |t| && t[j] == y;
      var i :| 0 <= i < |r| && r[i] == x;
    }
  }
}
