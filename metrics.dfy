/**
 * The rating metrics of the `Ratings` class (`average`, `median`,
 * `variance`) and `round(x, 2)`, on exact reals. Every metric gives 0 for an
 * empty list of scores.
 */
module Metrics {
  import opened Sorting

  /** `sum(values)`: added left to right, starting from 0. */
  function Sum(xs: seq<real>): real {
    if xs == [] then 0.0 else Sum(xs[..|xs| - 1]) + xs[|xs| - 1]
  }

  /** `average(values)`: the sum over the count, 0 for no values. */
  function Average(xs: seq<real>): real {
    if xs == [] then 0.0 else Sum(xs) / |xs| as real
  }

  /** "May come before" for `sorted` on numbers. */
  predicate RealLeq(a: real, b: real) { a <= b }

  /** `median(values)`: the middle of the sorted values, or the mean of the
      two middle ones when their number is even; 0 for no values. */
  function Median(xs: seq<real>): real {
    if xs == [] then 0.0
    else
      var s := Sort(xs, RealLeq);
      var mid := |s| / 2;
      if |s| % 2 != 0 then s[mid] else (s[mid - 1] + s[mid]) / 2.0
  }

  /** `d ** 2`. */
  function Square(d: real): real { d * d }

  /** `sum((x - avg) ** 2 for x in values)`. */
  function SquaredDeviations(xs: seq<real>, avg: real): real {
    if xs == [] then 0.0
    else SquaredDeviations(xs[..|xs| - 1], avg) + Square(xs[|xs| - 1] - avg)
  }

  /** `variance(values)`: the population variance, 0 for no values. */
  function Variance(xs: seq<real>): real {
    if xs == [] then 0.0 else SquaredDeviations(xs, Sum(xs) / |xs| as real) / |xs| as real
  }

  /** `round(x, 2)` on an exact real: the nearest hundredth, a tie going to
      the even hundredth. */
  function Round2(x: real): real {
    var y := x * 100.0;
    var f := y.Floor;
    var d := y - f as real;
    var k := if d > 0.5 then f + 1 else if d < 0.5 then f else if f % 2 == 0 then f else f + 1;
    k as real / 100.0
  }

  // ----- average -----

  lemma {:induction false} SumBounds(xs: seq<real>, lo: real, hi: real)
    requires forall i :: 0 <= i < |xs| ==> lo <= xs[i] <= hi
    ensures |xs| as real * lo <= Sum(xs) <= |xs| as real * hi
  {
    if xs != [] {
      var init := xs[..|xs| - 1];
      SumBounds(init, lo, hi);
      assert |xs| as real * lo == |init| as real * lo + lo;
      assert |xs| as real * hi == |init| as real * hi + hi;
    }
  }

  lemma QuotientBounds(s: real, n: real, lo: real, hi: real)
    requires n > 0.0 && n * lo <= s <= n * hi
    ensures lo <= s / n <= hi
  {
    var q := s / n;
    assert s == q * n;
  }

  /** The average of scores lying in `[lo, hi]` lies in `[lo, hi]`; in
      particular the average of equal scores is that score. */
  lemma AverageBounds(xs: seq<real>, lo: real, hi: real)
    requires xs != []
    requires forall i :: 0 <= i < |xs| ==> lo <= xs[i] <= hi
    ensures lo <= Average(xs) <= hi
  {
    SumBounds(xs, lo, hi);
    QuotientBounds(Sum(xs), |xs| as real, lo, hi);
  }

  // ----- median -----

  lemma RealLeqOrder()
    ensures TotalPreorder(RealLeq) && Antisymmetric(RealLeq)
  {
  }

  /** Two sorted arrangements of the same multiset are the same sequence. */
  lemma {:induction false} SortedPermutationUnique<T(!new)>(a: seq<T>, b: seq<T>, leq: (T, T) -> bool)
    requires Antisymmetric(leq)
    requires Sorted(a, leq) && Sorted(b, leq)
    requires multiset(a) == multiset(b)
    ensures a == b
    decreases |a|
  {
    if a != [] {
      SortedHeads(a, b, leq);
      assert a == [a[0]] + a[1..] && b == [b[0]] + b[1..];
      assert multiset(a) == multiset{a[0]} + multiset(a[1..]);
      assert multiset(b) == multiset{b[0]} + multiset(b[1..]);
      assert multiset(a[1..]) == multiset(a) - multiset{a[0]};
      assert multiset(b[1..]) == multiset(b) - multiset{b[0]};
      SortedTail(a, leq);
      SortedTail(b, leq);
      SortedPermutationUnique(a[1..], b[1..], leq);
    } else {
      assert |multiset(b)| == 0;
    }
  }

  /** Two sorted arrangements of the same multiset start with the same element. */
  lemma SortedHeads<T(!new)>(a: seq<T>, b: seq<T>, leq: (T, T) -> bool)
    requires Antisymmetric(leq)
    requires Sorted(a, leq) && Sorted(b, leq)
    requires multiset(a) == multiset(b) && a != []
    ensures b != [] && a[0] == b[0]
  {
    assert a[0] in multiset(b);
    assert b[0] in multiset(a);
    var m :| 0 <= m < |a| && a[m] == b[0];
    var k :| 0 <= k < |b| && b[k] == a[0];
    assert leq(a[0], a[m]) || m == 0;
    assert leq(b[0], b[k]) || k == 0;
  }

  lemma SortedTail<T>(a: seq<T>, leq: (T, T) -> bool)
    requires a != [] && Sorted(a, leq)
    ensures Sorted(a[1..], leq)
  {
    forall i, j | 0 <= i < j < |a[1..]| ensures leq(a[1..][i], a[1..][j]) {
      assert a[1..][i] == a[i + 1] && a[1..][j] == a[j + 1];
    }
  }

  /** The median depends only on the multiset of scores, not on their order. */
  lemma MedianPermutation(xs: seq<real>, ys: seq<real>)
    requires multiset(xs) == multiset(ys)
    ensures Median(xs) == Median(ys)
  {
    RealLeqOrder();
    SortSorted(xs, RealLeq);
    SortSorted(ys, RealLeq);
    SortedPermutationUnique(Sort(xs, RealLeq), Sort(ys, RealLeq), RealLeq);
    if xs == [] {
      assert |multiset(ys)| == 0;
    }
  }

  /** The median of scores lying in `[lo, hi]` lies in `[lo, hi]`, and for an
      odd number of scores it is one of them. */
  lemma MedianBounds(xs: seq<real>, lo: real, hi: real)
    requires xs != []
    requires forall i :: 0 <= i < |xs| ==> lo <= xs[i] <= hi
    ensures lo <= Median(xs) <= hi
    ensures |xs| % 2 == 1 ==> Median(xs) in xs
  {
    var s := Sort(xs, RealLeq);
    forall k | 0 <= k < |s| ensures s[k] in xs && lo <= s[k] <= hi {
      assert s[k] in multiset(s);
      assert s[k] in multiset(xs);
      var i :| 0 <= i < |xs| && xs[i] == s[k];
    }
  }

  // ----- variance -----

  lemma SquareZero(d: real)
    ensures Square(d) >= 0.0
    ensures d != 0.0 ==> Square(d) > 0.0
  {
    if d > 0.0 {
      PositiveSquare(d);
    } else if d < 0.0 {
      PositiveSquare(-d);
      assert Square(d) == Square(-d);
    } else {
      assert Square(d) == 0.0 * 0.0;
    }
  }

  lemma PositiveSquare(e: real)
    requires e > 0.0
    ensures Square(e) > 0.0
  {
    var s := Square(e);
    assert s == e * e;
    assert s / e == e;
  }

  /** A sum of squares is never negative, and is 0 exactly when every score
      equals the centre. */
  lemma {:induction false} SquaredDeviationsZero(xs: seq<real>, avg: real)
    ensures SquaredDeviations(xs, avg) >= 0.0
    ensures SquaredDeviations(xs, avg) == 0.0 <==> forall i :: 0 <= i < |xs| ==> xs[i] == avg
  {
    if xs != [] {
      var init := xs[..|xs| - 1];
      var d := xs[|xs| - 1] - avg;
      SquaredDeviationsZero(init, avg);
      SquareZero(d);
      assert forall i :: 0 <= i < |init| ==> init[i] == xs[i];
      if SquaredDeviations(xs, avg) == 0.0 {
        assert SquaredDeviations(init, avg) == 0.0 && Square(d) == 0.0;
        forall i | 0 <= i < |xs| ensures xs[i] == avg {
          if i < |init| {
            assert init[i] == avg;
          }
        }
      }
    }
  }

  /** The variance is never negative. */
  lemma VarianceNonNegative(xs: seq<real>)
    ensures Variance(xs) >= 0.0
  {
    if xs != [] {
      SquaredDeviationsZero(xs, Sum(xs) / |xs| as real);
    }
  }

  /** The variance is 0 exactly when all scores are equal (and for no scores). */
  lemma VarianceZero(xs: seq<real>)
    ensures Variance(xs) == 0.0 <==> forall i, j :: 0 <= i < |xs| && 0 <= j < |xs| ==> xs[i] == xs[j]
  {
    if xs != [] {
      var n := |xs| as real;
      var avg := Sum(xs) / n;
      SquaredDeviationsZero(xs, avg);
      if forall i, j :: 0 <= i < |xs| && 0 <= j < |xs| ==> xs[i] == xs[j] {
        AverageBounds(xs, xs[0], xs[0]);
        assert avg == xs[0];
        assert SquaredDeviations(xs, avg) == 0.0;
      }
      if Variance(xs) == 0.0 {
        assert SquaredDeviations(xs, avg) == 0.0 by {
          var sd := SquaredDeviations(xs, avg);
          assert sd / n == 0.0;
          assert sd == (sd / n) * n;
        }
      }
    }
  }

  // ----- rounding -----

  /** Rounding moves a value by at most half a hundredth and keeps it non-negative. */
  lemma Round2Close(x: real)
    ensures x - 0.005 <= Round2(x) <= x + 0.005
    ensures x >= 0.0 ==> Round2(x) >= 0.0
  {
  }
}
