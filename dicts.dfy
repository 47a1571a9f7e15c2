/**
 * Insertion-ordered dictionaries, counters and grouping.
 *
 * A Python `dict` remembers the order in which its keys were first inserted;
 * assigning to an existing key keeps the key's position and replaces its
 * value. `Dict<K, V>` is that: a sequence of key/value pairs. `Tally` is
 * `collections.Counter` filled one element at a time, and `Group` is a
 * `defaultdict(list)` filled by appending.
 */
module Dicts {
  import opened Wrappers
  import opened Sorting

  type Dict<K, V> = seq<(K, V)>

  function Key<K, V>(p: (K, V)): K { p.0 }

  ghost predicate DistinctKeys<K, V>(d: Dict<K, V>) {
    DistinctBy(d, Key)
  }

  /** The keys of `d`, in order. */
  function Keys<K, V>(d: Dict<K, V>): (ks: seq<K>)
    ensures |ks| == |d|
    ensures forall i :: 0 <= i < |d| ==> ks[i] == d[i].0
  {
    if d == [] then [] else [d[0].0] + Keys(d[1..])
  }

  /** The values of `d`, in order. */
  function Values<K, V>(d: Dict<K, V>): (vs: seq<V>)
    ensures |vs| == |d|
    ensures forall i :: 0 <= i < |d| ==> vs[i] == d[i].1
  {
    if d == [] then [] else [d[0].1] + Values(d[1..])
  }

  /** The position of key `k` in `d`, or -1 when `k` is absent. */
  function IndexOf<K(==), V>(d: Dict<K, V>, k: K): (i: int)
    ensures -1 <= i < |d|
    ensures 0 <= i ==> d[i].0 == k && forall j :: 0 <= j < i ==> d[j].0 != k
    ensures i < 0 ==> forall j :: 0 <= j < |d| ==> d[j].0 != k
  {
    if d == [] then -1
    else if d[0].0 == k then 0
    else
      var i := IndexOf(d[1..], k);
      if i < 0 then -1 else i + 1
  }

  /** `d.get(k)`. */
  function Get<K(==), V>(d: Dict<K, V>, k: K): Option<V> {
    var i := IndexOf(d, k);
    if i < 0 then None else Some(d[i].1)
  }

  /** The set of keys of `d`. */
  function KeySet<K, V>(d: Dict<K, V>): (ks: set<K>)
    ensures forall i :: 0 <= i < |d| ==> d[i].0 in ks
    ensures forall k :: k in ks ==> exists i :: 0 <= i < |d| && d[i].0 == k
  {
    if d == [] then {}
    else
      var p := d[..|d| - 1];
      assert forall i :: 0 <= i < |p| ==> p[i] == d[i];
      KeySet(p) + {d[|d| - 1].0}
  }

  lemma GetInKeySet<K, V>(d: Dict<K, V>, k: K)
    ensures Get(d, k).Some? <==> k in KeySet(d)
  {
  }

  /** In a dictionary with distinct keys, `Get` finds the entry at any position. */
  lemma GetAt<K, V>(d: Dict<K, V>, i: int)
    requires DistinctKeys(d)
    requires 0 <= i < |d|
    ensures Get(d, d[i].0) == Some(d[i].1)
  {
  }

  /** A dictionary with distinct keys has as many entries as keys. */
  lemma {:induction false} DistinctKeysCard<K, V>(d: Dict<K, V>)
    requires DistinctKeys(d)
    ensures |KeySet(d)| == |d|
  {
    if d != [] {
      var p := d[..|d| - 1];
      assert forall i :: 0 <= i < |p| ==> p[i] == d[i];
      assert DistinctKeys(p);
      DistinctKeysCard(p);
    }
  }

  /** `d[k] = v`: replaces the value in place when `k` is present, appends otherwise. */
  function Put<K(==), V>(d: Dict<K, V>, k: K, v: V): Dict<K, V> {
    var i := IndexOf(d, k);
    if i >= 0 then d[i := (k, v)] else d + [(k, v)]
  }

  /** After `d[k] = v`, `k` maps to `v` and every other key is as before. */
  lemma PutGet<K, V>(d: Dict<K, V>, k: K, v: V, k': K)
    ensures Get(Put(d, k, v), k') == if k' == k then Some(v) else Get(d, k')
  {
    var i := IndexOf(d, k);
    if i >= 0 {
      assert Keys(d[i := (k, v)]) == Keys(d);
      IndexOfByKeys(d[i := (k, v)], d, k');
    } else {
      IndexOfAppend(d, (k, v), k');
      assert (d + [(k, v)])[|d|] == (k, v);
    }
  }

  /** `d[k] = v` adds `k` to the keys, at the end when it is new. */
  lemma PutKeys<K, V>(d: Dict<K, V>, k: K, v: V)
    ensures KeySet(Put(d, k, v)) == KeySet(d) + {k}
    ensures Keys(Put(d, k, v)) == if IndexOf(d, k) >= 0 then Keys(d) else Keys(d) + [k]
  {
    var i := IndexOf(d, k);
    if i >= 0 {
      assert d[i].0 == k && Put(d, k, v) == d[i := (d[i].0, v)];
      ReplaceKeySet(d, i, v);
      ReplaceKeys(d, i, v);
      AddMember(KeySet(d), k);
    } else {
      AppendKeySet(d, (k, v));
    }
  }

  lemma ReplaceKeys<K, V>(d: Dict<K, V>, i: int, v: V)
    requires 0 <= i < |d|
    ensures Keys(d[i := (d[i].0, v)]) == Keys(d)
  {
  }

  /** `d[k] = v` keeps the keys distinct. */
  lemma PutDistinct<K, V>(d: Dict<K, V>, k: K, v: V)
    requires DistinctKeys(d)
    ensures DistinctKeys(Put(d, k, v))
  {
    var i := IndexOf(d, k);
    if i >= 0 {
      ReplaceDistinct(d, i, v);
    } else {
      AppendDistinct(d, k, v);
    }
  }

  /** `IndexOf` looks at keys only. */
  lemma {:induction false} IndexOfByKeys<K, V>(a: Dict<K, V>, b: Dict<K, V>, k: K)
    requires Keys(a) == Keys(b)
    ensures IndexOf(a, k) == IndexOf(b, k)
  {
    if a != [] {
      assert a[0].0 == Keys(a)[0] == Keys(b)[0] == b[0].0;
      assert Keys(a[1..]) == Keys(a)[1..] == Keys(b)[1..] == Keys(b[1..]);
      IndexOfByKeys(a[1..], b[1..], k);
    }
  }

  lemma {:induction false} IndexOfAppend<K, V>(d: Dict<K, V>, p: (K, V), k: K)
    ensures IndexOf(d + [p], k) == if IndexOf(d, k) >= 0 then IndexOf(d, k) else if p.0 == k then |d| else -1
  {
    if d != [] {
      assert (d + [p])[1..] == d[1..] + [p];
      IndexOfAppend(d[1..], p, k);
    }
  }

  lemma ReplaceDistinct<K, V>(d: Dict<K, V>, i: int, v: V)
    requires 0 <= i < |d|
    requires DistinctKeys(d)
    ensures DistinctKeys(d[i := (d[i].0, v)])
  {
    var r := d[i := (d[i].0, v)];
    forall a, b | 0 <= a < b < |r| ensures Key(r[a]) != Key(r[b]) {
      assert Key(r[a]) == Key(d[a]) && Key(r[b]) == Key(d[b]);
    }
  }

  lemma ReplaceKeySet<K, V>(d: Dict<K, V>, i: int, v: V)
    requires 0 <= i < |d|
    ensures KeySet(d[i := (d[i].0, v)]) == KeySet(d)
  {
    var r := d[i := (d[i].0, v)];
    forall x | x in KeySet(r) ensures x in KeySet(d) {
      var j :| 0 <= j < |r| && r[j].0 == x;
      assert d[j].0 == x;
    }
    forall x | x in KeySet(d) ensures x in KeySet(r) {
      var j :| 0 <= j < |d| && d[j].0 == x;
      assert r[j].0 == x;
    }
  }

  lemma AppendKeySet<K, V>(d: Dict<K, V>, p: (K, V))
    ensures KeySet(d + [p]) == KeySet(d) + {p.0}
    ensures Keys(d + [p]) == Keys(d) + [p.0]
  {
    assert (d + [p])[..|d|] == d;
  }

  lemma AppendDistinct<K, V>(d: Dict<K, V>, k: K, v: V)
    requires IndexOf(d, k) < 0
    requires DistinctKeys(d)
    ensures DistinctKeys(d + [(k, v)])
  {
    var r := d + [(k, v)];
    forall a, b | 0 <= a < b < |r| ensures Key(r[a]) != Key(r[b]) {
      assert Key(r[a]) == Key(d[a]);
    }
  }

  /** `d[k] = v` for each pair `(k, v)` in turn: a later pair overwrites an
      earlier one with the same key. */
  function PutAll<K(==), V>(d: Dict<K, V>, ps: seq<(K, V)>): Dict<K, V>
    decreases |ps|
  {
    if ps == [] then d else Put(PutAll(d, ps[..|ps| - 1]), ps[|ps| - 1].0, ps[|ps| - 1].1)
  }

  /** The assignments into an empty dict, also `dict(pairs)`. */
  function FromPairs<K(==), V>(ps: seq<(K, V)>): Dict<K, V> {
    PutAll([], ps)
  }

  /** One more assignment. */
  lemma PutAllSnoc<K, V>(d: Dict<K, V>, ps: seq<(K, V)>, p: (K, V))
    ensures PutAll(d, ps + [p]) == Put(PutAll(d, ps), p.0, p.1)
  {
    assert (ps + [p])[..|ps|] == ps;
  }

  lemma FromPairsSnoc<K, V>(ps: seq<(K, V)>, p: (K, V))
    ensures FromPairs(ps + [p]) == Put(FromPairs(ps), p.0, p.1)
  {
    assert (ps + [p])[..|ps|] == ps;
  }

  /** `dict(pairs)` has distinct keys, those of the pairs, and no more entries than pairs. */
  lemma {:induction false} FromPairsShape<K, V>(ps: seq<(K, V)>)
    ensures DistinctKeys(FromPairs(ps))
    ensures KeySet(FromPairs(ps)) == KeySet(ps)
    ensures |FromPairs(ps)| <= |ps|
  {
    if ps != [] {
      var p := ps[..|ps| - 1];
      var (k, v) := ps[|ps| - 1];
      FromPairsShape(p);
      PutDistinct(FromPairs(p), k, v);
      PutKeys(FromPairs(p), k, v);
      assert KeySet(ps) == KeySet(p) + {k};
      assert |Keys(Put(FromPairs(p), k, v))| <= |Keys(FromPairs(p))| + 1;
    }
  }

  /** The value carried by the last pair of `ps` whose key is `k`. */
  function LastValue<K(==), V>(ps: seq<(K, V)>, k: K): Option<V> {
    if ps == [] then None
    else if ps[|ps| - 1].0 == k then Some(ps[|ps| - 1].1)
    else LastValue(ps[..|ps| - 1], k)
  }

  /** Each key of `dict(pairs)` holds the value of its last pair. */
  lemma {:induction false} FromPairsGet<K, V>(ps: seq<(K, V)>, k: K)
    ensures Get(FromPairs(ps), k) == LastValue(ps, k)
  {
    if ps != [] {
      var p := ps[..|ps| - 1];
      FromPairsGet(p, k);
      PutGet(FromPairs(p), ps[|ps| - 1].0, ps[|ps| - 1].1, k);
    }
  }

  /** `c[x] += 1` on a counter (a missing key counts as 0). */
  function Increment<K(==)>(c: Dict<K, int>, x: K): Dict<K, int> {
    Put(c, x, Get(c, x).GetOr(0) + 1)
  }

  /** `Counter(xs)` built by `c[x] += 1` for each `x` in turn. */
  function Tally<K(==)>(xs: seq<K>): Dict<K, int> {
    if xs == [] then [] else Increment(Tally(xs[..|xs| - 1]), xs[|xs| - 1])
  }

  /** One more element counted. */
  lemma TallySnoc<K>(xs: seq<K>, x: K)
    ensures Tally(xs + [x]) == Increment(Tally(xs), x)
  {
    assert (xs + [x])[..|xs|] == xs;
  }

  /** `c.update(ys)`: one `c[y] += 1` for each `y` in turn. */
  function Update<K(==)>(c: Dict<K, int>, ys: seq<K>): Dict<K, int>
    decreases |ys|
  {
    if ys == [] then c else Increment(Update(c, ys[..|ys| - 1]), ys[|ys| - 1])
  }

  /** Updating the counter of `xs` with `ys` counts `xs + ys`. */
  lemma {:induction false} TallyConcat<K>(xs: seq<K>, ys: seq<K>)
    ensures Update(Tally(xs), ys) == Tally(xs + ys)
    decreases |ys|
  {
    if ys == [] {
      assert xs + ys == xs;
    } else {
      var init := ys[..|ys| - 1];
      TallyConcat(xs, init);
      assert xs + ys == (xs + init) + [ys[|ys| - 1]];
      TallySnoc(xs + init, ys[|ys| - 1]);
    }
  }

  lemma {:induction false} TallyDistinct<K>(xs: seq<K>)
    ensures DistinctKeys(Tally(xs))
  {
    if xs != [] {
      var c := Tally(xs[..|xs| - 1]);
      var x := xs[|xs| - 1];
      TallyDistinct(xs[..|xs| - 1]);
      PutDistinct(c, x, Get(c, x).GetOr(0) + 1);
    }
  }

  /** The counter holds exactly the elements of `xs`, each with its number of occurrences. */
  lemma {:induction false} TallyGet<K>(xs: seq<K>, k: K)
    ensures Get(Tally(xs), k) == if k in xs then Some(multiset(xs)[k]) else None
  {
    if xs != [] {
      var p := xs[..|xs| - 1];
      var x := xs[|xs| - 1];
      assert xs == p + [x];
      var c := Tally(p);
      TallyGet(p, k);
      TallyGet(p, x);
      PutGet(c, x, Get(c, x).GetOr(0) + 1, k);
      if k == x {
        assert Get(c, x).GetOr(0) == multiset(p)[x];
        assert multiset(xs)[k] == multiset(p)[k] + 1;
      } else {
        assert multiset(xs)[k] == multiset(p)[k];
        assert k in xs <==> k in p;
      }
    }
  }

  /** The counter's keys are the distinct elements of `xs`. */
  lemma TallyKeySet<K>(xs: seq<K>)
    ensures KeySet(Tally(xs)) == set x | x in xs
  {
    forall k ensures k in KeySet(Tally(xs)) <==> k in xs {
      TallyGet(xs, k);
      GetInKeySet(Tally(xs), k);
    }
  }

  /** The counter has one entry per distinct element. */
  lemma TallySize<K>(xs: seq<K>)
    ensures |Tally(xs)| == |set x | x in xs|
  {
    TallyKeySet(xs);
    TallyDistinct(xs);
    DistinctKeysCard(Tally(xs));
  }

  /** The values of the pairs of `ps` whose key is `k`, in order. */
  function Select<K(==), V>(ps: seq<(K, V)>, k: K): seq<V> {
    if ps == [] then []
    else Select(ps[..|ps| - 1], k) + (if ps[|ps| - 1].0 == k then [ps[|ps| - 1].1] else [])
  }

  /** `groups[k].append(v)` on a `defaultdict(list)`. */
  function AppendTo<K(==), V>(g: Dict<K, seq<V>>, k: K, v: V): Dict<K, seq<V>> {
    Put(g, k, Get(g, k).GetOr([]) + [v])
  }

  /** `groups[k].append(v)` for each pair `(k, v)` in turn, into a `defaultdict(list)`. */
  function Group<K(==), V>(ps: seq<(K, V)>): Dict<K, seq<V>> {
    if ps == [] then [] else AppendTo(Group(ps[..|ps| - 1]), ps[|ps| - 1].0, ps[|ps| - 1].1)
  }

  lemma {:induction false} GroupDistinct<K, V>(ps: seq<(K, V)>)
    ensures DistinctKeys(Group(ps))
  {
    if ps != [] {
      var g := Group(ps[..|ps| - 1]);
      var k := ps[|ps| - 1].0;
      GroupDistinct(ps[..|ps| - 1]);
      PutDistinct(g, k, Get(g, k).GetOr([]) + [ps[|ps| - 1].1]);
    }
  }

  /** Every key that occurs in `ps` is grouped with all its values, in input
      order; no other key is present, so no group is empty. */
  lemma {:induction false} GroupGet<K, V>(ps: seq<(K, V)>, k: K)
    ensures Get(Group(ps), k) == if Select(ps, k) == [] then None else Some(Select(ps, k))
  {
    if ps != [] {
      var p := ps[..|ps| - 1];
      var x := ps[|ps| - 1].0;
      var g := Group(p);
      GroupGet(p, k);
      GroupGet(p, x);
      PutGet(g, x, Get(g, x).GetOr([]) + [ps[|ps| - 1].1], k);
      if k == x {
        assert Select(ps, k) == Select(p, k) + [ps[|ps| - 1].1];
      } else {
        assert Select(ps, k) == Select(p, k);
      }
    }
  }

  lemma {:induction false} SelectEmpty<K, V>(ps: seq<(K, V)>, k: K)
    ensures Select(ps, k) == [] <==> k !in KeySet(ps)
  {
    if ps != [] {
      var p := ps[..|ps| - 1];
      SelectEmpty(p, k);
      assert KeySet(ps) == KeySet(p) + {ps[|ps| - 1].0};
    }
  }

  /** Sum of `f` over a sequence. */
  function SumOf<T>(s: seq<T>, f: T -> int): int {
    if s == [] then 0 else SumOf(s[..|s| - 1], f) + f(s[|s| - 1])
  }

  lemma {:induction false} SumOfConcat<T>(a: seq<T>, b: seq<T>, f: T -> int)
    ensures SumOf(a + b, f) == SumOf(a, f) + SumOf(b, f)
  {
    if b != [] {
      var ab := a + b;
      assert ab[..|ab| - 1] == a + b[..|b| - 1];
      assert ab[|ab| - 1] == b[|b| - 1];
      SumOfConcat(a, b[..|b| - 1], f);
      assert SumOf(ab, f) == SumOf(a + b[..|b| - 1], f) + f(b[|b| - 1]);
    } else {
      assert a + b == a;
    }
  }

  lemma SumOfUpdate<T>(s: seq<T>, i: int, x: T, f: T -> int)
    requires 0 <= i < |s|
    ensures SumOf(s[i := x], f) == SumOf(s, f) - f(s[i]) + f(x)
  {
    assert s == s[..i] + [s[i]] + s[i + 1..];
    assert s[i := x] == s[..i] + [x] + s[i + 1..];
    SumOfConcat(s[..i] + [s[i]], s[i + 1..], f);
    SumOfConcat(s[..i] + [x], s[i + 1..], f);
    SumOfConcat(s[..i], [s[i]], f);
    SumOfConcat(s[..i], [x], f);
  }

  /** A sum does not depend on the order of its terms. */
  lemma {:induction false} SumOfPermutation<T>(s: seq<T>, t: seq<T>, f: T -> int)
    requires multiset(s) == multiset(t)
    ensures SumOf(s, f) == SumOf(t, f)
  {
    if s == [] {
      assert |t| == |multiset(t)| == 0;
    } else {
      var x := s[|s| - 1];
      var p := s[..|s| - 1];
      RemoveLast(s);
      assert x in multiset(t);
      var i :| 0 <= i < |t| && t[i] == x;
      RemoveOne(t, i);
      SumOfRemove(t, i, f);
      SumOfPermutation(p, t[..i] + t[i + 1..], f);
    }
  }

  lemma RemoveLast<T>(s: seq<T>)
    requires s != []
    ensures s[|s| - 1] in multiset(s)
    ensures multiset(s[..|s| - 1]) == multiset(s) - multiset{s[|s| - 1]}
  {
    assert s == s[..|s| - 1] + [s[|s| - 1]];
  }

  /** Removing position `i` removes one copy of `t[i]`. */
  lemma RemoveOne<T>(t: seq<T>, i: int)
    requires 0 <= i < |t|
    ensures multiset(t[..i] + t[i + 1..]) == multiset(t) - multiset{t[i]}
  {
    assert t == t[..i] + [t[i]] + t[i + 1..];
    assert multiset(t) == multiset(t[..i]) + multiset{t[i]} + multiset(t[i + 1..]);
  }

  /** Removing position `i` removes its term from the sum. */
  lemma SumOfRemove<T>(t: seq<T>, i: int, f: T -> int)
    requires 0 <= i < |t|
    ensures SumOf(t, f) == SumOf(t[..i] + t[i + 1..], f) + f(t[i])
  {
    SumOfMiddle(t, t[..i], t[i], t[i + 1..], f);
  }

  lemma SumOfMiddle<T>(t: seq<T>, a: seq<T>, x: T, b: seq<T>, f: T -> int)
    requires t == a + [x] + b
    ensures SumOf(t, f) == SumOf(a + b, f) + f(x)
  {
    SumOfConcat(a + [x], b, f);
    assert (a + [x])[..|a|] == a;
    SumOfConcat(a, b, f);
  }

  /** The count carried by a counter entry. */
  function Count<K>(e: (K, int)): int { e.1 }

  /** A counter entry's key times its count. */
  function Weight(e: (int, int)): int { e.0 * e.1 }

  function Identity(x: int): int { x }

  /** The counts of `Counter(xs)` add up to the length of `xs`. */
  lemma {:induction false} TallyTotal<K>(xs: seq<K>)
    ensures SumOf(Tally(xs), Count) == |xs|
  {
    if xs != [] {
      var p := xs[..|xs| - 1];
      var x := xs[|xs| - 1];
      TallyTotal(p);
      var c := Tally(p);
      var i := IndexOf(c, x);
      if i >= 0 {
        SumOfUpdate<(K, int)>(c, i, (x, c[i].1 + 1), Count);
      } else {
        assert (c + [(x, 1)])[..|c|] == c;
      }
    }
  }

  /** `c[x] += 1` bumps the entry of `x` in place, or appends `(x, 1)`. */
  lemma IncrementAt<K>(c: Dict<K, int>, x: K)
    ensures var i := IndexOf(c, x);
      Increment(c, x) == if i >= 0 then c[i := (x, c[i].1 + 1)] else c + [(x, 1)]
  {
  }

  lemma WeightStep(y: int, n: int)
    ensures Weight((y, n + 1)) == Weight((y, n)) + y
  {
    assert y * (n + 1) == y * n + y;
  }

  /** For a counter of natural numbers, the sum of key times count is the sum of the numbers. */
  lemma {:induction false} TallyWeighted(ys: seq<int>)
    ensures SumOf(Tally(ys), Weight) == SumOf(ys, Identity)
  {
    if ys != [] {
      var p := ys[..|ys| - 1];
      var y := ys[|ys| - 1];
      TallyWeighted(p);
      assert Tally(ys) == Increment(Tally(p), y);
      IncrementWeighted(Tally(p), y);
    }
  }

  /** Counting one more `y` adds `y` to the weighted sum. */
  lemma IncrementWeighted(c: Dict<int, int>, y: int)
    ensures SumOf(Increment(c, y), Weight) == SumOf(c, Weight) + y
  {
    IncrementAt(c, y);
    var i := IndexOf(c, y);
    if i >= 0 {
      assert c[i] == (y, c[i].1);
      SumOfUpdate<(int, int)>(c, i, (y, c[i].1 + 1), Weight);
      WeightStep(y, c[i].1);
    } else {
      assert (c + [(y, 1)])[..|c|] == c;
      assert Weight((y, 1)) == y;
    }
  }

  /** The values of a dictionary add up as its entries do. */
  lemma {:induction false} SumOfValues<K>(d: Dict<K, int>)
    ensures SumOf(Values(d), Identity) == SumOf(d, Count)
  {
    if d != [] {
      var p := d[..|d| - 1];
      assert Values(d)[..|d| - 1] == Values(p);
      SumOfValues(p);
    }
  }

  /** `dict(items)` on items whose keys are already distinct keeps them as they are. */
  lemma {:induction false} FromPairsDistinct<K, V>(ps: seq<(K, V)>)
    requires DistinctKeys(ps)
    ensures FromPairs(ps) == ps
  {
    if ps != [] {
      var p := ps[..|ps| - 1];
      assert DistinctKeys(p);
      FromPairsDistinct(p);
      assert IndexOf(p, ps[|ps| - 1].0) < 0;
      assert ps == p + [ps[|ps| - 1]];
    }
  }

  /** With distinct keys, a lookup finds exactly the entries of the dictionary. */
  lemma GetIffEntry<K, V>(d: Dict<K, V>, k: K)
    requires DistinctKeys(d)
    ensures forall v :: Get(d, k) == Some(v) <==> (k, v) in d
  {
    forall v ensures Get(d, k) == Some(v) <==> (k, v) in d {
      if (k, v) in d {
        var i :| 0 <= i < |d| && d[i] == (k, v);
        GetAt(d, i);
      }
    }
  }

  /** Reordering a dictionary with distinct keys changes no lookup. */
  lemma GetPermutation<K, V>(a: Dict<K, V>, b: Dict<K, V>, k: K)
    requires multiset(a) == multiset(b)
    requires DistinctKeys(a) && DistinctKeys(b)
    ensures Get(a, k) == Get(b, k)
  {
    GetIffEntry(a, k);
    GetIffEntry(b, k);
    if Get(a, k).Some? {
      var v := Get(a, k).value;
      assert (k, v) in multiset(a);
    }
    if Get(b, k).Some? {
      var v := Get(b, k).value;
      assert (k, v) in multiset(b);
    }
  }

  /** The last value for `k` is the value of some pair for `k`. */
  lemma {:induction false} LastValueIn<K, V>(ps: seq<(K, V)>, k: K)
    ensures LastValue(ps, k).Some? ==> (k, LastValue(ps, k).value) in ps
    ensures LastValue(ps, k).None? ==> k !in KeySet(ps)
  {
    if ps != [] {
      LastValueIn(ps[..|ps| - 1], k);
      assert ps == ps[..|ps| - 1] + [ps[|ps| - 1]];
    }
  }

  // ----- assigning a run of pairs into a dict that already has entries -----

  /** The assignments add the pairs' keys. */
  lemma {:induction false} PutAllKeySet<K, V>(d: Dict<K, V>, ps: seq<(K, V)>)
    ensures KeySet(PutAll(d, ps)) == KeySet(d) + KeySet(ps)
    decreases |ps|
  {
    if ps != [] {
      var init := ps[..|ps| - 1];
      var (k, v) := ps[|ps| - 1];
      PutAllKeySet(d, init);
      PutKeys(PutAll(d, init), k, v);
      assert KeySet(ps) == KeySet(init) + {k};
    }
  }

  /** The assignments keep distinct keys distinct. */
  lemma {:induction false} PutAllDistinct<K, V>(d: Dict<K, V>, ps: seq<(K, V)>)
    requires DistinctKeys(d)
    ensures DistinctKeys(PutAll(d, ps))
    decreases |ps|
  {
    if ps != [] {
      var init := ps[..|ps| - 1];
      PutAllDistinct(d, init);
      PutDistinct(PutAll(d, init), ps[|ps| - 1].0, ps[|ps| - 1].1);
    }
  }

  /** When every key is already present, the assignments keep the key order. */
  lemma {:induction false} PutAllKeys<K, V>(d: Dict<K, V>, ps: seq<(K, V)>)
    requires KeySet(ps) <= KeySet(d)
    ensures Keys(PutAll(d, ps)) == Keys(d)
    decreases |ps|
  {
    if ps != [] {
      var init := ps[..|ps| - 1];
      var (k, v) := ps[|ps| - 1];
      assert KeySet(ps) == KeySet(init) + {k};
      PutAllKeys(d, init);
      var e := PutAll(d, init);
      PutAllKeySet(d, init);
      assert k in KeySet(e);
      assert IndexOf(e, k) >= 0;
      PutKeys(e, k, v);
    }
  }

  /** After the assignments a key holds the value of its last pair, or its old
      value when no pair names it. */
  lemma {:induction false} PutAllGet<K, V>(d: Dict<K, V>, ps: seq<(K, V)>, k: K)
    ensures Get(PutAll(d, ps), k) == if LastValue(ps, k).Some? then LastValue(ps, k) else Get(d, k)
    decreases |ps|
  {
    if ps != [] {
      var init := ps[..|ps| - 1];
      PutAllGet(d, init, k);
      PutGet(PutAll(d, init), ps[|ps| - 1].0, ps[|ps| - 1].1, k);
    }
  }

  /** Two dictionaries with distinct keys, the same key order and the same
      lookups are the same sequence of entries. */
  lemma SameDict<K, V>(a: Dict<K, V>, b: Dict<K, V>)
    requires DistinctKeys(a) && DistinctKeys(b) && Keys(a) == Keys(b)
    requires forall k :: Get(a, k) == Get(b, k)
    ensures a == b
  {
    forall i | 0 <= i < |a| ensures a[i] == b[i] {
      assert a[i].0 == Keys(a)[i] == b[i].0;
      GetAt(a, i);
      GetAt(b, i);
    }
  }

  /** Repeating the same run of assignments changes nothing. */
  lemma PutAllTwice<K, V>(d: Dict<K, V>, ps: seq<(K, V)>)
    requires DistinctKeys(d)
    ensures PutAll(PutAll(d, ps), ps) == PutAll(d, ps)
  {
    var e := PutAll(d, ps);
    PutAllKeySet(d, ps);
    PutAllDistinct(d, ps);
    PutAllDistinct(e, ps);
    PutAllKeys(e, ps);
    forall k ensures Get(PutAll(e, ps), k) == Get(e, k) {
      PutAllGet(e, ps, k);
      PutAllGet(d, ps, k);
    }
    SameDict(PutAll(e, ps), e);
  }

  // ----- entries and sizes -----

  /** An entry of a dictionary built by assignments is one of the pairs assigned. */
  lemma FromPairsEntry<K, V>(ps: seq<(K, V)>, e: (K, V))
    requires e in FromPairs(ps)
    ensures e in ps
  {
    var d := FromPairs(ps);
    FromPairsShape(ps);
    var i :| 0 <= i < |d| && d[i] == e;
    GetAt(d, i);
    FromPairsGet(ps, e.0);
    LastValueIn(ps, e.0);
  }

  /** An entry of `Counter(xs)` is an element of `xs` with its number of occurrences. */
  lemma TallyEntry<K>(xs: seq<K>, e: (K, int))
    requires e in Tally(xs)
    ensures e.0 in xs && e.1 == multiset(xs)[e.0] && e.1 >= 1
  {
    var c := Tally(xs);
    TallyDistinct(xs);
    var i :| 0 <= i < |c| && c[i] == e;
    GetAt(c, i);
    TallyGet(xs, e.0);
  }

  /** An entry of a grouping is a key of the pairs with all its values, in order. */
  lemma GroupEntry<K, V>(ps: seq<(K, V)>, e: (K, seq<V>))
    requires e in Group(ps)
    ensures e.1 == Select(ps, e.0) && e.0 in KeySet(ps)
  {
    var g := Group(ps);
    GroupDistinct(ps);
    var i :| 0 <= i < |g| && g[i] == e;
    GetAt(g, i);
    GroupGet(ps, e.0);
    SelectEmpty(ps, e.0);
  }

  /** Sets with the same members are equal. */
  lemma SameMembers<K>(a: set<K>, b: set<K>)
    requires forall k :: k in a <==> k in b
    ensures a == b
  {
  }

  /** A key is grouped exactly when it occurs in the pairs. */
  lemma GroupKeyIn<K, V>(ps: seq<(K, V)>, k: K)
    ensures k in KeySet(Group(ps)) <==> k in KeySet(ps)
  {
    GroupGet(ps, k);
    SelectEmpty(ps, k);
    GetInKeySet(Group(ps), k);
  }

  /** The grouping has one entry per key of the pairs. */
  lemma GroupKeySet<K, V>(ps: seq<(K, V)>)
    ensures KeySet(Group(ps)) == KeySet(ps)
    ensures |Group(ps)| == |KeySet(ps)|
  {
    forall k ensures k in KeySet(Group(ps)) <==> k in KeySet(ps) {
      GroupKeyIn(ps, k);
    }
    SameMembers(KeySet(Group(ps)), KeySet(ps));
    GroupDistinct(ps);
    DistinctKeysCard(Group(ps));
  }

  lemma {:induction false} KeySetBound<K, V>(ps: seq<(K, V)>)
    ensures |KeySet(ps)| <= |ps|
  {
    if ps != [] {
      KeySetBound(ps[..|ps| - 1]);
    }
  }

  /** Pairs that repeat a key have fewer keys than pairs. */
  lemma {:induction false} KeySetDuplicate<K, V>(ps: seq<(K, V)>, i: int, j: int)
    requires 0 <= i < j < |ps| && ps[i].0 == ps[j].0
    ensures |KeySet(ps)| < |ps|
    decreases |ps|
  {
    var p := ps[..|ps| - 1];
    var last := ps[|ps| - 1].0;
    assert KeySet(ps) == KeySet(p) + {last};
    if j == |ps| - 1 {
      assert p[i] == ps[i];
      AddMember(KeySet(p), last);
      KeySetBound(p);
    } else {
      assert p[i] == ps[i] && p[j] == ps[j];
      KeySetDuplicate(p, i, j);
      AddCard(KeySet(p), last);
    }
  }

  lemma AddMember<K>(a: set<K>, x: K)
    requires x in a
    ensures a + {x} == a
  {
  }

  lemma AddCard<K>(a: set<K>, x: K)
    ensures |a + {x}| <= |a| + 1
  {
  }

  /** Keys are distinct exactly when there are as many keys as pairs. */
  lemma DistinctKeysIff<K, V>(ps: seq<(K, V)>)
    ensures DistinctKeys(ps) <==> |KeySet(ps)| == |ps|
  {
    if DistinctKeys(ps) {
      DistinctKeysCard(ps);
    } else {
      var i, j :| 0 <= i < j < |ps| && ps[i].0 == ps[j].0;
      KeySetDuplicate(ps, i, j);
    }
  }

  /** `dict(pairs)` keeps one entry per key: as many entries as pairs exactly
      when no key repeats, and then it is the pairs themselves. */
  lemma FromPairsSize<K, V>(ps: seq<(K, V)>)
    ensures |FromPairs(ps)| == |KeySet(ps)|
    ensures |FromPairs(ps)| == |ps| <==> DistinctKeys(ps)
    ensures DistinctKeys(ps) ==> FromPairs(ps) == ps
  {
    FromPairsShape(ps);
    DistinctKeysCard(FromPairs(ps));
    DistinctKeysIff(ps);
    if DistinctKeys(ps) {
      FromPairsDistinct(ps);
    }
  }

  // ----- comprehensions with a filter -----

  /** `[f(c, x) for x in xs if f(c, x) is not None]`, built by appending. */
  function Kept<C, A, B>(c: C, xs: seq<A>, f: (C, A) -> Option<B>): seq<B>
    decreases |xs|
  {
    if xs == [] then []
    else
      var prev := Kept(c, xs[..|xs| - 1], f);
      match f(c, xs[|xs| - 1])
      case Some(b) => prev + [b]
      case None => prev
  }

  /** The `i`-th step of the loop that builds `Kept`. */
  lemma KeptStep<C, A, B>(c: C, xs: seq<A>, f: (C, A) -> Option<B>, i: int)
    requires 0 <= i < |xs|
    ensures var r := f(c, xs[i]);
      Kept(c, xs[..i + 1], f) == Kept(c, xs[..i], f) + (if r.Some? then [r.value] else [])
  {
    assert xs[..i + 1][..i] == xs[..i];
  }

  /** Every kept value comes from an element of `xs`. */
  lemma {:induction false} KeptFrom<C, A, B>(c: C, xs: seq<A>, f: (C, A) -> Option<B>, b: B)
    requires b in Kept(c, xs, f)
    ensures exists x :: x in xs && f(c, x) == Some(b)
    decreases |xs|
  {
    var init := xs[..|xs| - 1];
    if b in Kept(c, init, f) {
      KeptFrom(c, init, f, b);
      var x :| x in init && f(c, x) == Some(b);
      assert x in xs;
    } else {
      assert f(c, xs[|xs| - 1]) == Some(b);
    }
  }

  /** Every element of `xs` that `f` accepts contributes its value. */
  lemma {:induction false} KeptGives<C, A, B>(c: C, xs: seq<A>, f: (C, A) -> Option<B>, x: A)
    requires x in xs && f(c, x).Some?
    ensures f(c, x).value in Kept(c, xs, f)
    decreases |xs|
  {
    var init := xs[..|xs| - 1];
    var k :| 0 <= k < |xs| && xs[k] == x;
    if k < |init| {
      assert init[k] == x;
      KeptGives(c, init, f, x);
    }
  }

  lemma {:induction false} KeptBound<C, A, B>(c: C, xs: seq<A>, f: (C, A) -> Option<B>)
    ensures |Kept(c, xs, f)| <= |xs|
    decreases |xs|
  {
    if xs != [] {
      KeptBound(c, xs[..|xs| - 1], f);
    }
  }
}
