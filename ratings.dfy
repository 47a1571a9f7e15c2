/**
 * The `Ratings` loader and the statistics of its `Movies` and `Users`
 * helpers. The loader converts the first `limit` rows of the ratings file
 * into ratings and the first `limit` rows of the movies file into a
 * movie-id-to-title map, and does nothing once ratings are loaded. The
 * helpers count scores, count ratings per movie and per user, group the
 * scores by movie or by user, and rank the groups by a metric rounded to two
 * decimals, showing a movie by its title (or its id as a string when the
 * title is unknown).
 */
module RatingAnalytics {
  import opened Wrappers
  import opened Text
  import opened Dicts
  import opened Csv
  import opened Sorting
  import opened Ranking
  import opened Metrics

  /** One converted row of the ratings file. */
  datatype Rating = Rating(userId: int, movieId: int, score: real, timestamp: int)

  // ----- converting rows -----

  /** `row[key]`. */
  function Field(row: Row, key: string): (r: Result<string, Exception>)
    ensures r.Success? ==> (key, r.value) in row
    ensures r.Failure? ==> r.error == KeyError(key) && key !in KeySet(row)
  {
    GetInKeySet(row, key);
    match Get(row, key)
    case None => Failure(KeyError(key))
    case Some(v) => Success(v)
  }

  /** `int(row[key])`. */
  function IntField(row: Row, key: string): Result<int, Exception> {
    match Field(row, key)
    case Failure(e) => Failure(e)
    case Success(s) => if ParseInt(s).Some? then Success(ParseInt(s).value) else Failure(ValueError(s))
  }

  /** `float(row[key])`. */
  function RealField(row: Row, key: string): Result<real, Exception> {
    match Field(row, key)
    case Failure(e) => Failure(e)
    case Success(s) => if ParseDecimal(s).Some? then Success(ParseDecimal(s).value) else Failure(ValueError(s))
  }

  /** The rating of one row: `userId`, `movieId`, `rating` and `timestamp`
      converted in that order, the first one that fails raising. */
  function RatingOf(row: Row): Result<Rating, Exception> {
    match IntField(row, "userId")
    case Failure(e) => Failure(e)
    case Success(u) =>
      match IntField(row, "movieId")
      case Failure(e) => Failure(e)
      case Success(m) =>
        match RealField(row, "rating")
        case Failure(e) => Failure(e)
        case Success(x) =>
          match IntField(row, "timestamp")
          case Failure(e) => Failure(e)
          case Success(t) => Success(Rating(u, m, x, t))
  }

  /** The entry one movies row assigns into the titles map: `row['title']` is
      looked up before `int(row['movieId'])` is converted. */
  function TitleEntry(row: Row): Result<(int, string), Exception> {
    match Field(row, "title")
    case Failure(e) => Failure(e)
    case Success(title) =>
      match IntField(row, "movieId")
      case Failure(e) => Failure(e)
      case Success(m) => Success((m, title))
  }

  const RatingHeaders: seq<string> := ["userId", "movieId", "rating", "timestamp"]
  const MovieHeaders: seq<string> := ["movieId", "title", "genres"]

  /** A field holding a printed integer converts to that integer. */
  lemma IntFieldPrinted(row: Row, key: string, i: int)
    requires Get(row, key) == Some(IntToString(i))
    ensures IntField(row, key) == Success(i)
  {
    IntToStringRoundTrip(i);
  }

  /** The columns of a ratings row are found under their names. */
  lemma RatingRowFields(values: seq<string>)
    requires |values| == 4
    ensures var row := MakeRow(RatingHeaders, values);
      Get(row, "userId") == Some(values[0]) && Get(row, "movieId") == Some(values[1])
      && Get(row, "rating") == Some(values[2]) && Get(row, "timestamp") == Some(values[3])
  {
    RowLookup(RatingHeaders, values, 0);
    RowLookup(RatingHeaders, values, 1);
    RowLookup(RatingHeaders, values, 2);
    RowLookup(RatingHeaders, values, 3);
  }

  /** A ratings row written from a rating (ids and timestamp printed, the score
      in any text that reads as it) converts back to that rating. */
  lemma RatingRowRoundTrip(u: int, m: int, score: string, x: real, t: int)
    requires ParseDecimal(score) == Some(x)
    ensures RatingOf(MakeRow(RatingHeaders, [IntToString(u), IntToString(m), score, IntToString(t)]))
      == Success(Rating(u, m, x, t))
  {
    var values := [IntToString(u), IntToString(m), score, IntToString(t)];
    var row := MakeRow(RatingHeaders, values);
    RatingRowFields(values);
    IntFieldPrinted(row, "userId", u);
    IntFieldPrinted(row, "movieId", m);
    IntFieldPrinted(row, "timestamp", t);
    assert RealField(row, "rating") == Success(x);
  }

  /** A movies row written from an id and a title gives the entry `(id, title)`. */
  lemma TitleRowRoundTrip(m: int, title: string, genres: string)
    ensures TitleEntry(MakeRow(MovieHeaders, [IntToString(m), title, genres])) == Success((m, title))
  {
    var values := [IntToString(m), title, genres];
    RowLookup(MovieHeaders, values, 0);
    RowLookup(MovieHeaders, values, 1);
    IntFieldPrinted(MakeRow(MovieHeaders, values), "movieId", m);
  }

  /** A movies row without a `title` column raises `KeyError('title')`,
      whatever its `movieId` holds: the title is looked up first. */
  lemma TitleLookedUpFirst(row: Row)
    requires "title" !in KeySet(row)
    ensures TitleEntry(row) == Failure(KeyError("title"))
  {
    GetInKeySet(row, "title");
  }

  /** Convert rows in turn until one raises: the values converted before it
      and, when one raised, its exception. */
  function ParseRows<A>(rows: seq<Row>, f: Row -> Result<A, Exception>): (seq<A>, Option<Exception>)
    decreases |rows|
  {
    if rows == [] then ([], None)
    else
      var prev := ParseRows(rows[..|rows| - 1], f);
      if prev.1.Some? then prev
      else
        match f(rows[|rows| - 1])
        case Success(a) => (prev.0 + [a], None)
        case Failure(e) => (prev.0, Some(e))
  }

  /** The values are those of the leading rows that convert; the exception,
      when there is one, is that of the first row that does not; and none
      escapes exactly when every row converts. */
  lemma {:induction false} ParseRowsSpec<A>(rows: seq<Row>, f: Row -> Result<A, Exception>)
    ensures var (vs, e) := ParseRows(rows, f);
      (forall i :: 0 <= i < |vs| ==> i < |rows| && f(rows[i]) == Success(vs[i]))
      && (e.None? ==> |vs| == |rows|)
      && (e.Some? ==> |vs| < |rows| && f(rows[|vs|]) == Failure(e.value))
      && (e.None? <==> forall i :: 0 <= i < |rows| ==> f(rows[i]).Success?)
    decreases |rows|
  {
    if rows != [] {
      var init := rows[..|rows| - 1];
      ParseRowsSpec(init, f);
      assert forall i :: 0 <= i < |init| ==> init[i] == rows[i];
    }
  }

  /** One more row converted, when none has raised yet. */
  lemma ParseRowsStep<A>(rows: seq<Row>, f: Row -> Result<A, Exception>, i: int, vs: seq<A>)
    requires 0 <= i < |rows| && ParseRows(rows[..i], f) == (vs, None)
    ensures f(rows[i]).Success? ==> ParseRows(rows[..i + 1], f) == (vs + [f(rows[i]).value], None)
    ensures f(rows[i]).Failure? ==> ParseRows(rows, f) == (vs, Some(f(rows[i]).error))
  {
    assert rows[..i + 1][..i] == rows[..i];
    if f(rows[i]).Failure? {
      ParseRowsStops(rows, f, i + 1);
    }
  }

  /** Once a row has raised, later rows are not converted. */
  lemma {:induction false} ParseRowsStops<A>(rows: seq<Row>, f: Row -> Result<A, Exception>, k: nat)
    requires k <= |rows|
    requires ParseRows(rows[..k], f).1.Some?
    ensures ParseRows(rows, f) == ParseRows(rows[..k], f)
    decreases |rows| - k
  {
    if k < |rows| {
      var init := rows[..|rows| - 1];
      assert init[..k] == rows[..k];
      ParseRowsStops(init, f, k);
    } else {
      assert rows[..k] == rows;
    }
  }

  /** One run of `_load_data` with nothing loaded yet, from the titles map
      `m`: the ratings appended, the titles map after the movies file's
      assignments, and the exception that escapes, if any. The movies file is
      read only when the ratings all converted. */
  function Loaded(ratingsFile: Option<seq<string>>, moviesFile: Option<seq<string>>, limit: int,
                  m: Dict<int, string>): (seq<Rating>, Dict<int, string>, Option<Exception>)
  {
    var (rs, e) := ParseRows(ReadCsv(ratingsFile, limit), RatingOf);
    if e.Some? then (rs, m, e)
    else
      var (ts, e2) := ParseRows(ReadCsv(moviesFile, limit), TitleEntry);
      (rs, PutAll(m, ts), e2)
  }

  /** Loading again after a load that raised nothing gives the same ratings
      and the same titles map: a reload (which happens only when no rating was
      loaded) duplicates nothing. */
  lemma LoadedAgain(ratingsFile: Option<seq<string>>, moviesFile: Option<seq<string>>, limit: int,
                    m: Dict<int, string>)
    requires DistinctKeys(m)
    ensures var (rs, m2, e) := Loaded(ratingsFile, moviesFile, limit, m);
      e.None? ==> Loaded(ratingsFile, moviesFile, limit, m2) == (rs, m2, e)
  {
    var (rs, e) := ParseRows(ReadCsv(ratingsFile, limit), RatingOf);
    if e.None? {
      var (ts, e2) := ParseRows(ReadCsv(moviesFile, limit), TitleEntry);
      PutAllTwice(m, ts);
    }
  }

  /** A successful load keeps every rating row of the file, in order, and maps
      each movie id of the movies file to the title of its last row. */
  lemma LoadedSpec(ratingsFile: Option<seq<string>>, moviesFile: Option<seq<string>>, limit: int)
    ensures var (rs, m, e) := Loaded(ratingsFile, moviesFile, limit, []);
      var rows := ReadCsv(ratingsFile, limit);
      e.None? ==>
        |rs| == |rows| && (forall i :: 0 <= i < |rows| ==> RatingOf(rows[i]) == Success(rs[i]))
        && DistinctKeys(m)
        && forall mid :: Get(m, mid) == LastValue(ParseRows(ReadCsv(moviesFile, limit), TitleEntry).0, mid)
  {
    var (rs, e) := ParseRows(ReadCsv(ratingsFile, limit), RatingOf);
    var (ts, e2) := ParseRows(ReadCsv(moviesFile, limit), TitleEntry);
    ParseRowsSpec(ReadCsv(ratingsFile, limit), RatingOf);
    PutAllDistinct([], ts);
    forall mid ensures Get(PutAll([], ts), mid) == LastValue(ts, mid) {
      PutAllGet([], ts, mid);
    }
  }

  // ----- columns, groups and titles -----

  /** `[key(r) for r in ratings]`. */
  function Column<T>(rs: seq<Rating>, key: Rating -> T): (xs: seq<T>)
    ensures |xs| == |rs| && forall i :: 0 <= i < |rs| ==> xs[i] == key(rs[i])
    decreases |rs|
  {
    if rs == [] then [] else Column(rs[..|rs| - 1], key) + [key(rs[|rs| - 1])]
  }

  function Score(r: Rating): real { r.score }
  function MovieOf(r: Rating): int { r.movieId }
  function UserOf(r: Rating): int { r.userId }
  function MovieScore(r: Rating): (int, real) { (r.movieId, r.score) }
  function UserScore(r: Rating): (int, real) { (r.userId, r.score) }

  /** The keys of the (key, score) pairs are the keys the ratings carry. */
  lemma PairKeys(rs: seq<Rating>, pair: Rating -> (int, real), key: Rating -> int)
    requires forall r :: pair(r).0 == key(r)
    ensures KeySet(Column(rs, pair)) == set k | k in Column(rs, key)
  {
    var ps := Column(rs, pair);
    var ks := Column(rs, key);
    forall k | k in KeySet(ps) ensures k in ks {
      var i :| 0 <= i < |ps| && ps[i].0 == k;
      assert ks[i] == k;
    }
    forall k | k in ks ensures k in KeySet(ps) {
      var i :| 0 <= i < |ks| && ks[i] == k;
      assert ps[i].0 == k;
    }
  }

  /** `dict.get(mid, str(mid))` on the titles map. */
  function TitleFor(titles: Dict<int, string>, mid: int): string {
    Get(titles, mid).GetOr(IntToString(mid))
  }

  /** `(title, value)` for each `(mid, value)`, in order. */
  function Titled<V>(titles: Dict<int, string>, top: Dict<int, V>): (ps: seq<(string, V)>)
    ensures |ps| == |top| && forall i :: 0 <= i < |top| ==> ps[i] == (TitleFor(titles, top[i].0), top[i].1)
    decreases |top|
  {
    if top == [] then [] else Titled(titles, top[..|top| - 1]) + [(TitleFor(titles, top[|top| - 1].0), top[|top| - 1].1)]
  }

  /** No two selected movies show under the same title. */
  ghost predicate TitlesDistinct<V>(titles: Dict<int, string>, top: Dict<int, V>) {
    forall i, j :: 0 <= i < j < |top| ==> TitleFor(titles, top[i].0) != TitleFor(titles, top[j].0)
  }

  /** Writing the selected movies under their titles keeps every one of them,
      in order, exactly when no two share a title. */
  lemma TitledSpec<V>(titles: Dict<int, string>, top: Dict<int, V>)
    ensures var r := FromPairs(Titled(titles, top));
      DistinctKeys(r) && |r| <= |top|
      && (TitlesDistinct(titles, top) <==> |r| == |top|)
      && (TitlesDistinct(titles, top) ==> r == Titled(titles, top))
  {
    var ps := Titled(titles, top);
    TitledKeys(titles, top, ps);
    FromPairsSize(ps);
    KeySetBound(ps);
    FromPairsShape(ps);
  }

  /** The titled pairs have distinct keys exactly when the titles differ. */
  lemma TitledKeys<V>(titles: Dict<int, string>, top: Dict<int, V>, ps: seq<(string, V)>)
    requires ps == Titled(titles, top)
    ensures |ps| == |top|
    ensures TitlesDistinct(titles, top) <==> DistinctKeys(ps)
  {
    forall i, j | 0 <= i < j < |ps| ensures Key(ps[i]) == TitleFor(titles, top[i].0) && Key(ps[j]) == TitleFor(titles, top[j].0) {
    }
  }

  /** Either way, an entry shows a selected movie's value under its title. */
  lemma TitledEntry<V>(titles: Dict<int, string>, top: Dict<int, V>, e: (string, V))
    requires e in FromPairs(Titled(titles, top))
    ensures exists i :: 0 <= i < |top| && e == (TitleFor(titles, top[i].0), top[i].1)
  {
    var ps := Titled(titles, top);
    FromPairsEntry(ps, e);
    var i :| 0 <= i < |ps| && ps[i] == e;
  }

  /** `round(metric(rates), 2)` for each group, in group order. */
  function Scored<K>(groups: Dict<K, seq<real>>, metric: seq<real> -> real): (scored: Dict<K, real>)
    ensures |scored| == |groups|
    ensures forall i :: 0 <= i < |groups| ==> scored[i] == (groups[i].0, Round2(metric(groups[i].1)))
    decreases |groups|
  {
    if groups == [] then []
    else
      var g := groups[|groups| - 1];
      Scored(groups[..|groups| - 1], metric) + [(g.0, Round2(metric(g.1)))]
  }

  /** Scoring one more group adds its rounded metric to the values. */
  lemma ScoredValuesStep<K>(groups: Dict<K, seq<real>>, metric: seq<real> -> real, i: int)
    requires 0 <= i < |groups|
    ensures Values(Scored(groups[..i + 1], metric))
      == Values(Scored(groups[..i], metric)) + [Round2(metric(groups[i].1))]
  {
    assert groups[..i + 1][..i] == groups[..i];
  }

  /** Each scored entry is a key of the pairs with the rounded metric of all
      its scores, and the keys stay distinct. */
  lemma ScoredSpec<K>(ps: seq<(K, real)>, metric: seq<real> -> real)
    ensures DistinctKeys(Scored(Group(ps), metric))
    ensures |Scored(Group(ps), metric)| == |KeySet(ps)|
    ensures forall e :: e in Scored(Group(ps), metric) ==>
      e.0 in KeySet(ps) && e.1 == Round2(metric(Select(ps, e.0)))
  {
    var g := Group(ps);
    var scored := Scored(g, metric);
    GroupDistinct(ps);
    GroupKeySet(ps);
    assert DistinctKeys(scored) by {
      forall i, j | 0 <= i < j < |scored| ensures scored[i].0 != scored[j].0 {
        assert scored[i].0 == g[i].0 && scored[j].0 == g[j].0;
      }
    }
    forall e | e in scored ensures e.0 in KeySet(ps) && e.1 == Round2(metric(Select(ps, e.0))) {
      var i :| 0 <= i < |scored| && scored[i] == e;
      assert g[i] in g;
      GroupEntry(ps, g[i]);
    }
  }

  /** The metric a query uses: `average` unless one is given. */
  function MetricOr(metric: Option<seq<real> -> real>): seq<real> -> real {
    if metric.None? then Average else metric.value
  }

  // ----- Ratings.Movies -----

  /** `dist_by_rating()`: how many ratings give each score, by ascending score. */
  function DistByRatingOf(rs: seq<Rating>): Dict<real, int> {
    ByRealKey(Tally(Column(rs, Score)))
  }

  /** The scores ascend strictly, each score given maps to how many ratings
      give it, and the counts add up to the number of ratings. */
  lemma DistByRatingSpec(rs: seq<Rating>)
    ensures AscendingRealKeys(DistByRatingOf(rs))
    ensures forall x :: (Get(DistByRatingOf(rs), x) ==
      if x in Column(rs, Score) then Some(multiset(Column(rs, Score))[x]) else None)
    ensures SumOf(DistByRatingOf(rs), Count) == |rs|
  {
    var xs := Column(rs, Score);
    var c := Tally(xs);
    TallyDistinct(xs);
    ByRealKeyAscending(c);
    assert TotalPreorder(RealKeyLeq<int>);
    SortDistinctBy(c, RealKeyLeq, Key);
    forall x ensures Get(DistByRatingOf(rs), x) == if x in xs then Some(multiset(xs)[x]) else None {
      GetPermutation(DistByRatingOf(rs), c, x);
      TallyGet(xs, x);
    }
    SumOfPermutation(DistByRatingOf(rs), c, Count);
    TallyTotal(xs);
  }

  /** Sorting a counter by its keys keeps each key's count. */
  lemma IntKeyTallyGet(xs: seq<int>, k: int)
    ensures Get(ByIntKey(Tally(xs)), k) == if k in xs then Some(multiset(xs)[k]) else None
  {
    var c := Tally(xs);
    TallyDistinct(xs);
    ByIntKeyAscending(c);
    assert TotalPreorder(IntKeyLeq<int>);
    SortDistinctBy(c, IntKeyLeq, Key);
    GetPermutation(ByIntKey(c), c, k);
    TallyGet(xs, k);
  }

  lemma RealKeyTallyGet(xs: seq<real>, x: real)
    ensures Get(ByRealKey(Tally(xs)), x) == if x in xs then Some(multiset(xs)[x]) else None
  {
    var c := Tally(xs);
    TallyDistinct(xs);
    ByRealKeyAscending(c);
    assert TotalPreorder(RealKeyLeq<int>);
    SortDistinctBy(c, RealKeyLeq, Key);
    GetPermutation(ByRealKey(c), c, x);
    TallyGet(xs, x);
  }

  /** `Counter(r['movieId'] for r in ratings)`. */
  function MovieCounts(rs: seq<Rating>): Dict<int, int> {
    Tally(Column(rs, MovieOf))
  }

  /** `top_by_num_of_ratings(n)`: the `n` most rated movies, under their titles. */
  function TopByNumOfRatingsOf(rs: seq<Rating>, titles: Dict<int, string>, n: int): Dict<string, int> {
    FromPairs(Titled(titles, MostCommon(MovieCounts(rs), n)))
  }

  /** The movies chosen are the `n` most rated ones. Two chosen movies with
      the same title leave a single entry, so the result has exactly as many
      entries as movies chosen only when their titles differ, and then its
      counts never increase. */
  lemma TopByNumOfRatingsSpec(rs: seq<Rating>, titles: Dict<int, string>, n: int)
    ensures var top := MostCommon(MovieCounts(rs), n);
      var r := TopByNumOfRatingsOf(rs, titles, n);
      (n > 0 ==> IsTopCount(top, MovieCounts(rs), n))
      && (n >= 0 ==> |r| <= n) && |r| <= |top| && DistinctKeys(r)
      && (TitlesDistinct(titles, top) <==> |r| == |top|)
      && (TitlesDistinct(titles, top) ==> NonIncreasing(r))
  {
    var c := MovieCounts(rs);
    var top := MostCommon(c, n);
    var r := TopByNumOfRatingsOf(rs, titles, n);
    if n > 0 {
      TopByCountIsTop(c, n);
    }
    TitledSpec(titles, top);
    if TitlesDistinct(titles, top) {
      forall i, j | 0 <= i < j < |r| ensures r[i].1 >= r[j].1 {
        assert r[i].1 == top[i].1 && r[j].1 == top[j].1;
      }
    }
  }

  /** Each entry is the number of ratings of a rated movie, under that
      movie's title. */
  lemma TopByNumOfRatingsCounts(rs: seq<Rating>, titles: Dict<int, string>, n: int, e: (string, int))
    requires e in TopByNumOfRatingsOf(rs, titles, n)
    ensures exists mid :: (mid in Column(rs, MovieOf)
      && TitleFor(titles, mid) == e.0 && e.1 == multiset(Column(rs, MovieOf))[mid])
  {
    var c := MovieCounts(rs);
    var top := MostCommon(c, n);
    TitledEntry(titles, top, e);
    var i :| 0 <= i < |top| && e == (TitleFor(titles, top[i].0), top[i].1);
    TopByCountIsTop(c, n);
    assert top[i] in top;
    TallyEntry(Column(rs, MovieOf), top[i]);
  }

  /** The scores of each movie in file order, grouped by movie id. */
  function MovieGroups(rs: seq<Rating>): Dict<int, seq<real>> {
    Group(Column(rs, MovieScore))
  }

  /** `top_by_ratings(n, metric)`: the movies with the `n` largest rounded
      metrics (ties in first-rated order), under their titles. */
  function TopByRatingsOf(rs: seq<Rating>, titles: Dict<int, string>, n: int, metric: seq<real> -> real): Dict<string, real> {
    FromPairs(Titled(titles, TopByScore(Scored(MovieGroups(rs), metric), n)))
  }

  /** The movies chosen have the `n` largest rounded metrics, and the
      values never increase when the chosen titles differ. */
  lemma TopByRatingsSpec(rs: seq<Rating>, titles: Dict<int, string>, n: int, metric: seq<real> -> real)
    ensures var scored := Scored(MovieGroups(rs), metric);
      var top := TopByScore(scored, n);
      var r := TopByRatingsOf(rs, titles, n, metric);
      IsTopScore(top, scored, n) && DistinctKeys(scored)
      && (n >= 0 ==> |r| <= n) && |r| <= |top| && DistinctKeys(r)
      && (TitlesDistinct(titles, top) <==> |r| == |top|)
      && (TitlesDistinct(titles, top) ==> NonIncreasingReal(r))
  {
    var scored := Scored(MovieGroups(rs), metric);
    var top := TopByScore(scored, n);
    var r := TopByRatingsOf(rs, titles, n, metric);
    TopByScoreIsTop(scored, n);
    ScoredSpec(Column(rs, MovieScore), metric);
    TitledSpec(titles, top);
    TitledKeepsOrder(titles, top);
  }

  /** Writing titles in place of ids keeps the order of the values. */
  lemma TitledKeepsOrder(titles: Dict<int, string>, top: Dict<int, real>)
    requires NonIncreasingReal(top)
    ensures NonIncreasingReal(Titled(titles, top))
  {
    var ps := Titled(titles, top);
    forall i, j | 0 <= i < j < |ps| ensures ps[i].1 >= ps[j].1 {
      assert ps[i].1 == top[i].1 && ps[j].1 == top[j].1;
    }
  }

  /** Each entry is the rounded metric of all the scores of a rated movie, in
      file order, under that movie's title. */
  lemma TopByRatingsValues(rs: seq<Rating>, titles: Dict<int, string>, n: int, metric: seq<real> -> real,
                           e: (string, real))
    requires e in TopByRatingsOf(rs, titles, n, metric)
    ensures exists mid :: (mid in Column(rs, MovieOf)
      && TitleFor(titles, mid) == e.0 && e.1 == Round2(metric(Select(Column(rs, MovieScore), mid))))
  {
    var ps := Column(rs, MovieScore);
    var scored := Scored(MovieGroups(rs), metric);
    var top := TopByScore(scored, n);
    TopByScoreIsTop(scored, n);
    ScoredSpec(ps, metric);
    PairKeys(rs, MovieScore, MovieOf);
    TitledEntry(titles, top, e);
    var i :| 0 <= i < |top| && e == (TitleFor(titles, top[i].0), top[i].1);
    assert top[i] in top;
    assert top[i] in scored;
  }

  /** `Movies.top_controversial(n)` ranks by the rounded variance, so every
      value it shows is at least 0. */
  lemma TopControversialSpec(rs: seq<Rating>, titles: Dict<int, string>, n: int)
    ensures forall e :: e in TopByRatingsOf(rs, titles, n, Variance) ==> e.1 >= 0.0
  {
    forall e | e in TopByRatingsOf(rs, titles, n, Variance) ensures e.1 >= 0.0 {
      TopByRatingsValues(rs, titles, n, Variance, e);
      var mid :| mid in Column(rs, MovieOf) && TitleFor(titles, mid) == e.0
        && e.1 == Round2(Variance(Select(Column(rs, MovieScore), mid)));
      VarianceNonNegative(Select(Column(rs, MovieScore), mid));
      Round2Close(Variance(Select(Column(rs, MovieScore), mid)));
    }
  }

  // ----- Ratings.Users -----

  /** `Counter(r['userId'] for r in ratings)`. */
  function UserCounts(rs: seq<Rating>): Dict<int, int> {
    Tally(Column(rs, UserOf))
  }

  /** `dist_by_num_of_ratings()`: how many users gave each number of ratings,
      by ascending number. */
  function DistByNumOfRatingsOf(rs: seq<Rating>): Dict<int, int> {
    ByIntKey(Tally(Values(UserCounts(rs))))
  }

  /** The numbers of ratings ascend strictly and are at least 1; each number
      maps to how many users gave exactly that many ratings; the user counts
      add up to the number of distinct users, and the numbers weighted by
      their user counts add up to the number of ratings. */
  lemma DistByNumOfRatingsSpec(rs: seq<Rating>)
    ensures AscendingKeys(DistByNumOfRatingsOf(rs))
    ensures forall e :: e in DistByNumOfRatingsOf(rs) ==> e.0 >= 1 && e.1 >= 1
    ensures SumOf(DistByNumOfRatingsOf(rs), Count) == |set u | u in Column(rs, UserOf)|
    ensures SumOf(DistByNumOfRatingsOf(rs), Weight) == |rs|
    ensures forall k :: (Get(DistByNumOfRatingsOf(rs), k) ==
      if k in Values(UserCounts(rs)) then Some(multiset(Values(UserCounts(rs)))[k]) else None)
  {
    forall k ensures Get(DistByNumOfRatingsOf(rs), k) ==
      if k in Values(UserCounts(rs)) then Some(multiset(Values(UserCounts(rs)))[k]) else None
    {
      IntKeyTallyGet(Values(UserCounts(rs)), k);
    }
    var us := Column(rs, UserOf);
    var uc := UserCounts(rs);
    var vals := Values(uc);
    var dist := Tally(vals);
    var r := DistByNumOfRatingsOf(rs);
    TallyDistinct(vals);
    ByIntKeyAscending(dist);
    forall e | e in r ensures e.0 >= 1 && e.1 >= 1 {
      assert e in multiset(r);
      assert e in dist;
      TallyEntry(vals, e);
      var i :| 0 <= i < |vals| && vals[i] == e.0;
      assert uc[i] in uc;
      TallyEntry(us, uc[i]);
    }
    SumOfPermutation(r, dist, Count);
    TallyTotal(vals);
    TallySize(us);
    SumOfPermutation(r, dist, Weight);
    TallyWeighted(vals);
    SumOfValues(uc);
    TallyTotal(us);
  }

  /** The scores of each user in file order, grouped by user id. */
  function UserGroups(rs: seq<Rating>): Dict<int, seq<real>> {
    Group(Column(rs, UserScore))
  }

  /** `dist_by_ratings(metric)`: how many users have each rounded metric, by
      ascending value. */
  function DistByRatingsOf(rs: seq<Rating>, metric: seq<real> -> real): Dict<real, int> {
    ByRealKey(Tally(Values(Scored(UserGroups(rs), metric))))
  }

  /** The values ascend strictly, each value maps to how many users have it
      as their rounded metric, and the user counts add up to the number of
      distinct users. */
  lemma DistByRatingsSpec(rs: seq<Rating>, metric: seq<real> -> real)
    ensures AscendingRealKeys(DistByRatingsOf(rs, metric))
    ensures SumOf(DistByRatingsOf(rs, metric), Count) == |set u | u in Column(rs, UserOf)|
    ensures forall x :: (Get(DistByRatingsOf(rs, metric), x) ==
      if x in Values(Scored(UserGroups(rs), metric))
      then Some(multiset(Values(Scored(UserGroups(rs), metric)))[x]) else None)
  {
    forall x ensures Get(DistByRatingsOf(rs, metric), x) ==
      if x in Values(Scored(UserGroups(rs), metric))
      then Some(multiset(Values(Scored(UserGroups(rs), metric)))[x]) else None
    {
      RealKeyTallyGet(Values(Scored(UserGroups(rs), metric)), x);
    }
    var vals := Values(Scored(UserGroups(rs), metric));
    var dist := Tally(vals);
    TallyDistinct(vals);
    ByRealKeyAscending(dist);
    ScoredSpec(Column(rs, UserScore), metric);
    PairKeys(rs, UserScore, UserOf);
    SumOfPermutation(DistByRatingsOf(rs, metric), dist, Count);
    TallyTotal(vals);
  }

  /** Each value is the rounded metric of all the scores of some user. */
  lemma DistByRatingsValues(rs: seq<Rating>, metric: seq<real> -> real, e: (real, int))
    requires e in DistByRatingsOf(rs, metric)
    ensures exists u :: u in Column(rs, UserOf) && e.0 == Round2(metric(Select(Column(rs, UserScore), u)))
  {
    var ps := Column(rs, UserScore);
    var scored := Scored(UserGroups(rs), metric);
    var vals := Values(scored);
    var dist := Tally(vals);
    TallyDistinct(vals);
    ByRealKeyAscending(dist);
    assert e in multiset(DistByRatingsOf(rs, metric));
    assert e in dist;
    TallyEntry(vals, e);
    var i :| 0 <= i < |vals| && vals[i] == e.0;
    assert scored[i] in scored;
    ScoredSpec(ps, metric);
    PairKeys(rs, UserScore, UserOf);
  }

  /** `Users.top_controversial(n)`: `dict(calc[:n])` over the users ranked by
      rounded variance. */
  function UserTopControversialOf(rs: seq<Rating>, n: int): Dict<int, real> {
    FromPairs(TopByScore(Scored(UserGroups(rs), Variance), n))
  }

  /** The result is the top-n selection itself (user ids never collide): at
      most `n` users with the largest rounded variances, in non-increasing
      order, each a rating user with the rounded variance of its scores, and
      every value at least 0. */
  lemma UserTopControversialSpec(rs: seq<Rating>, n: int)
    ensures var scored := Scored(UserGroups(rs), Variance);
      var r := UserTopControversialOf(rs, n);
      r == TopByScore(scored, n) && IsTopScore(r, scored, n) && DistinctKeys(r)
      && (n >= 0 ==> |r| <= n)
      && forall e :: e in r ==> (e.0 in Column(rs, UserOf) && e.1 >= 0.0
        && e.1 == Round2(Variance(Select(Column(rs, UserScore), e.0))))
  {
    var ps := Column(rs, UserScore);
    var scored := Scored(UserGroups(rs), Variance);
    var top := TopByScore(scored, n);
    TopByScoreIsTop(scored, n);
    ScoredSpec(ps, Variance);
    PairKeys(rs, UserScore, UserOf);
    FromPairsSize(top);
    forall e | e in top ensures e.0 in Column(rs, UserOf) && e.1 >= 0.0
      && e.1 == Round2(Variance(Select(ps, e.0)))
    {
      assert e in scored;
      VarianceNonNegative(Select(ps, e.0));
      Round2Close(Variance(Select(ps, e.0)));
    }
  }

  // ----- the loops the queries run -----

  /** A `Counter` filled by `c[key(r)] += 1` for each rating. */
  method CountRatings<K(==)>(rs: seq<Rating>, key: Rating -> K) returns (c: Dict<K, int>)
    ensures c == Tally(Column(rs, key))
  {
    c := [];
    for i := 0 to |rs|
      invariant c == Tally(Column(rs[..i], key))
    {
      assert rs[..i + 1][..i] == rs[..i];
      TallySnoc(Column(rs[..i], key), key(rs[i]));
      c := Increment(c, key(rs[i]));
    }
    assert rs[..|rs|] == rs;
  }

  /** A `defaultdict(list)` filled by `groups[k].append(score)` for each rating. */
  method GroupRatings(rs: seq<Rating>, pair: Rating -> (int, real)) returns (g: Dict<int, seq<real>>)
    ensures g == Group(Column(rs, pair))
  {
    g := [];
    for i := 0 to |rs|
      invariant g == Group(Column(rs[..i], pair))
    {
      assert rs[..i + 1][..i] == rs[..i];
      ghost var ps := Column(rs[..i], pair);
      assert (ps + [pair(rs[i])])[..|ps|] == ps;
      var (k, x) := pair(rs[i]);
      g := AppendTo(g, k, x);
    }
    assert rs[..|rs|] == rs;
  }

  /** `calc.append((k, round(metric(rates), 2)))` for each group. */
  method ScoreGroups(groups: Dict<int, seq<real>>, metric: seq<real> -> real) returns (scored: Dict<int, real>)
    ensures scored == Scored(groups, metric)
  {
    scored := [];
    for i := 0 to |groups|
      invariant scored == Scored(groups[..i], metric)
    {
      assert groups[..i + 1][..i] == groups[..i];
      scored := scored + [(groups[i].0, Round2(metric(groups[i].1)))];
    }
    assert groups[..|groups|] == groups;
  }

  /** `res[title] = value` for each selected `(mid, value)`. */
  method NameTop<V>(titles: Dict<int, string>, top: Dict<int, V>) returns (res: Dict<string, V>)
    ensures res == FromPairs(Titled(titles, top))
  {
    res := [];
    for i := 0 to |top|
      invariant res == FromPairs(Titled(titles, top[..i]))
    {
      assert top[..i + 1][..i] == top[..i];
      var (mid, value) := top[i];
      FromPairsSnoc(Titled(titles, top[..i]), (TitleFor(titles, mid), value));
      res := Put(res, TitleFor(titles, mid), value);
    }
    assert top[..|top|] == top;
  }

  // ----- the classes -----

  /** The `Ratings` object: the two files it reads, the row limit, the ratings
      loaded and the movie-id-to-title map. */
  class Ratings {
    const ratingsFile: Option<seq<string>>
    const moviesFile: Option<seq<string>>
    const limit: int
    var ratings: seq<Rating>
    var moviesMap: Dict<int, string>

    ghost predicate Valid()
      reads this
    {
      DistinctKeys(moviesMap)
    }

    constructor Empty(ratingsFile: Option<seq<string>>, moviesFile: Option<seq<string>>, limit: int)
      ensures this.ratingsFile == ratingsFile && this.moviesFile == moviesFile && this.limit == limit
      ensures ratings == [] && moviesMap == [] && Valid()
    {
      this.ratingsFile := ratingsFile;
      this.moviesFile := moviesFile;
      this.limit := limit;
      ratings := [];
      moviesMap := [];
    }

    /** `_load_data()`: nothing once ratings are loaded; otherwise append the
        converted ratings, then assign the movies file's titles, stopping at
        the first row that raises. */
    method LoadData() returns (err: Option<Exception>)
      requires Valid()
      modifies this
      ensures Valid()
      ensures old(ratings) != [] ==> ratings == old(ratings) && moviesMap == old(moviesMap) && err.None?
      ensures old(ratings) == [] ==>
        (ratings, moviesMap, err) == Loaded(ratingsFile, moviesFile, limit, old(moviesMap))
    {
      if ratings != [] {
        return None;
      }
      var rows := ReadCsvLimited(ratingsFile, limit);
      err := AppendRatings(rows);
      if err.Some? {
        return;
      }
      var movieRows := ReadCsvLimited(moviesFile, limit);
      err := AssignTitles(movieRows);
    }

    /** The first loop of `_load_data`: append the rating of each row. */
    method AppendRatings(rows: seq<Row>) returns (err: Option<Exception>)
      requires ratings == []
      modifies this
      ensures (ratings, err) == ParseRows(rows, RatingOf)
      ensures moviesMap == old(moviesMap)
    {
      for i := 0 to |rows|
        invariant ParseRows(rows[..i], RatingOf) == (ratings, None)
        invariant moviesMap == old(moviesMap)
      {
        ParseRowsStep(rows, RatingOf, i, ratings);
        var r := RatingOf(rows[i]);
        if r.Failure? {
          return Some(r.error);
        }
        ratings := ratings + [r.value];
      }
      assert rows[..|rows|] == rows;
      err := None;
    }

    /** The second loop of `_load_data`: assign the title of each row. */
    method AssignTitles(rows: seq<Row>) returns (err: Option<Exception>)
      requires Valid()
      modifies this
      ensures Valid()
      ensures moviesMap == PutAll(old(moviesMap), ParseRows(rows, TitleEntry).0)
      ensures err == ParseRows(rows, TitleEntry).1
      ensures ratings == old(ratings)
    {
      ghost var ts: seq<(int, string)> := [];
      for j := 0 to |rows|
        invariant ParseRows(rows[..j], TitleEntry) == (ts, None)
        invariant moviesMap == PutAll(old(moviesMap), ts)
        invariant ratings == old(ratings)
      {
        ParseRowsStep(rows, TitleEntry, j, ts);
        var t := TitleEntry(rows[j]);
        if t.Failure? {
          PutAllDistinct(old(moviesMap), ts);
          return Some(t.error);
        }
        PutAllSnoc(old(moviesMap), ts, t.value);
        moviesMap := Put(moviesMap, t.value.0, t.value.1);
        ts := ts + [t.value];
      }
      assert rows[..|rows|] == rows;
      PutAllDistinct(old(moviesMap), ts);
      err := None;
    }

    /** `Ratings(path, movies_path, limit)`, given the two files (`None` when
        absent): the load the constructor runs, or the exception it raises. */
    static method Open(ratingsFile: Option<seq<string>>, moviesFile: Option<seq<string>>, limit: int)
      returns (r: Result<Ratings, Exception>)
      ensures var (rs, m, e) := Loaded(ratingsFile, moviesFile, limit, []);
        (r.Failure? <==> e.Some?) && (r.Failure? ==> r.error == e.value)
        && (r.Success? ==> (fresh(r.value) && r.value.Valid()
          && r.value.ratingsFile == ratingsFile && r.value.moviesFile == moviesFile
          && r.value.limit == limit && r.value.ratings == rs && r.value.moviesMap == m))
    {
      var x := new Ratings.Empty(ratingsFile, moviesFile, limit);
      var err := x.LoadData();
      if err.Some? {
        return Failure(err.value);
      }
      return Success(x);
    }
  }

  /** `ratings.movies`: the per-movie statistics over the loaded ratings. */
  class MovieQueries {
    const parent: Ratings

    constructor (parent: Ratings)
      ensures this.parent == parent
    {
      this.parent := parent;
    }

    method DistByRating() returns (r: Dict<real, int>)
      ensures r == DistByRatingOf(parent.ratings)
    {
      var c := CountRatings(parent.ratings, Score);
      r := ByRealKey(c);
    }

    method TopByNumOfRatings(n: int) returns (r: Dict<string, int>)
      ensures r == TopByNumOfRatingsOf(parent.ratings, parent.moviesMap, n)
    {
      var c := CountRatings(parent.ratings, MovieOf);
      var top := MostCommon(c, n);
      r := NameTop(parent.moviesMap, top);
    }

    method TopByRatings(n: int, metric: Option<seq<real> -> real>) returns (r: Dict<string, real>)
      ensures r == TopByRatingsOf(parent.ratings, parent.moviesMap, n, MetricOr(metric))
    {
      var groups := GroupRatings(parent.ratings, MovieScore);
      var scored := ScoreGroups(groups, MetricOr(metric));
      var top := TopByScore(scored, n);
      r := NameTop(parent.moviesMap, top);
    }

    method TopControversial(n: int) returns (r: Dict<string, real>)
      ensures r == TopByRatingsOf(parent.ratings, parent.moviesMap, n, Variance)
    {
      var groups := GroupRatings(parent.ratings, MovieScore);
      var scored := ScoreGroups(groups, Variance);
      var top := TopByScore(scored, n);
      r := NameTop(parent.moviesMap, top);
    }
  }

  /** `ratings.users`: the per-user statistics over the loaded ratings. */
  class UserQueries {
    const parent: Ratings

    constructor (parent: Ratings)
      ensures this.parent == parent
    {
      this.parent := parent;
    }

    method DistByNumOfRatings() returns (r: Dict<int, int>)
      ensures r == DistByNumOfRatingsOf(parent.ratings)
    {
      var userCounts := CountRatings(parent.ratings, UserOf);
      r := ByIntKey(Tally(Values(userCounts)));
    }

    method DistByRatings(metric: Option<seq<real> -> real>) returns (r: Dict<real, int>)
      ensures r == DistByRatingsOf(parent.ratings, MetricOr(metric))
    {
      var m := MetricOr(metric);
      var groups := GroupRatings(parent.ratings, UserScore);
      var dist: Dict<real, int> := [];
      for i := 0 to |groups|
        invariant dist == Tally(Values(Scored(groups[..i], m)))
      {
        ghost var vals := Values(Scored(groups[..i], m));
        var v := Round2(m(groups[i].1));
        ScoredValuesStep(groups, m, i);
        TallySnoc(vals, v);
        dist := Increment(dist, v);
      }
      assert groups[..|groups|] == groups;
      r := ByRealKey(dist);
    }

    method TopControversial(n: int) returns (r: Dict<int, real>)
      ensures r == UserTopControversialOf(parent.ratings, n)
    {
      var groups := GroupRatings(parent.ratings, UserScore);
      var scored := ScoreGroups(groups, Variance);
      r := FromPairs(TopByScore(scored, n));
    }
  }
}
