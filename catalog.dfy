/**
 * The `Movies` catalog: its constructor admits a movie line only when the
 * movie id is referenced in the first `limit` lines of the ratings file or of
 * the tags file, and reads at most `limit` movie lines; the catalog queries
 * count release years and genres and rank titles by genre count.
 */
module Catalog {
  import opened Wrappers
  import opened Text
  import opened Dicts
  import opened Csv
  import opened Sorting
  import opened Ranking

  /** One catalog entry: the title as written, the genre string, the release year. */
  datatype Movie = Movie(title: string, genres: string, year: Option<int>)

  // ----- the referenced ids -----

  predicate IsComma(c: char, rest: string) { c == ',' }

  /** `line.strip().split(',')`, how the ratings file's lines are split. */
  function PlainFields(line: string): seq<string> { SplitAt(Strip(line), IsComma) }

  /** `int(parts[1])` when the line has at least two fields; the `ValueError`
      of a bad id is not caught. */
  function IdOf(parts: seq<string>): Result<Option<int>, Exception> {
    if |parts| < 2 then Success(None)
    else match ParseInt(parts[1])
      case None => Failure(ValueError(parts[1]))
      case Some(id) => Success(Some(id))
  }

  /** `valid_ids.add(int(parts[1]))` over the lines in turn, stopping at the
      first line whose id does not parse. */
  function IdsFrom(lines: seq<string>, fields: string -> seq<string>): Result<set<int>, Exception>
    decreases |lines|
  {
    if lines == [] then Success({})
    else match IdsFrom(lines[..|lines| - 1], fields)
      case Failure(e) => Failure(e)
      case Success(ids) =>
        match IdOf(fields(lines[|lines| - 1]))
        case Failure(e) => Failure(e)
        case Success(None) => Success(ids)
        case Success(Some(id)) => Success(ids + {id})
  }

  /** The ids a file contributes: none when it is missing, `StopIteration` when
      it has no header line, otherwise those of its first `limit` data lines. */
  function ReferencedIds(file: Option<seq<string>>, limit: int, fields: string -> seq<string>): Result<set<int>, Exception> {
    match file
    case None => Success({})
    case Some(lines) => if lines == [] then Failure(StopIteration) else IdsFrom(Limited(lines[1..], limit), fields)
  }

  /** The ids collected are exactly those of the lines, when no id is malformed. */
  lemma IdsFromSpec(lines: seq<string>, fields: string -> seq<string>)
    ensures IdsFrom(lines, fields).Failure? <==> exists line :: line in lines && IdOf(fields(line)).Failure?
    ensures IdsFrom(lines, fields).Success? ==> forall id ::
      id in IdsFrom(lines, fields).value <==> exists line :: line in lines && IdOf(fields(line)) == Success(Some(id))
  {
    IdsFromRaises(lines, fields);
    if IdsFrom(lines, fields).Success? {
      IdsFromIds(lines, fields);
    }
  }

  lemma {:induction false} IdsFromRaises(lines: seq<string>, fields: string -> seq<string>)
    ensures IdsFrom(lines, fields).Failure? <==> exists line :: line in lines && IdOf(fields(line)).Failure?
    decreases |lines|
  {
    if lines != [] {
      var init := lines[..|lines| - 1];
      var last := lines[|lines| - 1];
      IdsFromRaises(init, fields);
      assert lines == init + [last];
      assert forall line :: line in lines <==> line in init || line == last;
    }
  }

  lemma {:induction false} IdsFromIds(lines: seq<string>, fields: string -> seq<string>)
    requires IdsFrom(lines, fields).Success?
    ensures forall id ::
      id in IdsFrom(lines, fields).value <==> exists line :: line in lines && IdOf(fields(line)) == Success(Some(id))
    decreases |lines|
  {
    if lines != [] {
      var init := lines[..|lines| - 1];
      var last := lines[|lines| - 1];
      IdsFromIds(init, fields);
      assert lines == init + [last];
      assert forall line :: line in lines <==> line in init || line == last;
    }
  }

  /** The first malformed id ends the collection: later lines are not read. */
  lemma {:induction false} IdsFromStops(lines: seq<string>, k: nat, fields: string -> seq<string>)
    requires k <= |lines|
    requires IdsFrom(lines[..k], fields).Failure?
    ensures IdsFrom(lines, fields) == IdsFrom(lines[..k], fields)
    decreases |lines| - k
  {
    if k < |lines| {
      var init := lines[..|lines| - 1];
      assert init[..k] == lines[..k];
      IdsFromStops(init, k, fields);
    } else {
      assert lines[..k] == lines;
    }
  }

  /** The first loops of the constructor: collect the referenced ids of one file. */
  method CollectIds(file: Option<seq<string>>, limit: int, fields: string -> seq<string>)
    returns (r: Result<set<int>, Exception>)
    ensures r == ReferencedIds(file, limit, fields)
  {
    if file.None? {
      return Success({});
    }
    var lines := file.value;
    if lines == [] {
      return Failure(StopIteration);
    }
    var rest := lines[1..];
    ghost var counted := Limited(rest, limit);
    var ids: set<int> := {};
    var i := 0;
    while i < |rest|
      invariant 0 <= i <= |rest| && i <= |counted|
      invariant i <= limit || i == 0
      invariant IdsFrom(counted[..i], fields) == Success(ids)
      decreases |rest| - i
    {
      if i >= limit {
        break;
      }
      assert counted[i] == rest[i];
      IdsFromNext(counted, i, fields, ids);
      var parts := fields(rest[i]);
      if |parts| >= 2 {
        var id := ParseInt(parts[1]);
        if id.None? {
          IdsFromStops(counted, i + 1, fields);
          return Failure(ValueError(parts[1]));
        }
        ids := ids + {id.value};
      }
      i := i + 1;
    }
    assert counted[..i] == counted;
    r := Success(ids);
  }

  /** One more line read: its id joins the set, or its malformed id ends the
      collection. */
  lemma IdsFromNext(lines: seq<string>, i: int, fields: string -> seq<string>, ids: set<int>)
    requires 0 <= i < |lines| && IdsFrom(lines[..i], fields) == Success(ids)
    ensures IdsFrom(lines[..i + 1], fields) ==
      match IdOf(fields(lines[i]))
      case Failure(e) => Failure(e)
      case Success(None) => Success(ids)
      case Success(Some(id)) => Success(ids + {id})
  {
    assert lines[..i + 1][..i] == lines[..i];
  }

  // ----- the release year -----

  /** `re.search(r'\((\d{4})\)$', title.strip())`: the year of a title whose
      stripped form ends in a parenthesised four-digit number. */
  function YearOf(title: string): (y: Option<int>)
    ensures y.Some? ==> 0 <= y.value <= 9999
  {
    var t := Strip(title);
    if |t| >= 6 && t[|t| - 6] == '(' && AllDigits(t[|t| - 5..|t| - 1]) && t[|t| - 1] == ')' then
      YearSuffix(t);
      Some(DigitsValue(t[|t| - 5..|t| - 1]))
    else None
  }

  /** A year is read only from a title whose stripped form ends in `(dddd)`,
      and it is the value of those digits. */
  lemma YearOfSuffix(title: string)
    ensures YearOf(title).Some? ==> EndsInYear(Strip(title), YearOf(title).value)
  {
    var t := Strip(title);
    if |t| >= 6 && t[|t| - 6] == '(' && AllDigits(t[|t| - 5..|t| - 1]) && t[|t| - 1] == ')' {
      YearSuffix(t);
    }
  }

  /** `t` ends in `(dddd)` and `year` is the value of those four digits. */
  predicate EndsInYear(t: string, year: int) {
    |t| >= 6 && AllDigits(t[|t| - 5..|t| - 1]) && t[|t| - 6..] == "(" + t[|t| - 5..|t| - 1] + ")"
    && year == DigitsValue(t[|t| - 5..|t| - 1])
  }

  lemma YearSuffix(t: string)
    requires |t| >= 6 && t[|t| - 6] == '(' && AllDigits(t[|t| - 5..|t| - 1]) && t[|t| - 1] == ')'
    ensures EndsInYear(t, DigitsValue(t[|t| - 5..|t| - 1]))
    ensures DigitsValue(t[|t| - 5..|t| - 1]) <= 9999
  {
    DigitsValueBound(t[|t| - 5..|t| - 1]);
    assert Pow10(4) == 10000;
    assert t[|t| - 6..] == [t[|t| - 6]] + t[|t| - 5..|t| - 1] + [t[|t| - 1]];
  }

  /** Stripping keeps a suffix that holds no whitespace. */
  lemma StripKeepsSuffix(s: string, k: nat)
    requires 1 <= k <= |s|
    requires forall j :: |s| - k <= j < |s| ==> !IsSpace(s[j])
    ensures |Strip(s)| >= k && Strip(s)[|Strip(s)| - k..] == s[|s| - k..]
  {
    var i := TrimStartsAt(s, IsSpace);
    KeptSuffix(s, Strip(s), i, k);
  }

  lemma KeptSuffix(s: string, t: string, i: int, k: nat)
    requires TrimmedAt(s, i, t, IsSpace) && 1 <= k <= |s|
    requires forall j :: |s| - k <= j < |s| ==> !IsSpace(s[j])
    ensures |t| >= k && t[|t| - k..] == s[|s| - k..]
  {
    assert !IsSpace(s[|s| - 1]);
    assert i + |t| == |s|;
    assert !IsSpace(s[|s| - k]);
    assert i <= |s| - k;
    var a, b := t[|t| - k..], s[|s| - k..];
    forall m | 0 <= m < k ensures a[m] == b[m] {
      assert a[m] == t[i + |t| - k + m - i] == s[|s| - k + m];
    }
    assert a == b;
  }

  /** A title whose stripped form ends in `(dddd)` has year `dddd`. */
  lemma YearOfStripped(title: string, digits: string)
    requires |digits| == 4 && AllDigits(digits)
    requires |Strip(title)| >= 6 && Strip(title)[|Strip(title)| - 6..] == "(" + digits + ")"
    ensures YearOf(title) == Some(DigitsValue(digits))
  {
    var t := Strip(title);
    var n := |t|;
    var s := t[n - 6..];
    assert s[0] == '(' && s[5] == ')' && s[1..5] == digits;
    assert t[n - 6] == s[0] && t[n - 1] == s[5];
    assert t[n - 5..n - 1] == s[1..5];
  }

  /** A title written as `name (yyyy)` has release year `yyyy`. */
  lemma YearOfTitle(name: string, y: int)
    requires 1000 <= y <= 9999
    ensures YearOf(name + " (" + IntToString(y) + ")") == Some(y)
  {
    assert IntToString(y) == NatToString(y);
    NatToStringFour(y);
    NatToStringValue(y);
    YearOfDigits(name, NatToString(y), y);
  }

  /** A name followed by four digits in parentheses has those digits' value as year. */
  lemma YearOfDigits(name: string, digits: string, y: int)
    requires |digits| == 4 && AllDigits(digits) && DigitsValue(digits) == y
    ensures YearOf(name + " (" + digits + ")") == Some(y)
  {
    var title := name + " (" + digits + ")";
    TitleSuffix(name, digits, title);
    StripKeepsSuffix(title, 6);
    YearOfStripped(title, digits);
  }

  /** The last six characters of `name (dddd)` are the parenthesised year. */
  lemma TitleSuffix(name: string, digits: string, title: string)
    requires |digits| == 4 && title == name + " (" + digits + ")"
    ensures |title| >= 6 && title[|title| - 6..] == "(" + digits + ")"
    ensures forall j :: |title| - 6 <= j < |title| ==> title[j] == ("(" + digits + ")")[j - (|title| - 6)]
  {
  }

  // ----- admitting movie lines -----

  /** The entry one line of the movies file contributes: none when it has
      fewer than two fields, a malformed id (the exception is caught) or an id
      that is not referenced. */
  function Admit(line: string, valid: set<int>): Option<(int, Movie)> {
    AdmitFields(ParseCsvLine(line), valid)
  }

  function AdmitFields(parts: seq<string>, valid: set<int>): Option<(int, Movie)> {
    if |parts| < 2 then None
    else match ParseInt(parts[0])
      case None => None
      case Some(id) =>
        if id !in valid then None
        else Some((id, Movie(parts[1], if |parts| > 2 then parts[2] else "", YearOf(parts[1]))))
  }

  /** The entries the lines contribute, in order. */
  function Admitted(lines: seq<string>, valid: set<int>): seq<(int, Movie)>
    decreases |lines|
  {
    if lines == [] then []
    else
      var prev := Admitted(lines[..|lines| - 1], valid);
      match Admit(lines[|lines| - 1], valid)
      case Some(p) => prev + [p]
      case None => prev
  }

  /** `self.movies[movie_id] = {...}` for each admitted line: a later line with
      the same id overwrites an earlier one. */
  function CatalogFrom(lines: seq<string>, valid: set<int>): Dict<int, Movie> {
    FromPairs(Admitted(lines, valid))
  }

  /** What the constructor leaves in `self.movies`, or the exception it raises. */
  function LoadCatalog(moviesFile: Option<seq<string>>, ratingsFile: Option<seq<string>>,
                       tagsFile: Option<seq<string>>, limit: int): Result<Dict<int, Movie>, Exception>
  {
    match ReferencedIds(ratingsFile, limit, PlainFields)
    case Failure(e) => Failure(e)
    case Success(rated) =>
      match ReferencedIds(tagsFile, limit, ParseCsvLine)
      case Failure(e) => Failure(e)
      case Success(tagged) =>
        match moviesFile
        case None => Success([])
        case Some(lines) =>
          if lines == [] then Failure(StopIteration)
          else Success(CatalogFrom(Limited(lines[1..], limit), rated + tagged))
  }

  /** One more line read: the catalog gains the line's entry, if any. */
  lemma CatalogStep(lines: seq<string>, valid: set<int>, i: int, a: Option<(int, Movie)>)
    requires 0 <= i < |lines| && a == Admit(lines[i], valid)
    ensures a.Some? ==> CatalogFrom(lines[..i + 1], valid) == Put(CatalogFrom(lines[..i], valid), a.value.0, a.value.1)
    ensures a.None? ==> CatalogFrom(lines[..i + 1], valid) == CatalogFrom(lines[..i], valid)
  {
    assert lines[..i + 1][..i] == lines[..i];
    var ps := Admitted(lines[..i], valid);
    if a.Some? {
      assert Admitted(lines[..i + 1], valid) == ps + [a.value];
      assert (ps + [a.value])[..|ps|] == ps;
    }
  }

  lemma {:induction false} AdmittedSpec(lines: seq<string>, valid: set<int>)
    ensures forall p :: p in Admitted(lines, valid) <==> exists line :: line in lines && Admit(line, valid) == Some(p)
    decreases |lines|
  {
    if lines != [] {
      var init := lines[..|lines| - 1];
      AdmittedSpec(init, valid);
      assert lines == init + [lines[|lines| - 1]];
      assert forall line :: line in lines <==> line in init || line == lines[|lines| - 1];
    }
  }

  /** A movie is in the catalog exactly when one of the lines read admits its
      id, which is then a referenced id; its entry is the last such line's, and
      its year is the year of its stored title. */
  lemma CatalogSpec(lines: seq<string>, valid: set<int>, id: int)
    ensures DistinctKeys(CatalogFrom(lines, valid))
    ensures id in KeySet(CatalogFrom(lines, valid)) <==>
      exists line :: line in lines && Admit(line, valid).Some? && Admit(line, valid).value.0 == id
    ensures Get(CatalogFrom(lines, valid), id) == LastValue(Admitted(lines, valid), id)
    ensures Get(CatalogFrom(lines, valid), id).Some? ==>
      var m := Get(CatalogFrom(lines, valid), id).value;
      id in valid && m.year == YearOf(m.title)
  {
    var ps := Admitted(lines, valid);
    FromPairsShape(ps);
    FromPairsGet(ps, id);
    LastValueIn(ps, id);
    AdmittedSpec(lines, valid);
    if id in KeySet(ps) {
      var i :| 0 <= i < |ps| && ps[i].0 == id;
      assert ps[i] in ps;
    }
    if line :| line in lines && Admit(line, valid).Some? && Admit(line, valid).value.0 == id {
      assert Admit(line, valid).value in ps;
    }
  }

  // ----- the catalog queries -----

  /** The release years of the movies that have one, in order. */
  function YearsOf(ms: seq<Movie>): (ys: seq<int>)
    ensures |ys| <= |ms|
    ensures forall y :: y in ys <==> exists m :: m in ms && m.year == Some(y)
    decreases |ms|
  {
    if ms == [] then []
    else
      var init := ms[..|ms| - 1];
      var last := ms[|ms| - 1];
      assert ms == init + [last];
      assert forall m :: m in ms <==> m in init || m == last;
      var prev := YearsOf(init);
      if last.year.Some? then prev + [last.year.value] else prev
  }

  /** 1 for a movie with a release year, 0 for one without. */
  function Dated(m: Movie): int { if m.year.Some? then 1 else 0 }

  lemma {:induction false} YearsOfDated(ms: seq<Movie>)
    ensures |YearsOf(ms)| == SumOf(ms, Dated)
    decreases |ms|
  {
    if ms != [] {
      YearsOfDated(ms[..|ms| - 1]);
    }
  }

  /** `dist_by_release`: the number of movies per release year, most frequent
      year first; yearless movies are skipped. */
  function ReleaseDistribution(catalog: Dict<int, Movie>): Dict<int, int> {
    ByCountDesc(Tally(YearsOf(Values(catalog))))
  }

  /** Each year maps to the number of catalog movies released that year, the
      counts never increase along the result, and they add up to the number
      of movies that have a year. */
  lemma ReleaseDistributionSpec(catalog: Dict<int, Movie>, y: int)
    ensures NonIncreasing(ReleaseDistribution(catalog))
    ensures DistinctKeys(ReleaseDistribution(catalog))
    ensures Get(ReleaseDistribution(catalog), y) ==
      if exists m :: m in Values(catalog) && m.year == Some(y)
      then Some(multiset(YearsOf(Values(catalog)))[y]) else None
    ensures SumOf(ReleaseDistribution(catalog), Count) == SumOf(Values(catalog), Dated)
  {
    var ys := YearsOf(Values(catalog));
    TallyDistinct(ys);
    TallyGet(ys, y);
    TallyTotal(ys);
    ByCountDescSpec(Tally(ys));
    SumOfPermutation(ReleaseDistribution(catalog), Tally(ys), Count);
    YearsOfDated(Values(catalog));
  }

  const NoGenres := "(no genres listed)"

  /** `genres.split('|')`, or nothing when the field is empty or says
      `(no genres listed)`. */
  function GenresOf(genres: string): seq<string> {
    if genres == "" || genres == NoGenres then [] else SplitAt(genres, IsPipe)
  }

  /** The genre count `most_genres` gives a movie. */
  function GenreCount(m: Movie): int { |GenresOf(m.genres)| }

  /** A listed genre string has one genre more than it has `|` separators;
      no genre holds a `|`, and joining the genres back gives the field. */
  lemma GenresOfSpec(genres: string)
    ensures |GenresOf(genres)| == if genres == "" || genres == NoGenres then 0 else multiset(genres)['|'] + 1
    ensures forall g :: g in GenresOf(genres) ==> '|' !in g
    ensures genres != NoGenres ==> JoinWith(GenresOf(genres), '|') == genres
  {
    if genres != "" && genres != NoGenres {
      SplitCount(genres, IsPipe);
      CountPipes(genres);
      SplitPipeClean(genres);
      SplitJoin(genres, IsPipe, '|');
    }
  }

  /** Every genre of every movie, in catalog order: what the counter is
      updated with. */
  function GenreTokens(ms: seq<Movie>): seq<string>
    decreases |ms|
  {
    if ms == [] then [] else GenreTokens(ms[..|ms| - 1]) + GenresOf(ms[|ms| - 1].genres)
  }

  lemma {:induction false} GenreTokensSpec(ms: seq<Movie>)
    ensures |GenreTokens(ms)| == SumOf(ms, GenreCount)
    ensures forall g :: g in GenreTokens(ms) <==> exists m :: m in ms && g in GenresOf(m.genres)
    decreases |ms|
  {
    if ms != [] {
      var init := ms[..|ms| - 1];
      GenreTokensSpec(init);
      assert ms == init + [ms[|ms| - 1]];
      assert forall m :: m in ms <==> m in init || m == ms[|ms| - 1];
    }
  }

  lemma GenreTokensSnoc(ms: seq<Movie>, i: int)
    requires 0 <= i < |ms|
    ensures GenreTokens(ms[..i + 1]) == GenreTokens(ms[..i]) + GenresOf(ms[i].genres)
    ensures GenresOf(ms[i].genres) == [] ==> GenreTokens(ms[..i + 1]) == GenreTokens(ms[..i])
  {
    assert ms[..i + 1][..i] == ms[..i];
  }

  /** `dist_by_genres`: the number of genre mentions per genre, most frequent
      first. */
  function GenreDistribution(catalog: Dict<int, Movie>): Dict<string, int> {
    ByCountDesc(Tally(GenreTokens(Values(catalog))))
  }

  /** Each genre maps to the number of times it is listed across the catalog
      (present exactly when some movie lists it), the counts never increase,
      no key holds a `|`, and the counts add up to the movies' genre counts. */
  lemma GenreDistributionSpec(catalog: Dict<int, Movie>, g: string)
    ensures NonIncreasing(GenreDistribution(catalog))
    ensures DistinctKeys(GenreDistribution(catalog))
    ensures Get(GenreDistribution(catalog), g) ==
      if exists m :: m in Values(catalog) && g in GenresOf(m.genres)
      then Some(multiset(GenreTokens(Values(catalog)))[g]) else None
    ensures Get(GenreDistribution(catalog), g).Some? ==> '|' !in g
    ensures SumOf(GenreDistribution(catalog), Count) == SumOf(Values(catalog), GenreCount)
  {
    var ts := GenreTokens(Values(catalog));
    GenreTokensSpec(Values(catalog));
    TallyDistinct(ts);
    TallyGet(ts, g);
    TallyTotal(ts);
    ByCountDescSpec(Tally(ts));
    SumOfPermutation(GenreDistribution(catalog), Tally(ts), Count);
    if g in ts {
      var m :| m in Values(catalog) && g in GenresOf(m.genres);
      GenresOfSpec(m.genres);
    }
  }

  /** The `(title, genre count)` pairs, one per movie. */
  function TitlePairs(ms: seq<Movie>): seq<(string, int)> {
    seq(|ms|, i requires 0 <= i < |ms| => (ms[i].title, GenreCount(ms[i])))
  }

  lemma TitlePairsSnoc(ms: seq<Movie>, i: int)
    requires 0 <= i < |ms|
    ensures TitlePairs(ms[..i + 1]) == TitlePairs(ms[..i]) + [(ms[i].title, GenreCount(ms[i]))]
  {
  }

  /** `counts[m['title']] = count` over the catalog: a later movie with the
      same title overwrites an earlier one. */
  function TitleCounts(catalog: Dict<int, Movie>): Dict<string, int> {
    FromPairs(TitlePairs(Values(catalog)))
  }

  /** `most_genres(n)`. */
  function GenreLeaders(catalog: Dict<int, Movie>, n: int): Dict<string, int> {
    TopByCount(TitleCounts(catalog), n)
  }

  /** The titles counted are exactly the catalog's titles, each with the genre
      count of the last movie carrying it. */
  lemma TitleCountsSpec(catalog: Dict<int, Movie>, t: string)
    ensures DistinctKeys(TitleCounts(catalog))
    ensures t in KeySet(TitleCounts(catalog)) <==> exists m :: m in Values(catalog) && m.title == t
    ensures Get(TitleCounts(catalog), t).Some? ==>
      exists m :: m in Values(catalog) && m.title == t && GenreCount(m) == Get(TitleCounts(catalog), t).value
  {
    var ms := Values(catalog);
    var ps := TitlePairs(ms);
    FromPairsShape(ps);
    TitlePairsKey(ms, t);
    FromPairsGet(ps, t);
    LastValueIn(ps, t);
    if Get(TitleCounts(catalog), t).Some? {
      TitlePairsValue(ms, t, Get(TitleCounts(catalog), t).value);
    }
  }

  /** A title is paired exactly when some movie carries it. */
  lemma TitlePairsKey(ms: seq<Movie>, t: string)
    ensures t in KeySet(TitlePairs(ms)) <==> exists m :: m in ms && m.title == t
  {
    var ps := TitlePairs(ms);
    if t in KeySet(ps) {
      var i :| 0 <= i < |ps| && ps[i].0 == t;
      assert ms[i] in ms;
    }
    if m :| m in ms && m.title == t {
      var i :| 0 <= i < |ms| && ms[i] == m;
      assert ps[i].0 == t;
    }
  }

  /** Every pair is a movie's title and genre count. */
  lemma TitlePairsValue(ms: seq<Movie>, t: string, c: int)
    requires (t, c) in TitlePairs(ms)
    ensures exists m :: m in ms && m.title == t && GenreCount(m) == c
  {
    var ps := TitlePairs(ms);
    var i :| 0 <= i < |ps| && ps[i] == (t, c);
    assert ms[i] in ms;
  }

  /** `most_genres(n)` is a top-n selection of the title counts: at most `n`
      titles (for `n >= 0`), genre counts never increasing, none smaller than a
      title left out, each the genre count of a catalog movie with that title. */
  lemma GenreLeadersSpec(catalog: Dict<int, Movie>, n: int)
    ensures IsTopCount(GenreLeaders(catalog, n), TitleCounts(catalog), n)
    ensures n >= 0 ==> |GenreLeaders(catalog, n)| <= n
    ensures DistinctKeys(GenreLeaders(catalog, n))
    ensures forall e :: e in GenreLeaders(catalog, n) ==>
      exists m :: m in Values(catalog) && m.title == e.0 && GenreCount(m) == e.1
  {
    var counts := TitleCounts(catalog);
    TopByCountIsTop(counts, n);
    FromPairsShape(TitlePairs(Values(catalog)));
    forall e | e in GenreLeaders(catalog, n)
      ensures exists m :: m in Values(catalog) && m.title == e.0 && GenreCount(m) == e.1
    {
      GetIffEntry(counts, e.0);
      TitleCountsSpec(catalog, e.0);
    }
  }

  // ----- the class -----

  /** The `Movies` object: the catalog its constructor builds and the row limit. */
  class Movies {
    var movies: Dict<int, Movie>
    const limit: int

    constructor Empty(limit: int)
      ensures movies == [] && this.limit == limit
    {
      movies := [];
      this.limit := limit;
    }

    /** The third loop of the constructor: admit the first `limit` data lines
        of the movies file whose ids are referenced. */
    method ReadMovies(rest: seq<string>, valid: set<int>)
      requires movies == []
      modifies this
      ensures movies == CatalogFrom(Limited(rest, limit), valid)
    {
      ghost var read := Limited(rest, limit);
      var i := 0;
      while i < |rest|
        invariant 0 <= i <= |rest| && (i <= limit || i == 0)
        invariant movies == CatalogFrom(read[..i], valid)
        decreases |rest| - i
      {
        if i >= limit {
          break;
        }
        assert read[i] == rest[i];
        // the body of the `try`: parse the line and keep a referenced id
        var entry := Admit(rest[i], valid);
        CatalogStep(read, valid, i, entry);
        if entry.Some? {
          movies := Put(movies, entry.value.0, entry.value.1);
        }
        i := i + 1;
      }
      assert read[..i] == read;
    }

    /** `dist_by_genres`: the counter is updated with the genres of each movie
        whose genre field is listed. */
    method DistByGenres() returns (r: Dict<string, int>)
      ensures r == GenreDistribution(movies)
    {
      var vals := Values(movies);
      var counter: Dict<string, int> := [];
      for i := 0 to |vals|
        invariant counter == Tally(GenreTokens(vals[..i]))
      {
        ghost var before := GenreTokens(vals[..i]);
        GenreTokensSnoc(vals, i);
        var info := vals[i];
        if info.genres != "" && info.genres != NoGenres {
          var genres := SplitAt(info.genres, IsPipe);
          TallyConcat(before, genres);
          counter := Update(counter, genres);
        } else {
          assert GenresOf(info.genres) == [];
        }
      }
      assert vals[..|vals|] == vals;
      r := ByCountDesc(counter);
    }

    /** `most_genres(n)`: count each title's genres, then keep the `n` largest. */
    method MostGenres(n: int) returns (r: Dict<string, int>)
      ensures r == GenreLeaders(movies, n)
    {
      var vals := Values(movies);
      var counts: Dict<string, int> := [];
      for i := 0 to |vals|
        invariant counts == FromPairs(TitlePairs(vals[..i]))
      {
        var m := vals[i];
        var count;
        if m.genres == "" || m.genres == NoGenres {
          count := 0;
        } else {
          count := |SplitAt(m.genres, IsPipe)|;
        }
        TitlePairsSnoc(vals, i);
        FromPairsSnoc(TitlePairs(vals[..i]), (m.title, count));
        counts := Put(counts, m.title, count);
      }
      assert vals[..|vals|] == vals;
      r := TopByCount(counts, n);
    }

    /** `Movies(path, limit)`, given the movies file and the ratings and tags
        files beside it (`None` when absent): the three counted loops of the
        constructor, or the exception that escapes them. */
    static method Open(moviesFile: Option<seq<string>>, ratingsFile: Option<seq<string>>,
                       tagsFile: Option<seq<string>>, limit: int)
      returns (r: Result<Movies, Exception>)
      ensures r.Success? <==> LoadCatalog(moviesFile, ratingsFile, tagsFile, limit).Success?
      ensures r.Failure? ==> r.error == LoadCatalog(moviesFile, ratingsFile, tagsFile, limit).error
      ensures r.Success? ==> (fresh(r.value) && r.value.limit == limit
        && r.value.movies == LoadCatalog(moviesFile, ratingsFile, tagsFile, limit).value)
    {
      var rated := CollectIds(ratingsFile, limit, PlainFields);
      if rated.Failure? {
        return Failure(rated.error);
      }
      var tagged := CollectIds(tagsFile, limit, ParseCsvLine);
      if tagged.Failure? {
        return Failure(tagged.error);
      }
      var valid := rated.value + tagged.value;
      var m := new Movies.Empty(limit);
      if moviesFile.None? {
        return Success(m);
      }
      var lines := moviesFile.value;
      if lines == [] {
        return Failure(StopIteration);
      }
      m.ReadMovies(lines[1..], valid);
      return Success(m);
    }
  }
}
