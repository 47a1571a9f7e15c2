/**
 * The `Links` enrichment: the links file's movie-id-to-IMDb-id map, the
 * movie titles, a cache of scraped IMDb records filled on demand from a
 * fetch oracle (the HTTP request and the HTML extraction), the `get_imdb`
 * table, and the rankings of the cached records: directors by number of
 * movies, and movies by budget, profit, runtime and cost per minute.
 */
module Enrichment {
  import opened Wrappers
  import opened Text
  import opened Dicts
  import opened Csv
  import opened Sorting
  import opened Ranking
  import opened Metrics
  import opened RatingAnalytics

  // ----- records and pages -----

  /** One cached IMDb record: director, budget, worldwide gross, runtime in minutes. */
  datatype Info = Info(director: Option<string>, budget: real, gross: real, runtime: int)

  /** The record a scrape starts from, and keeps when the request fails. */
  const Defaults: Info := Info(None, 0.0, 0.0, 0)

  /** What the fetch oracle extracts from a title page that answered with
      status 200: the director (from the JSON-LD block or the credits list),
      the JSON-LD `duration` text, and the budget and worldwide gross amounts
      found in the page text. `None` is a field the page does not yield. */
  datatype Page = Page(director: Option<string>, duration: Option<string>, budget: Option<real>, gross: Option<real>)

  /** The fetch oracle: `None` when the request raises or answers with
      another status. */
  type Fetch = string -> Option<Page>

  const TitleUrl: string := "https://www.imdb.com/title/tt"

  /** The page requested for an IMDb id. */
  function Url(imdbId: string): string {
    TitleUrl + imdbId + "/"
  }

  /** Different ids request different pages. */
  lemma UrlInjective(a: string, b: string)
    requires Url(a) == Url(b)
    ensures a == b
  {
    var n := |TitleUrl|;
    assert |a| == |b|;
    assert a == Url(a)[n..n + |a|];
    assert b == Url(b)[n..n + |b|];
  }

  // ----- the duration token -----

  /** `PT` starts at this position. */
  predicate IsDesignator(c: char, rest: string) {
    c == 'P' && rest != [] && rest[0] == 'T'
  }

  /** The end of the run of ASCII digits that starts at `i`. */
  function DigitsEnd(s: string, i: nat): (j: nat)
    requires i <= |s|
    ensures i <= j <= |s|
    ensures forall k :: i <= k < j ==> IsDigit(s[k])
    ensures j < |s| ==> !IsDigit(s[j])
    decreases |s| - i
  {
    if i < |s| && IsDigit(s[i]) then DigitsEnd(s, i + 1) else i
  }

  /** The optional group `(?:(\d+)X)?` tried at `i`: the number and the
      position after the unit letter when digits followed by `unit` are
      there, otherwise 0 and `i` itself. */
  function Component(s: string, i: nat, unit: char): (r: (nat, nat))
    requires i <= |s|
    ensures i <= r.1 <= |s|
  {
    var j := DigitsEnd(s, i);
    if i < j < |s| && s[j] == unit then
      assert forall k :: 0 <= k < j - i ==> s[i..j][k] == s[i + k];
      (DigitsValue(s[i..j]), j + 1)
    else (0, i)
  }

  /** `re.search(r'PT(?:(\d+)H)?(?:(\d+)M)?', s)` turned into minutes: at the
      first `PT`, hours then minutes, each 0 when absent; `None` when `s` has
      no `PT` at all. */
  function ParseDuration(s: string): (r: Option<nat>)
  {
    var p := FindSep(s, IsDesignator);
    if p == |s| then None
    else
      var (h, k) := Component(s, p + 2, 'H');
      var (m, _) := Component(s, k, 'M');
      Some(h * 60 + m)
  }

  /** The search fails exactly when the text has no `PT`. */
  lemma ParseDurationNone(s: string)
    ensures ParseDuration(s).None? <==> forall j :: 0 <= j < |s| ==> !SepAt(s, IsDesignator, j)
  {
  }

  /** The hours part of `PT{h}H{m}M`. */
  function HoursText(h: Option<nat>): string {
    if h.Some? then NatToString(h.value) + "H" else ""
  }

  /** The ISO 8601 duration `PT{h}H{m}M`, either part optional. */
  function IsoDuration(h: Option<nat>, m: Option<nat>): string {
    "PT" + HoursText(h) + (if m.Some? then NatToString(m.value) + "M" else "")
  }

  /** A digit run that stops before a non-digit (or the end) is read whole. */
  lemma {:induction false} DigitsEndAt(s: string, i: nat, digits: string)
    requires i + |digits| <= |s| && s[i..i + |digits|] == digits
    requires forall k :: 0 <= k < |digits| ==> IsDigit(digits[k])
    requires i + |digits| < |s| ==> !IsDigit(s[i + |digits|])
    ensures DigitsEnd(s, i) == i + |digits|
    decreases |digits|
  {
    if digits != [] {
      assert s[i] == digits[0];
      assert s[i + 1..i + 1 + |digits[1..]|] == digits[1..];
      DigitsEndAt(s, i + 1, digits[1..]);
    }
  }

  /** `NatToString(n)` followed by `unit` after `pre` reads as `n`. */
  lemma ComponentPresent(pre: string, n: nat, unit: char, post: string)
    requires !IsDigit(unit)
    ensures var s := pre + NatToString(n) + [unit] + post;
      Component(s, |pre|, unit) == (n, |pre| + |NatToString(n)| + 1)
  {
    var d := NatToString(n);
    var s := pre + d + [unit] + post;
    assert s[|pre|..|pre| + |d|] == d;
    assert s[|pre| + |d|] == unit;
    DigitsEndAt(s, |pre|, d);
    NatToStringValue(n);
  }

  /** Digits followed by another non-digit are not this component. */
  lemma ComponentOther(pre: string, n: nat, other: char, unit: char, post: string)
    requires !IsDigit(other) && other != unit
    ensures Component(pre + NatToString(n) + [other] + post, |pre|, unit) == (0, |pre|)
  {
    var d := NatToString(n);
    var s := pre + d + [other] + post;
    assert s[|pre|..|pre| + |d|] == d;
    assert s[|pre| + |d|] == other;
    DigitsEndAt(s, |pre|, d);
  }

  /** At the end of the text there is no component. */
  lemma ComponentAtEnd(s: string, unit: char)
    ensures Component(s, |s|, unit) == (0, |s|)
  {
  }

  /** A text that starts with `PT` is read from position 2. */
  lemma DesignatorFirst(s: string, h: nat, k: nat, m: nat)
    requires |s| >= 2 && s[..2] == "PT"
    requires Component(s, 2, 'H') == (h, k) && Component(s, k, 'M').0 == m
    ensures ParseDuration(s) == Some(h * 60 + m)
  {
    assert SepAt(s, IsDesignator, 0);
    assert FindSep(s, IsDesignator) == 0;
  }

  lemma IsoDurationStart(h: Option<nat>, m: Option<nat>)
    ensures |IsoDuration(h, m)| >= 2 && IsoDuration(h, m)[..2] == "PT"
  {
  }

  /** The hours of a duration are read from position 2. */
  lemma HoursRead(h: Option<nat>, m: Option<nat>)
    ensures Component(IsoDuration(h, m), 2, 'H') == (h.GetOr(0), 2 + |HoursText(h)|)
  {
    var s := IsoDuration(h, m);
    var ms := if m.Some? then NatToString(m.value) + "M" else "";
    if h.Some? {
      assert s == "PT" + NatToString(h.value) + ['H'] + ms;
      ComponentPresent("PT", h.value, 'H', ms);
    } else if m.Some? {
      assert s == "PT" + NatToString(m.value) + ['M'] + "";
      ComponentOther("PT", m.value, 'M', 'H', "");
    } else {
      ComponentAtEnd(s, 'H');
    }
  }

  /** The minutes of a duration are read after its hours. */
  lemma MinutesRead(h: Option<nat>, m: Option<nat>)
    ensures Component(IsoDuration(h, m), 2 + |HoursText(h)|, 'M').0 == m.GetOr(0)
  {
    var s := IsoDuration(h, m);
    var hs := HoursText(h);
    if m.Some? {
      assert s == "PT" + hs + NatToString(m.value) + ['M'] + "";
      ComponentPresent("PT" + hs, m.value, 'M', "");
    } else {
      assert s == "PT" + hs;
      ComponentAtEnd(s, 'M');
    }
  }

  /** The parser reads back the duration it is given: `h` hours and `m`
      minutes are `h * 60 + m` minutes, a missing part counting as 0. */
  lemma DurationRoundTrip(h: Option<nat>, m: Option<nat>)
    ensures ParseDuration(IsoDuration(h, m)) == Some(h.GetOr(0) * 60 + m.GetOr(0))
  {
    IsoDurationStart(h, m);
    HoursRead(h, m);
    MinutesRead(h, m);
    DesignatorFirst(IsoDuration(h, m), h.GetOr(0), 2 + |HoursText(h)|, m.GetOr(0));
  }

  // ----- the cache -----

  /** The record `_scrape_imdb` stores for a page: the defaults, overwritten by
      what the page yields; a duration with no `PT` leaves the runtime at 0. */
  function Filled(page: Option<Page>): Info {
    match page
    case None => Defaults
    case Some(p) =>
      var runtime := if p.duration.Some? then ParseDuration(p.duration.value).GetOr(0) else 0;
      Info(p.director, p.budget.GetOr(0.0), p.gross.GetOr(0.0), runtime)
  }

  /** A failed request stores the defaults; a page stores its fields, the
      defaults standing in for those it does not yield, and the runtime of an
      ISO 8601 duration. */
  lemma FilledSpec(page: Option<Page>, h: Option<nat>, m: Option<nat>)
    ensures page.None? ==> Filled(page) == Defaults
    ensures page.Some? ==> var (p, info) := (page.value, Filled(page));
      info.director == p.director
      && info.budget == (if p.budget.Some? then p.budget.value else Defaults.budget)
      && info.gross == (if p.gross.Some? then p.gross.value else Defaults.gross)
      && (p.duration.None? ==> info.runtime == Defaults.runtime)
      && (p.duration == Some(IsoDuration(h, m)) ==> info.runtime == h.GetOr(0) * 60 + m.GetOr(0))
      && info.runtime >= 0
  {
    DurationRoundTrip(h, m);
  }

  /** The cache after `_scrape_imdb(imdbId)`: unchanged when the id is cached,
      otherwise with the id mapped to the record filled from its page. */
  function Scraped(cache: map<string, Info>, imdbId: string, fetch: Fetch): (c: map<string, Info>)
    ensures imdbId in c && c.Keys == cache.Keys + {imdbId}
    ensures imdbId in cache ==> c == cache
    ensures imdbId !in cache ==> c[imdbId] == Filled(fetch(Url(imdbId)))
    ensures forall k :: k in cache ==> c[k] == cache[k]
  {
    if imdbId in cache then cache else cache[imdbId := Filled(fetch(Url(imdbId)))]
  }

  /** A second scrape of the same id fetches nothing, whatever the oracle
      would now answer. */
  lemma ScrapedTwice(cache: map<string, Info>, imdbId: string, fetch: Fetch, later: Fetch)
    ensures Scraped(Scraped(cache, imdbId, fetch), imdbId, later) == Scraped(cache, imdbId, fetch)
  {
  }

  // ----- the links file -----

  /** The pairs `{row['movieId']: row['imdbId'] for row in rows if 'imdbId'
      in row}` assigns, in row order, or the `KeyError` of the first row that
      has an `imdbId` and no `movieId`. */
  function LinkPairs(rows: seq<Row>): Result<seq<(string, string)>, Exception>
    decreases |rows|
  {
    if rows == [] then Success([])
    else
      match LinkPairs(rows[..|rows| - 1])
      case Failure(e) => Failure(e)
      case Success(ps) =>
        var row := rows[|rows| - 1];
        match Get(row, "imdbId")
        case None => Success(ps)
        case Some(imdb) =>
          match Get(row, "movieId")
          case None => Failure(KeyError("movieId"))
          case Some(mid) => Success(ps + [(mid, imdb)])
  }

  /** This row enters the map as the pair `(mid, imdb)`. */
  predicate LinksTo(row: Row, mid: string, imdb: string) {
    Get(row, "imdbId") == Some(imdb) && Get(row, "movieId") == Some(mid)
  }

  /** The comprehension raises exactly when some row has an `imdbId` and no
      `movieId`, and then raises `KeyError('movieId')`. */
  lemma {:induction false} LinkPairsRaise(rows: seq<Row>)
    ensures LinkPairs(rows).Success?
      <==> forall i :: 0 <= i < |rows| && Get(rows[i], "imdbId").Some? ==> Get(rows[i], "movieId").Some?
    ensures LinkPairs(rows).Failure? ==> LinkPairs(rows).error == KeyError("movieId")
    decreases |rows|
  {
    if rows != [] {
      var init := rows[..|rows| - 1];
      LinkPairsRaise(init);
      assert forall i :: 0 <= i < |init| ==> init[i] == rows[i];
    }
  }

  /** Otherwise its pairs are those of the rows that have an `imdbId`, one
      per such row. */
  lemma {:induction false} LinkPairsFrom(rows: seq<Row>, p: (string, string))
    requires LinkPairs(rows).Success?
    ensures |LinkPairs(rows).value| <= |rows|
    ensures p in LinkPairs(rows).value <==> exists i :: 0 <= i < |rows| && LinksTo(rows[i], p.0, p.1)
    decreases |rows|
  {
    if rows != [] {
      var init := rows[..|rows| - 1];
      LinkPairsFrom(init, p);
      assert forall i :: 0 <= i < |init| ==> init[i] == rows[i];
      if p in LinkPairs(rows).value && p !in LinkPairs(init).value {
        assert LinksTo(rows[|rows| - 1], p.0, p.1);
      }
    }
  }

  /** `movie_imdb_map`: the map built from the pairs, or the exception. */
  function ImdbMap(rows: seq<Row>): Result<Dict<string, string>, Exception> {
    match LinkPairs(rows)
    case Failure(e) => Failure(e)
    case Success(ps) => Success(FromPairs(ps))
  }

  /** The keys of the pairs are the movie ids of the rows with an `imdbId`. */
  lemma LinkPairsKeys(rows: seq<Row>, mid: string)
    requires LinkPairs(rows).Success?
    ensures mid in KeySet(LinkPairs(rows).value)
      <==> exists i :: 0 <= i < |rows| && Get(rows[i], "imdbId").Some? && Get(rows[i], "movieId") == Some(mid)
  {
    var ps := LinkPairs(rows).value;
    if mid in KeySet(ps) {
      var p :| p in ps && p.0 == mid;
      LinkPairsFrom(rows, p);
      var i :| 0 <= i < |rows| && LinksTo(rows[i], p.0, p.1);
    }
    if exists i :: 0 <= i < |rows| && Get(rows[i], "imdbId").Some? && Get(rows[i], "movieId") == Some(mid) {
      var i :| 0 <= i < |rows| && Get(rows[i], "imdbId").Some? && Get(rows[i], "movieId") == Some(mid);
      var p := (mid, Get(rows[i], "imdbId").value);
      assert LinksTo(rows[i], p.0, p.1);
      LinkPairsFrom(rows, p);
    }
  }

  /** A built map has distinct movie ids, exactly those of the rows with an
      `imdbId`. */
  lemma ImdbMapKeys(rows: seq<Row>, mid: string)
    requires ImdbMap(rows).Success?
    ensures DistinctKeys(ImdbMap(rows).value)
    ensures mid in KeySet(ImdbMap(rows).value)
      <==> exists i :: 0 <= i < |rows| && Get(rows[i], "imdbId").Some? && Get(rows[i], "movieId") == Some(mid)
  {
    FromPairsShape(LinkPairs(rows).value);
    LinkPairsKeys(rows, mid);
  }

  /** Each movie id maps to the `imdbId` of its last row: a later row
      overwrites an earlier one. */
  lemma ImdbMapLast(rows: seq<Row>, mid: string)
    requires ImdbMap(rows).Success?
    ensures Get(ImdbMap(rows).value, mid) == LastValue(LinkPairs(rows).value, mid)
  {
    FromPairsGet(LinkPairs(rows).value, mid);
  }

  /** `get_ids(n)` over rows: the `movieId` of each row, or `KeyError` at the
      first row without one. */
  function IdsOf(rows: seq<Row>): (r: Result<seq<string>, Exception>)
    ensures r.Success? <==> forall i :: 0 <= i < |rows| ==> Get(rows[i], "movieId").Some?
    ensures r.Failure? ==> r.error == KeyError("movieId")
    ensures r.Success? ==> (|r.value| == |rows|
      && forall i :: 0 <= i < |rows| ==> Get(rows[i], "movieId") == Some(r.value[i]))
    decreases |rows|
  {
    if rows == [] then Success([])
    else
      var init := rows[..|rows| - 1];
      assert forall i :: 0 <= i < |init| ==> init[i] == rows[i];
      match IdsOf(init)
      case Failure(e) => Failure(e)
      case Success(ids) =>
        match Get(rows[|rows| - 1], "movieId")
        case None => Failure(KeyError("movieId"))
        case Some(mid) => Success(ids + [mid])
  }

  // ----- titles -----

  /** The title shown for a movie that has none: `Фильм {mid}`. */
  function FallbackTitle(mid: string): string {
    "Фильм " + mid
  }

  /** `_get_title(mid)`: the title stored under `int(mid)`, or the fallback
      built from `mid` as given; `ValueError` when `mid` is no integer. */
  function LookupTitle(titles: Dict<int, string>, mid: string): (r: Result<string, Exception>)
    ensures r.Failure? <==> ParseInt(mid).None?
  {
    match ParseInt(mid)
    case None => Failure(ValueError(mid))
    case Some(k) => Success(Get(titles, k).GetOr(FallbackTitle(mid)))
  }

  /** An integer id given as `str(id)` finds the title stored under that id,
      whatever its leading zeros or sign would have been. */
  lemma LookupTitleOfId(titles: Dict<int, string>, id: int)
    ensures LookupTitle(titles, IntToString(id)) == Success(Get(titles, id).GetOr(FallbackTitle(IntToString(id))))
  {
    IntToStringRoundTrip(id);
  }

  /** The titles `_load_titles` reads from the movies file next to the links
      file (`None` when there is none), or the exception that escapes. */
  function TitlesOf(moviesFile: Option<seq<string>>, limit: int): (Dict<int, string>, Option<Exception>) {
    var (ts, e) := ParseRows(ReadCsv(moviesFile, limit), TitleEntry);
    (FromPairs(ts), e)
  }

  /** The loop of `_load_titles`: `titles[int(row['movieId'])] = row['title']`
      for each row, until one raises. */
  method LoadTitles(rows: seq<Row>) returns (titles: Dict<int, string>, err: Option<Exception>)
    ensures titles == FromPairs(ParseRows(rows, TitleEntry).0)
    ensures err == ParseRows(rows, TitleEntry).1
  {
    titles := [];
    ghost var ts: seq<(int, string)> := [];
    for j := 0 to |rows|
      invariant ParseRows(rows[..j], TitleEntry) == (ts, None)
      invariant titles == FromPairs(ts)
    {
      ParseRowsStep(rows, TitleEntry, j, ts);
      var t := TitleEntry(rows[j]);
      if t.Failure? {
        return titles, Some(t.error);
      }
      FromPairsSnoc(ts, t.value);
      titles := Put(titles, t.value.0, t.value.1);
      ts := ts + [t.value];
    }
    assert rows[..|rows|] == rows;
    err := None;
  }

  /** What `Links(path, limit)` builds from the links file and the movies file
      beside it: the rows read, the links map and the titles, or the exception
      the constructor raises. */
  function Opened(linksFile: Option<seq<string>>, moviesFile: Option<seq<string>>, limit: int)
    : Result<(seq<Row>, Dict<string, string>, Dict<int, string>), Exception>
  {
    var rows := ReadCsv(linksFile, limit);
    match ImdbMap(rows)
    case Failure(e) => Failure(e)
    case Success(m) =>
      var (titles, e) := TitlesOf(moviesFile, limit);
      if e.Some? then Failure(e.value) else Success((rows, m, titles))
  }

  // ----- the rankings -----

  /** `most_expensive`: a movie qualifies with a positive budget. */
  function BudgetOf(info: Info): Option<real> {
    if info.budget > 0.0 then Some(info.budget) else None
  }

  /** `most_profitable`: positive budget and gross; the value is the profit. */
  function ProfitOf(info: Info): Option<real> {
    if info.budget > 0.0 && info.gross > 0.0 then Some(info.gross - info.budget) else None
  }

  /** `longest`: a positive runtime. */
  function RuntimeOf(info: Info): Option<real> {
    if info.runtime > 0 then Some(info.runtime as real) else None
  }

  /** `top_cost_per_minute`: positive budget and runtime; the budget per
      minute rounded to two decimals. */
  function CostPerMinuteOf(info: Info): Option<real> {
    if info.budget > 0.0 && info.runtime > 0 then Some(Round2(info.budget / info.runtime as real)) else None
  }

  /** The `i`-th entry of the links map has a cached record that qualifies. */
  predicate Qualifies(m: Dict<string, string>, cache: map<string, Info>, measure: Info -> Option<real>, i: int)
    requires 0 <= i < |m|
  {
    m[i].1 in cache && measure(cache[m[i].1]).Some?
  }

  /** The dict a ranking's loop fills: for each entry of the links map in
      order whose cached record qualifies, `values[_get_title(mid)] = value`;
      or the exception of the first title lookup that raises. */
  function Measured(m: Dict<string, string>, cache: map<string, Info>, titles: Dict<int, string>,
                    measure: Info -> Option<real>): Result<Dict<string, real>, Exception>
    decreases |m|
  {
    if m == [] then Success([])
    else
      match Measured(m[..|m| - 1], cache, titles, measure)
      case Failure(e) => Failure(e)
      case Success(d) =>
        var (mid, imdb) := m[|m| - 1];
        if imdb in cache && measure(cache[imdb]).Some? then
          match LookupTitle(titles, mid)
          case Failure(e) => Failure(e)
          case Success(t) => Success(Put(d, t, measure(cache[imdb]).value))
        else Success(d)
  }

  /** `dict(sorted(values.items(), key=lambda x: x[1], reverse=True)[:n])`. */
  function Ranked(d: Result<Dict<string, real>, Exception>, n: int): Result<Dict<string, real>, Exception> {
    match d
    case Failure(e) => Failure(e)
    case Success(x) => Success(FromPairs(TopByScore(x, n)))
  }

  /** When the loop raises, it is with the `ValueError` of a qualifying
      movie whose id is no integer (with `MeasuredCovers`: it raises exactly
      when there is one). */
  lemma {:induction false} MeasuredRaises(m: Dict<string, string>, cache: map<string, Info>, titles: Dict<int, string>,
                                          measure: Info -> Option<real>)
    requires Measured(m, cache, titles, measure).Failure?
    ensures exists i :: (0 <= i < |m| && Qualifies(m, cache, measure, i) && ParseInt(m[i].0).None?
      && Measured(m, cache, titles, measure).error == ValueError(m[i].0))
    decreases |m|
  {
    var init := m[..|m| - 1];
    if Measured(init, cache, titles, measure).Failure? {
      MeasuredRaises(init, cache, titles, measure);
      var i :| 0 <= i < |init| && Qualifies(init, cache, measure, i) && ParseInt(init[i].0).None?
        && Measured(init, cache, titles, measure).error == ValueError(init[i].0);
      assert init[i] == m[i];
      assert Qualifies(m, cache, measure, i);
    } else {
      assert Qualifies(m, cache, measure, |m| - 1);
    }
  }

  /** Each entry of the filled dict is the title and value of a qualifying
      movie, and its titles are distinct. */
  lemma {:induction false} MeasuredEntries(m: Dict<string, string>, cache: map<string, Info>, titles: Dict<int, string>,
                                           measure: Info -> Option<real>, e: (string, real))
    requires Measured(m, cache, titles, measure).Success?
    ensures DistinctKeys(Measured(m, cache, titles, measure).value)
    ensures e in Measured(m, cache, titles, measure).value ==>
      exists i :: 0 <= i < |m| && Qualifies(m, cache, measure, i)
        && LookupTitle(titles, m[i].0) == Success(e.0) && measure(cache[m[i].1]) == Some(e.1)
    decreases |m|
  {
    if m != [] {
      var init := m[..|m| - 1];
      MeasuredEntries(init, cache, titles, measure, e);
      assert forall i :: 0 <= i < |init| ==> init[i] == m[i];
      var d := Measured(init, cache, titles, measure).value;
      var (mid, imdb) := m[|m| - 1];
      if imdb in cache && measure(cache[imdb]).Some? {
        var t := LookupTitle(titles, mid).value;
        var v := measure(cache[imdb]).value;
        PutDistinct(d, t, v);
        if e in Put(d, t, v) {
          PutGet(d, t, v, e.0);
          GetIffEntry(Put(d, t, v), e.0);
          if e.0 != t {
            GetIffEntry(d, e.0);
            var i :| 0 <= i < |init| && Qualifies(init, cache, measure, i)
              && LookupTitle(titles, init[i].0) == Success(e.0) && measure(cache[init[i].1]) == Some(e.1);
            assert Qualifies(m, cache, measure, i);
          } else {
            assert Qualifies(m, cache, measure, |m| - 1);
          }
        }
      }
    }
  }

  /** Every qualifying movie's title is a key of the filled dict. */
  lemma {:induction false} MeasuredCovers(m: Dict<string, string>, cache: map<string, Info>, titles: Dict<int, string>,
                                          measure: Info -> Option<real>, i: int)
    requires Measured(m, cache, titles, measure).Success?
    requires 0 <= i < |m| && Qualifies(m, cache, measure, i)
    ensures LookupTitle(titles, m[i].0).Success?
    ensures LookupTitle(titles, m[i].0).value in KeySet(Measured(m, cache, titles, measure).value)
    decreases |m|
  {
    var init := m[..|m| - 1];
    var d := Measured(init, cache, titles, measure).value;
    var (mid, imdb) := m[|m| - 1];
    if i < |m| - 1 {
      assert init[i] == m[i];
      MeasuredCovers(init, cache, titles, measure, i);
      if imdb in cache && measure(cache[imdb]).Some? {
        PutKeys(d, LookupTitle(titles, mid).value, measure(cache[imdb]).value);
      }
    } else {
      PutKeys(d, LookupTitle(titles, mid).value, measure(cache[imdb]).value);
    }
  }

  /** A ranking is the top-`n` selection of the filled dict: at most `n`
      titles, values non-increasing, none smaller than a title left out. */
  lemma RankedIsTop(d: Result<Dict<string, real>, Exception>, n: int)
    requires d.Success? && DistinctKeys(d.value)
    ensures Ranked(d, n).Success? && IsTopScore(Ranked(d, n).value, d.value, n)
  {
    TopByScoreIsTop(d.value, n);
    FromPairsSize(TopByScore(d.value, n));
  }

  /** An entry of a successful ranking is a qualifying movie's title and value. */
  lemma RankedEntry(m: Dict<string, string>, cache: map<string, Info>, titles: Dict<int, string>,
                    measure: Info -> Option<real>, n: int, e: (string, real))
    requires Ranked(Measured(m, cache, titles, measure), n).Success?
    requires e in Ranked(Measured(m, cache, titles, measure), n).value
    ensures exists i :: (0 <= i < |m| && Qualifies(m, cache, measure, i)
      && LookupTitle(titles, m[i].0) == Success(e.0) && measure(cache[m[i].1]) == Some(e.1))
  {
    var d := Measured(m, cache, titles, measure);
    MeasuredEntries(m, cache, titles, measure, e);
    RankedIsTop(d, n);
  }

  /** `most_expensive(n)`: only positive budgets, each that of a mapped movie
      with a cached record, shown under its title. */
  lemma MostExpensiveEntry(m: Dict<string, string>, cache: map<string, Info>, titles: Dict<int, string>,
                           n: int, e: (string, real))
    requires Ranked(Measured(m, cache, titles, BudgetOf), n).Success?
    requires e in Ranked(Measured(m, cache, titles, BudgetOf), n).value
    ensures e.1 > 0.0
    ensures exists i :: (0 <= i < |m| && m[i].1 in cache && cache[m[i].1].budget == e.1
      && LookupTitle(titles, m[i].0) == Success(e.0))
  {
    RankedEntry(m, cache, titles, BudgetOf, n, e);
  }

  /** `most_profitable(n)`: gross minus budget of a movie with both positive. */
  lemma MostProfitableEntry(m: Dict<string, string>, cache: map<string, Info>, titles: Dict<int, string>,
                            n: int, e: (string, real))
    requires Ranked(Measured(m, cache, titles, ProfitOf), n).Success?
    requires e in Ranked(Measured(m, cache, titles, ProfitOf), n).value
    ensures exists i :: (0 <= i < |m| && m[i].1 in cache
      && cache[m[i].1].budget > 0.0 && cache[m[i].1].gross > 0.0
      && e.1 == cache[m[i].1].gross - cache[m[i].1].budget
      && LookupTitle(titles, m[i].0) == Success(e.0))
  {
    RankedEntry(m, cache, titles, ProfitOf, n, e);
  }

  /** `longest(n)`: positive runtimes in minutes. */
  lemma LongestEntry(m: Dict<string, string>, cache: map<string, Info>, titles: Dict<int, string>,
                     n: int, e: (string, real))
    requires Ranked(Measured(m, cache, titles, RuntimeOf), n).Success?
    requires e in Ranked(Measured(m, cache, titles, RuntimeOf), n).value
    ensures e.1 > 0.0
    ensures exists i :: (0 <= i < |m| && m[i].1 in cache && cache[m[i].1].runtime as real == e.1
      && LookupTitle(titles, m[i].0) == Success(e.0))
  {
    RankedEntry(m, cache, titles, RuntimeOf, n, e);
  }

  /** `top_cost_per_minute(n)`: the rounded budget per minute of a movie with
      positive budget and runtime, never negative. */
  lemma CostPerMinuteEntry(m: Dict<string, string>, cache: map<string, Info>, titles: Dict<int, string>,
                           n: int, e: (string, real))
    requires Ranked(Measured(m, cache, titles, CostPerMinuteOf), n).Success?
    requires e in Ranked(Measured(m, cache, titles, CostPerMinuteOf), n).value
    ensures e.1 >= 0.0
    ensures exists i :: (0 <= i < |m| && m[i].1 in cache
      && cache[m[i].1].budget > 0.0 && cache[m[i].1].runtime > 0
      && e.1 == Round2(cache[m[i].1].budget / cache[m[i].1].runtime as real)
      && LookupTitle(titles, m[i].0) == Success(e.0))
  {
    RankedEntry(m, cache, titles, CostPerMinuteOf, n, e);
    var i :| 0 <= i < |m| && Qualifies(m, cache, CostPerMinuteOf, i)
      && LookupTitle(titles, m[i].0) == Success(e.0) && CostPerMinuteOf(cache[m[i].1]) == Some(e.1);
    CostPerMinuteNonNegative(cache[m[i].1]);
  }

  /** A positive budget over a positive runtime rounds to a non-negative value. */
  lemma CostPerMinuteNonNegative(info: Info)
    requires CostPerMinuteOf(info).Some?
    ensures CostPerMinuteOf(info).value >= 0.0
  {
    var x := info.budget / info.runtime as real;
    assert x >= 0.0;
    Round2Close(x);
  }

  /** A director counts when the record names one: `if d:` skips `None` and `""`. */
  predicate Named(director: Option<string>) {
    director.Some? && director.value != ""
  }

  /** The director of each mapped movie whose cached record names one, in
      the links map's order. */
  function Directors(m: Dict<string, string>, cache: map<string, Info>): seq<string>
    decreases |m|
  {
    if m == [] then []
    else
      var imdb := m[|m| - 1].1;
      Directors(m[..|m| - 1], cache)
      + (if imdb in cache && Named(cache[imdb].director) then [cache[imdb].director.value] else [])
  }

  /** A director is listed exactly when some mapped movie's cached record
      names them. */
  lemma {:induction false} DirectorsSpec(m: Dict<string, string>, cache: map<string, Info>, d: string)
    ensures |Directors(m, cache)| <= |m|
    ensures d in Directors(m, cache) <==>
      exists i :: 0 <= i < |m| && m[i].1 in cache && cache[m[i].1].director == Some(d) && d != ""
    decreases |m|
  {
    if m != [] {
      var init := m[..|m| - 1];
      DirectorsSpec(init, cache, d);
      assert forall i :: 0 <= i < |init| ==> init[i] == m[i];
    }
  }

  /** `top_directors(n)`: the directors counted with `counts[d] += 1`, the
      `n` most frequent first. */
  function TopDirectorsOf(m: Dict<string, string>, cache: map<string, Info>, n: int): Dict<string, int> {
    FromPairs(TopByCount(Tally(Directors(m, cache)), n))
  }

  /** At most `n` directors, counts non-increasing and none smaller than a
      director left out; each a director some cached record names, with the
      number of mapped movies it directs. */
  lemma TopDirectorsSpec(m: Dict<string, string>, cache: map<string, Info>, n: int, e: (string, int))
    ensures var ds := Directors(m, cache);
      IsTopCount(TopDirectorsOf(m, cache, n), Tally(ds), n)
      && (e in TopDirectorsOf(m, cache, n) ==>
        e.1 == multiset(ds)[e.0] && e.1 >= 1
        && exists i :: 0 <= i < |m| && m[i].1 in cache && cache[m[i].1].director == Some(e.0) && e.0 != "")
  {
    var ds := Directors(m, cache);
    var top := TopByCount(Tally(ds), n);
    TallyDistinct(ds);
    TopByCountIsTop(Tally(ds), n);
    FromPairsSize(top);
    if e in top {
      TallyEntry(ds, e);
      DirectorsSpec(m, cache, e.0);
    }
  }

  // ----- the get_imdb table -----

  /** A value of `data.get(field, None)`: `None`, a director's name, an amount
      or a number of minutes. */
  datatype Cell = Null | Name(name: string) | Amount(amount: real) | Minutes(minutes: int)

  /** `data.get(field, None)` on a record: its four keys are `Director`,
      `Budget`, `Cumulative Worldwide Gross` and `Runtime`. */
  function FieldOf(info: Info, field: string): Cell {
    if field == "Director" then (if info.director.Some? then Name(info.director.value) else Null)
    else if field == "Budget" then Amount(info.budget)
    else if field == "Cumulative Worldwide Gross" then Amount(info.gross)
    else if field == "Runtime" then Minutes(info.runtime)
    else Null
  }

  /** The cells a row carries after the movie id and the title, one per field. */
  function Cells(info: Info, fields: seq<string>): seq<Cell> {
    seq(|fields|, j requires 0 <= j < |fields| => FieldOf(info, fields[j]))
  }

  /** A row of `get_imdb`: `[str(mid), title, *cells]`. */
  datatype ImdbRow = ImdbRow(movieId: string, title: string, cells: seq<Cell>)

  /** `int(x[0])`, the sort key (the id always parses: its title was looked up). */
  function SortKey(row: ImdbRow): int {
    ParseInt(row.movieId).GetOr(0)
  }

  /** `sorted(..., key=lambda x: int(x[0]), reverse=True)` puts `a` before `b`. */
  predicate IdGeq(a: ImdbRow, b: ImdbRow) {
    SortKey(a) >= SortKey(b)
  }

  lemma IdGeqPreorder()
    ensures TotalPreorder(IdGeq)
  {
  }

  /** One movie of `get_imdb`'s loop, given the rows so far and the cache:
      a movie missing from the links map adds nothing; otherwise its record
      is scraped (and cached), then its title looked up, which may raise. */
  function CollectStep(m: Dict<string, string>, titles: Dict<int, string>, fields: seq<string>, fetch: Fetch,
                       acc: (Result<seq<ImdbRow>, Exception>, map<string, Info>), mid: string)
    : (Result<seq<ImdbRow>, Exception>, map<string, Info>)
  {
    var (r, c) := acc;
    if r.Failure? then acc
    else
      match Get(m, mid)
      case None => acc
      case Some(imdb) =>
        var c' := Scraped(c, imdb, fetch);
        match LookupTitle(titles, mid)
        case Failure(e) => (Failure(e), c')
        case Success(t) => (Success(r.value + [ImdbRow(mid, t, Cells(c'[imdb], fields))]), c')
  }

  /** The rows `get_imdb` collects before sorting, and the cache after. */
  function Collected(m: Dict<string, string>, titles: Dict<int, string>, fields: seq<string>, fetch: Fetch,
                     cache: map<string, Info>, mids: seq<string>): (Result<seq<ImdbRow>, Exception>, map<string, Info>)
    decreases |mids|
  {
    if mids == [] then (Success([]), cache)
    else CollectStep(m, titles, fields, fetch, Collected(m, titles, fields, fetch, cache, mids[..|mids| - 1]), mids[|mids| - 1])
  }

  /** `get_imdb(mids, fields)`: the collected rows sorted by descending
      numeric id, and the cache after. */
  function ImdbTable(m: Dict<string, string>, titles: Dict<int, string>, fields: seq<string>, fetch: Fetch,
                     cache: map<string, Info>, mids: seq<string>): (Result<seq<ImdbRow>, Exception>, map<string, Info>)
  {
    var (r, c) := Collected(m, titles, fields, fetch, cache, mids);
    (if r.Failure? then r else Success(Sort(r.value, IdGeq)), c)
  }

  /** The movies of `mids` the links map knows, in order. */
  function Mapped(m: Dict<string, string>, mids: seq<string>): seq<string>
    decreases |mids|
  {
    if mids == [] then []
    else Mapped(m, mids[..|mids| - 1]) + (if Get(m, mids[|mids| - 1]).Some? then [mids[|mids| - 1]] else [])
  }

  function MovieIds(rows: seq<ImdbRow>): (ids: seq<string>)
    ensures |ids| == |rows| && forall i :: 0 <= i < |rows| ==> ids[i] == rows[i].movieId
  {
    seq(|rows|, i requires 0 <= i < |rows| => rows[i].movieId)
  }

  /** The row shows a mapped movie: its title, and the fields of the record
      the cache holds for its IMDb id. */
  ghost predicate RowFor(m: Dict<string, string>, titles: Dict<int, string>, fields: seq<string>,
                         cache: map<string, Info>, row: ImdbRow) {
    Get(m, row.movieId).Some? && Get(m, row.movieId).value in cache
    && LookupTitle(titles, row.movieId) == Success(row.title)
    && row.cells == Cells(cache[Get(m, row.movieId).value], fields)
  }

  /** One more movie of `get_imdb`'s loop, after movies that raised nothing. */
  lemma CollectedNext(m: Dict<string, string>, titles: Dict<int, string>, fields: seq<string>, fetch: Fetch,
                      cache: map<string, Info>, mids: seq<string>, i: int, rows: seq<ImdbRow>, c: map<string, Info>)
    requires 0 <= i < |mids|
    requires Collected(m, titles, fields, fetch, cache, mids[..i]) == (Success(rows), c)
    ensures Get(m, mids[i]).None? ==> Collected(m, titles, fields, fetch, cache, mids[..i + 1]) == (Success(rows), c)
    ensures Get(m, mids[i]).Some? ==>
      var c' := Scraped(c, Get(m, mids[i]).value, fetch);
      match LookupTitle(titles, mids[i])
      case Failure(e) => Collected(m, titles, fields, fetch, cache, mids) == (Failure(e), c')
      case Success(t) =>
        Collected(m, titles, fields, fetch, cache, mids[..i + 1])
          == (Success(rows + [ImdbRow(mids[i], t, Cells(c'[Get(m, mids[i]).value], fields))]), c')
  {
    assert mids[..i + 1][..i] == mids[..i];
    if Collected(m, titles, fields, fetch, cache, mids[..i + 1]).0.Failure? {
      CollectedStops(m, titles, fields, fetch, cache, mids, i + 1);
    }
  }

  /** Once a title lookup has raised, later movies change nothing. */
  lemma {:induction false} CollectedStops(m: Dict<string, string>, titles: Dict<int, string>, fields: seq<string>,
                                          fetch: Fetch, cache: map<string, Info>, mids: seq<string>, k: nat)
    requires k <= |mids|
    requires Collected(m, titles, fields, fetch, cache, mids[..k]).0.Failure?
    ensures Collected(m, titles, fields, fetch, cache, mids) == Collected(m, titles, fields, fetch, cache, mids[..k])
    decreases |mids| - k
  {
    if k < |mids| {
      var init := mids[..|mids| - 1];
      assert init[..k] == mids[..k];
      CollectedStops(m, titles, fields, fetch, cache, init, k);
    } else {
      assert mids[..k] == mids;
    }
  }

  /** The loop keeps every cached record: a scrape only adds. */
  lemma {:induction false} CollectedKeeps(m: Dict<string, string>, titles: Dict<int, string>, fields: seq<string>,
                                          fetch: Fetch, cache: map<string, Info>, mids: seq<string>, k: string)
    requires k in cache
    ensures var c := Collected(m, titles, fields, fetch, cache, mids).1;
      k in c && c[k] == cache[k]
    decreases |mids|
  {
    if mids != [] {
      CollectedKeeps(m, titles, fields, fetch, cache, mids[..|mids| - 1], k);
    }
  }

  /** A record the loop adds is that of a mapped movie's IMDb id, filled from
      its page. */
  lemma {:induction false} CollectedAdds(m: Dict<string, string>, titles: Dict<int, string>, fields: seq<string>,
                                         fetch: Fetch, cache: map<string, Info>, mids: seq<string>, k: string)
    requires k !in cache && k in Collected(m, titles, fields, fetch, cache, mids).1
    ensures Collected(m, titles, fields, fetch, cache, mids).1[k] == Filled(fetch(Url(k)))
    ensures exists i :: 0 <= i < |mids| && Get(m, mids[i]) == Some(k)
    decreases |mids|
  {
    var init := mids[..|mids| - 1];
    var c := Collected(m, titles, fields, fetch, cache, init).1;
    if k in c {
      CollectedAdds(m, titles, fields, fetch, cache, init, k);
      var i :| 0 <= i < |init| && Get(m, init[i]) == Some(k);
      assert init[i] == mids[i];
    } else {
      assert Get(m, mids[|mids| - 1]) == Some(k);
    }
  }

  /** When the loop raises, it is with the `ValueError` of a mapped movie
      whose id is no integer. */
  lemma {:induction false} CollectedRaises(m: Dict<string, string>, titles: Dict<int, string>, fields: seq<string>,
                                           fetch: Fetch, cache: map<string, Info>, mids: seq<string>)
    requires Collected(m, titles, fields, fetch, cache, mids).0.Failure?
    ensures exists i :: (0 <= i < |mids| && Get(m, mids[i]).Some? && ParseInt(mids[i]).None?
      && Collected(m, titles, fields, fetch, cache, mids).0.error == ValueError(mids[i]))
    decreases |mids|
  {
    var init := mids[..|mids| - 1];
    if Collected(m, titles, fields, fetch, cache, init).0.Failure? {
      CollectedRaises(m, titles, fields, fetch, cache, init);
      var i :| 0 <= i < |init| && Get(m, init[i]).Some? && ParseInt(init[i]).None?
        && Collected(m, titles, fields, fetch, cache, init).0.error == ValueError(init[i]);
      assert init[i] == mids[i];
    }
  }

  /** A row stays right when the cache only grows. */
  lemma RowForKept(m: Dict<string, string>, titles: Dict<int, string>, fields: seq<string>,
                   c: map<string, Info>, c': map<string, Info>, row: ImdbRow)
    requires RowFor(m, titles, fields, c, row)
    requires forall k :: k in c ==> k in c' && c'[k] == c[k]
    ensures RowFor(m, titles, fields, c', row)
  {
  }

  /** Without a raise the loop makes one row per mapped movie, in order. */
  lemma {:induction false} CollectedIds(m: Dict<string, string>, titles: Dict<int, string>, fields: seq<string>,
                                        fetch: Fetch, cache: map<string, Info>, mids: seq<string>)
    requires Collected(m, titles, fields, fetch, cache, mids).0.Success?
    ensures MovieIds(Collected(m, titles, fields, fetch, cache, mids).0.value) == Mapped(m, mids)
    decreases |mids|
  {
    if mids != [] {
      var init := mids[..|mids| - 1];
      var acc := Collected(m, titles, fields, fetch, cache, init);
      CollectStepIds(m, titles, fields, fetch, acc, mids[|mids| - 1]);
      CollectedIds(m, titles, fields, fetch, cache, init);
    }
  }

  /** One step of the loop adds the movie's id exactly when it is mapped. */
  lemma CollectStepIds(m: Dict<string, string>, titles: Dict<int, string>, fields: seq<string>, fetch: Fetch,
                       acc: (Result<seq<ImdbRow>, Exception>, map<string, Info>), mid: string)
    requires CollectStep(m, titles, fields, fetch, acc, mid).0.Success?
    ensures acc.0.Success?
    ensures MovieIds(CollectStep(m, titles, fields, fetch, acc, mid).0.value)
      == MovieIds(acc.0.value) + (if Get(m, mid).Some? then [mid] else [])
  {
    if Get(m, mid).Some? {
      var imdb := Get(m, mid).value;
      var c' := Scraped(acc.1, imdb, fetch);
      var row := ImdbRow(mid, LookupTitle(titles, mid).value, Cells(c'[imdb], fields));
      assert CollectStep(m, titles, fields, fetch, acc, mid).0.value == acc.0.value + [row];
      MovieIdsAppend(acc.0.value, row);
    }
  }

  lemma MovieIdsAppend(rows: seq<ImdbRow>, row: ImdbRow)
    ensures MovieIds(rows + [row]) == MovieIds(rows) + [row.movieId]
  {
    assert MovieIds(rows + [row])[..|rows|] == MovieIds(rows);
  }

  /** Each row shows its movie's title and the record the final cache holds
      for its IMDb id. */
  lemma {:induction false} CollectedRowsFor(m: Dict<string, string>, titles: Dict<int, string>, fields: seq<string>,
                                            fetch: Fetch, cache: map<string, Info>, mids: seq<string>, row: ImdbRow)
    requires Collected(m, titles, fields, fetch, cache, mids).0.Success?
    requires row in Collected(m, titles, fields, fetch, cache, mids).0.value
    ensures RowFor(m, titles, fields, Collected(m, titles, fields, fetch, cache, mids).1, row)
    decreases |mids|
  {
    var init := mids[..|mids| - 1];
    var (r0, c0) := Collected(m, titles, fields, fetch, cache, init);
    var c := Collected(m, titles, fields, fetch, cache, mids).1;
    if row in r0.value {
      CollectedRowsFor(m, titles, fields, fetch, cache, init, row);
      RowForKept(m, titles, fields, c0, c, row);
    }
  }

  /** Without a raise every mapped movie's IMDb id ends up cached. */
  lemma {:induction false} CollectedScrapes(m: Dict<string, string>, titles: Dict<int, string>, fields: seq<string>,
                                            fetch: Fetch, cache: map<string, Info>, mids: seq<string>, i: int)
    requires Collected(m, titles, fields, fetch, cache, mids).0.Success?
    requires 0 <= i < |mids| && Get(m, mids[i]).Some?
    ensures Get(m, mids[i]).value in Collected(m, titles, fields, fetch, cache, mids).1
    decreases |mids|
  {
    var init := mids[..|mids| - 1];
    if i < |mids| - 1 {
      assert init[i] == mids[i];
      CollectedScrapes(m, titles, fields, fetch, cache, init, i);
    }
  }

  /** `get_imdb`: the rows sorted by descending numeric id, a permutation of
      the collected rows, one per mapped movie. */
  lemma ImdbTableSpec(m: Dict<string, string>, titles: Dict<int, string>, fields: seq<string>, fetch: Fetch,
                      cache: map<string, Info>, mids: seq<string>)
    requires ImdbTable(m, titles, fields, fetch, cache, mids).0.Success?
    ensures var rows := ImdbTable(m, titles, fields, fetch, cache, mids).0.value;
      forall i, j :: 0 <= i < j < |rows| ==> SortKey(rows[i]) >= SortKey(rows[j])
    ensures multiset(ImdbTable(m, titles, fields, fetch, cache, mids).0.value)
      == multiset(Collected(m, titles, fields, fetch, cache, mids).0.value)
    ensures |ImdbTable(m, titles, fields, fetch, cache, mids).0.value| == |Mapped(m, mids)|
    ensures var (r, c) := ImdbTable(m, titles, fields, fetch, cache, mids);
      forall row :: row in r.value ==>
        RowFor(m, titles, fields, c, row) && ParseInt(row.movieId).Some? && SortKey(row) == ParseInt(row.movieId).value
  {
    var r := Collected(m, titles, fields, fetch, cache, mids).0;
    var c := Collected(m, titles, fields, fetch, cache, mids).1;
    var rows := Sort(r.value, IdGeq);
    assert ImdbTable(m, titles, fields, fetch, cache, mids) == (Success(rows), c);
    SortedByKey(r.value, rows);
    CollectedIds(m, titles, fields, fetch, cache, mids);
    forall row | row in rows
      ensures RowFor(m, titles, fields, c, row)
      ensures ParseInt(row.movieId).Some? && SortKey(row) == ParseInt(row.movieId).value
    {
      assert row in multiset(rows);
      CollectedRowsFor(m, titles, fields, fetch, cache, mids, row);
    }
  }

  /** Sorting with `IdGeq` orders the rows by descending key. */
  lemma SortedByKey(rows: seq<ImdbRow>, sorted: seq<ImdbRow>)
    requires sorted == Sort(rows, IdGeq)
    ensures forall i, j :: 0 <= i < j < |sorted| ==> SortKey(sorted[i]) >= SortKey(sorted[j])
  {
    IdGeqPreorder();
    SortSorted(rows, IdGeq);
    assert forall i, j :: 0 <= i < j < |sorted| ==> IdGeq(sorted[i], sorted[j]);
  }

  // ----- the loops' steps -----

  /** Once a title lookup has raised, later entries change nothing. */
  lemma {:induction false} MeasuredStops(m: Dict<string, string>, cache: map<string, Info>, titles: Dict<int, string>,
                                         measure: Info -> Option<real>, k: nat)
    requires k <= |m| && Measured(m[..k], cache, titles, measure).Failure?
    ensures Measured(m, cache, titles, measure) == Measured(m[..k], cache, titles, measure)
    decreases |m| - k
  {
    if k < |m| {
      var init := m[..|m| - 1];
      assert init[..k] == m[..k];
      MeasuredStops(init, cache, titles, measure, k);
    } else {
      assert m[..k] == m;
    }
  }

  /** One more entry of the links map in a ranking's loop. */
  lemma MeasuredStep(m: Dict<string, string>, cache: map<string, Info>, titles: Dict<int, string>,
                     measure: Info -> Option<real>, i: int, d: Dict<string, real>)
    requires 0 <= i < |m| && Measured(m[..i], cache, titles, measure) == Success(d)
    ensures !(m[i].1 in cache && measure(cache[m[i].1]).Some?) ==> Measured(m[..i + 1], cache, titles, measure) == Success(d)
    ensures m[i].1 in cache && measure(cache[m[i].1]).Some? && LookupTitle(titles, m[i].0).Success? ==>
      Measured(m[..i + 1], cache, titles, measure)
        == Success(Put(d, LookupTitle(titles, m[i].0).value, measure(cache[m[i].1]).value))
    ensures m[i].1 in cache && measure(cache[m[i].1]).Some? && LookupTitle(titles, m[i].0).Failure? ==>
      Measured(m, cache, titles, measure) == Failure(LookupTitle(titles, m[i].0).error)
  {
    assert m[..i + 1][..i] == m[..i];
    if Measured(m[..i + 1], cache, titles, measure).Failure? {
      MeasuredStops(m, cache, titles, measure, i + 1);
    }
  }

  lemma DirectorsStep(m: Dict<string, string>, cache: map<string, Info>, i: int)
    requires 0 <= i < |m|
    ensures Directors(m[..i + 1], cache) == Directors(m[..i], cache)
      + (if m[i].1 in cache && Named(cache[m[i].1].director) then [cache[m[i].1].director.value] else [])
  {
    assert m[..i + 1][..i] == m[..i];
  }

  /** The inner loop of `get_imdb`: `row.append(data.get(field, None))` for
      each field. */
  method RowCells(data: Info, fields: seq<string>) returns (cells: seq<Cell>)
    ensures cells == Cells(data, fields)
  {
    cells := [];
    for j := 0 to |fields|
      invariant |cells| == j && forall k :: 0 <= k < j ==> cells[k] == FieldOf(data, fields[k])
    {
      cells := cells + [FieldOf(data, fields[j])];
    }
  }

  // ----- the class -----

  /** The `Links` object: the row limit, the rows of the links file, the
      links map, the titles and the cache of scraped records. */
  class Links {
    const limit: int
    const linksData: seq<Row>
    const movieImdbMap: Dict<string, string>
    const titles: Dict<int, string>
    var cache: map<string, Info>

    constructor Of(limit: int, linksData: seq<Row>, movieImdbMap: Dict<string, string>,
                   titles: Dict<int, string>, cache: map<string, Info>)
      ensures this.limit == limit && this.linksData == linksData && this.movieImdbMap == movieImdbMap
      ensures this.titles == titles && this.cache == cache
    {
      this.limit := limit;
      this.linksData := linksData;
      this.movieImdbMap := movieImdbMap;
      this.titles := titles;
      this.cache := cache;
    }

    /** `Links(path, limit)`, given the links file, the movies file beside it
        and the stored cache (`None` when the cache file is missing or does not
        parse, which `_load_cache` reads as `{}`): the object, or the
        exception the constructor raises. */
    static method Open(linksFile: Option<seq<string>>, moviesFile: Option<seq<string>>,
                       stored: Option<map<string, Info>>, limit: int) returns (r: Result<Links, Exception>)
      ensures var o := Opened(linksFile, moviesFile, limit);
        (r.Failure? <==> o.Failure?) && (r.Failure? ==> r.error == o.error)
        && (r.Success? ==> (fresh(r.value) && r.value.limit == limit
          && (r.value.linksData, r.value.movieImdbMap, r.value.titles) == o.value
          && r.value.cache == stored.GetOr(map[])))
    {
      var rows := ReadCsvLimited(linksFile, limit);
      var m := ImdbMap(rows);
      if m.Failure? {
        return Failure(m.error);
      }
      var cache := stored.GetOr(map[]);
      var movieRows := ReadCsvLimited(moviesFile, limit);
      var titles, err := LoadTitles(movieRows);
      if err.Some? {
        return Failure(err.value);
      }
      var links := new Links.Of(limit, rows, m.value, titles, cache);
      return Success(links);
    }

    /** `get_ids(n)`: the `movieId` of each of the first `n` rows (Python's
        `[:n]`), or `KeyError` when one of them has none. */
    function GetIds(n: int): (r: Result<seq<string>, Exception>)
      ensures r.Success? ==> (n >= 0 ==> |r.value| == if n < |linksData| then n else |linksData|)
      ensures r.Success? ==> (|r.value| <= |linksData|
        && forall i :: 0 <= i < |r.value| ==> Get(linksData[i], "movieId") == Some(r.value[i]))
      ensures r.Failure? <==> exists i :: 0 <= i < |Prefix(linksData, n)| && Get(linksData[i], "movieId").None?
    {
      var p := Prefix(linksData, n);
      assert forall i :: 0 <= i < |p| ==> p[i] == linksData[i];
      IdsOf(p)
    }

    /** `_scrape_imdb(imdbId)`: a cached id returns its record and fetches
        nothing; otherwise the record filled from the page is cached under
        the id, every other entry staying as it was. */
    method Scrape(imdbId: string, fetch: Fetch) returns (info: Info)
      modifies this
      ensures cache == Scraped(old(cache), imdbId, fetch) && info == cache[imdbId]
      ensures imdbId in old(cache) ==> info == old(cache)[imdbId]
    {
      if imdbId in cache {
        return cache[imdbId];
      }
      info := Filled(fetch(Url(imdbId)));
      cache := cache[imdbId := info];
    }

    /** `get_imdb(mids, fields)`, the movie ids given as strings. */
    method GetImdb(mids: seq<string>, fields: seq<string>, fetch: Fetch) returns (r: Result<seq<ImdbRow>, Exception>)
      modifies this
      ensures (r, cache) == ImdbTable(movieImdbMap, titles, fields, fetch, old(cache), mids)
    {
      var result: seq<ImdbRow> := [];
      for i := 0 to |mids|
        invariant Collected(movieImdbMap, titles, fields, fetch, old(cache), mids[..i]) == (Success(result), cache)
      {
        CollectedNext(movieImdbMap, titles, fields, fetch, old(cache), mids, i, result, cache);
        var mid := mids[i];
        var imdb := Get(movieImdbMap, mid);
        if imdb.Some? {
          var data := Scrape(imdb.value, fetch);
          var title := LookupTitle(titles, mid);
          if title.Failure? {
            return Failure(title.error);
          }
          var cells := RowCells(data, fields);
          result := result + [ImdbRow(mid, title.value, cells)];
        }
      }
      assert mids[..|mids|] == mids;
      r := Success(Sort(result, IdGeq));
    }

    /** The loop the four movie rankings share: for each mapped movie with a
        cached record that qualifies, `values[_get_title(mid)] = value`. */
    method MeasureMovies(measure: Info -> Option<real>) returns (r: Result<Dict<string, real>, Exception>)
      ensures r == Measured(movieImdbMap, cache, titles, measure)
    {
      var values: Dict<string, real> := [];
      for i := 0 to |movieImdbMap|
        invariant Measured(movieImdbMap[..i], cache, titles, measure) == Success(values)
      {
        MeasuredStep(movieImdbMap, cache, titles, measure, i, values);
        var (mid, imdb) := movieImdbMap[i];
        if imdb in cache {
          var v := measure(cache[imdb]);
          if v.Some? {
            var t := LookupTitle(titles, mid);
            if t.Failure? {
              return Failure(t.error);
            }
            values := Put(values, t.value, v.value);
          }
        }
      }
      assert movieImdbMap[..|movieImdbMap|] == movieImdbMap;
      r := Success(values);
    }

    /** `top_directors(n)`. */
    method TopDirectors(n: int) returns (r: Dict<string, int>)
      ensures r == TopDirectorsOf(movieImdbMap, cache, n)
    {
      var counts: Dict<string, int> := [];
      for i := 0 to |movieImdbMap|
        invariant counts == Tally(Directors(movieImdbMap[..i], cache))
      {
        DirectorsStep(movieImdbMap, cache, i);
        var imdb := movieImdbMap[i].1;
        if imdb in cache && Named(cache[imdb].director) {
          var d := cache[imdb].director.value;
          TallySnoc(Directors(movieImdbMap[..i], cache), d);
          counts := Increment(counts, d);
          assert counts == Tally(Directors(movieImdbMap[..i + 1], cache));
        } else {
          assert Directors(movieImdbMap[..i], cache) + [] == Directors(movieImdbMap[..i], cache);
          assert counts == Tally(Directors(movieImdbMap[..i + 1], cache));
        }
      }
      assert movieImdbMap[..|movieImdbMap|] == movieImdbMap;
      r := FromPairs(TopByCount(counts, n));
    }

    /** `most_expensive(n)`. */
    method MostExpensive(n: int) returns (r: Result<Dict<string, real>, Exception>)
      ensures r == Ranked(Measured(movieImdbMap, cache, titles, BudgetOf), n)
    {
      var budgets := MeasureMovies(BudgetOf);
      r := Ranked(budgets, n);
    }

    /** `most_profitable(n)`. */
    method MostProfitable(n: int) returns (r: Result<Dict<string, real>, Exception>)
      ensures r == Ranked(Measured(movieImdbMap, cache, titles, ProfitOf), n)
    {
      var profits := MeasureMovies(ProfitOf);
      r := Ranked(profits, n);
    }

    /** `longest(n)`. */
    method Longest(n: int) returns (r: Result<Dict<string, real>, Exception>)
      ensures r == Ranked(Measured(movieImdbMap, cache, titles, RuntimeOf), n)
    {
      var runtimes := MeasureMovies(RuntimeOf);
      r := Ranked(runtimes, n);
    }

    /** `top_cost_per_minute(n)`. */
    method TopCostPerMinute(n: int) returns (r: Result<Dict<string, real>, Exception>)
      ensures r == Ranked(Measured(movieImdbMap, cache, titles, CostPerMinuteOf), n)
    {
      var cpm := MeasureMovies(CostPerMinuteOf);
      r := Ranked(cpm, n);
    }
  }
}
