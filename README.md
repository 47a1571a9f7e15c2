# MovieLens analytics, modelled in Dafny

A model of the MovieLens analysis module `src/movielens_analysis.py`. It covers the module's four parts.

- **CSV ingestion.** `parse_csv_line` is a quote-aware comma splitter. `read_csv_limited` reads the header line and at most `limit` data lines, one dictionary per row of the header's width. The `Movies` constructor admits a movie line only when its id is referenced in the first `limit` lines of the ratings file or of the tags file. It reads the release year from a trailing `(dddd)` in the title.
- **Catalog and tag analytics.**
  - The catalog queries are `dist_by_release`, `dist_by_genres` and `most_genres`.
  - The `Tags` queries are `most_words`, `longest`, `most_words_and_longest`, `most_popular` and `tags_with`.
- **Ratings statistics.**
  - The metrics `average`, `median` and `variance`, and `round(x, 2)`.
  - The loader `_load_data`, which does nothing once ratings are loaded.
  - The per-movie queries of `Ratings.Movies` and the per-user queries of `Ratings.Users`.
- **Enrichment.**
  - The links map from movie id to IMDb id.
  - The titles map.
  - The cache of scraped IMDb records, filled on demand by `_scrape_imdb`, and the `PT{h}H{m}M` duration parser it uses.
  - The `get_imdb` table, sorted by descending numeric id.
  - The five rankings of the cached records.

How the model represents the module's data:
- A file is `Option<seq<string>>`: its lines, or `None` when it does not exist.
- A Python `dict` keeps insertion order. It is a `Dicts.Dict<K, V>`, a sequence of pairs in which assignment to a present key replaces the value in place and assignment to a new key appends.
- `Counter` is `Dicts.Tally`; `defaultdict(list)` is `Dicts.Group`; a stable `sorted` is `Sorting.Sort`; the slice `[:n]` (negative `n` included) is `Sorting.Prefix`.
- Several queries iterate over a Python `set`, whose order is not fixed. They take that order as a parameter, any duplicate-free listing of the set, and their lemmas hold for every such listing.
- Exceptions that escape to the caller are values of `Csv.Exception`: `StopIteration`, `KeyError(key)` and `ValueError(literal)`.
- Scores and money are exact `real`s.
- The network is a fetch oracle. `Enrichment.Fetch` maps a URL to the fields extracted from the page, or to `None` when the request fails.

The objects that change state are classes:
- `Catalog.Movies`, `TagAnalytics.Tags`, `RatingAnalytics.Ratings` and `Enrichment.Links`.
- Their loaders and accumulation loops are methods, proved against specification functions.
- The queries are those functions, and lemmas state what they promise.

Where the code lets an exception escape, the model returns it:
- The `Movies` constructor calls `next(f)` on the ratings, tags and movies files (lines 130, 139, 148), and the `Tags` constructor on its file (line 234). An empty file raises `StopIteration`. `read_csv_limited` returns no rows for an empty file instead.
- The `Movies` constructor's `int(parts[1])` raises `ValueError` for a non-integer id in the ratings or tags file (lines 134, 143). A malformed movie line is skipped by its own `try`/`except` (lines 152-174).
- `_load_data` raises `KeyError` for a missing column and `ValueError` for a value `int()` or `float()` rejects (lines 336-347). `_load_titles` does the same for `movies.csv` (line 533).
- The links map comprehension raises `KeyError('movieId')` for a row that has `imdbId` but no `movieId` (line 501). `get_ids` raises `KeyError` for a row without `movieId` (line 523).
- `_get_title` raises `ValueError` for a movie id that is not an integer (line 609).

`top_directors` counts the entries of the links map whose IMDb id is cached (lines 631-638). An IMDb id shared by two movies therefore counts twice, and cached records of unmapped ids count nothing.

## Model

| member | source | states |
|---|---|---|
| Csv.ParseCsvLine | src/movielens_analysis.py:17-21 | the line is split into one field more than the commas of the stripped line that are followed by an even number of double quotes |
| Csv.ParseCsvLineUnquoted | src/movielens_analysis.py:17-21 | no field begins or ends with a double quote |
| Csv.QuotedLineRoundTrip | src/movielens_analysis.py:17-21 | a line of quoted fields that hold no double quote parses back to exactly those fields, so a comma inside a quoted field never starts a field |
| Csv.QuotedSplit | src/movielens_analysis.py:19-20 | the commas that split such a line are exactly the ones between the fields |
| Csv.UnquoteSpec | src/movielens_analysis.py:21 | each field is a middle slice of its part with only double quotes cut off around it, and neither begins nor ends with a double quote |
| Csv.Limited | src/movielens_analysis.py:131-132 | `enumerate` with `if i >= limit: break` visits a prefix of the lines of length `min(limit, len)`, none for a limit of 0 or less |
| Csv.DataLines | src/movielens_analysis.py:34 | `lines[1:limit+1]` holds at most `limit` lines, the `i`-th being line `i + 1` |
| Csv.ReadCsvLimited | src/movielens_analysis.py:23-44 | the loop builds exactly the rows of the specification `ReadCsv`: none for a missing or empty file, otherwise the rows of the non-blank data lines of the header's width |
| Csv.ReadCsvBound | src/movielens_analysis.py:23-44 | at most `limit` rows are returned, blank lines using up the budget |
| Csv.ReadCsvRowShape | src/movielens_analysis.py:32-43 | every row has exactly the header's column names as keys, each once |
| Csv.RowsFromLines | src/movielens_analysis.py:36-43 | every row comes from one of the data lines |
| Csv.LinesGiveRows | src/movielens_analysis.py:36-43 | every non-blank data line with the header's field count gives a row |
| Csv.RowsBound | src/movielens_analysis.py:36-43 | no more rows than data lines |
| Csv.MakeRowShape | src/movielens_analysis.py:41-42 | a row's keys are distinct and are the header's names |
| Csv.RowLookup | src/movielens_analysis.py:41-42 | a row maps a column name to the field in the last column of that name |
| Catalog.IdsFromSpec | src/movielens_analysis.py:131-134 | collecting ids raises exactly when some line's id does not parse; otherwise the set holds exactly the ids of the lines with at least two fields |
| Catalog.IdsFromStops | src/movielens_analysis.py:134 | the first malformed id ends the collection; later lines change nothing |
| Catalog.CollectIds | src/movielens_analysis.py:128-143 | the loop over one file computes its referenced ids: none for a missing file, `StopIteration` for an empty one |
| Catalog.YearOf | src/movielens_analysis.py:164-166 | a year read from a title lies between 0 and 9999 |
| Catalog.YearOfSuffix | src/movielens_analysis.py:164-166 | a year is read only from a title whose stripped form ends in `(dddd)`, and it is the value of those four digits |
| Catalog.YearOfStripped | src/movielens_analysis.py:164-166 | a title whose stripped form ends in `(dddd)` has year `dddd` |
| Catalog.YearOfTitle | src/movielens_analysis.py:164-166 | a title written `name (yyyy)` has release year `yyyy` |
| Catalog.AdmittedSpec | src/movielens_analysis.py:149-174 | an entry is admitted exactly when some line admits it |
| Catalog.CatalogStep | src/movielens_analysis.py:168-172 | one more line read puts its entry into the catalog, or leaves it unchanged |
| Catalog.CatalogSpec | src/movielens_analysis.py:146-174 | the catalog's ids are distinct and are exactly the referenced ids of admitted lines; an id holds the movie of its last line, and a movie's year is the year of its stored title |
| Catalog.YearsOf | src/movielens_analysis.py:188 | the years listed are exactly those of movies that have one |
| Catalog.YearsOfDated | src/movielens_analysis.py:188 | one year per movie that has one |
| Catalog.ReleaseDistributionSpec | src/movielens_analysis.py:183-191 | counts never increase; each year of a movie maps to its number of movies and no other year appears; the counts add up to the number of movies with a year |
| Catalog.GenresOfSpec | src/movielens_analysis.py:200-201 | an empty or `(no genres listed)` field has no genres; otherwise one genre more than `\|` separators; no genre holds `\|`; joining the genres gives the field back |
| Catalog.GenreTokensSpec | src/movielens_analysis.py:199-202 | the genre mentions number the sum of the movies' genre counts, and a genre is mentioned exactly when some movie lists it |
| Catalog.GenreDistributionSpec | src/movielens_analysis.py:193-203 | counts never increase; each listed genre maps to its number of mentions and no other key appears; no key holds `\|`; the counts add up to the movies' genre counts |
| Catalog.TitleCountsSpec | src/movielens_analysis.py:210-217 | the keys are exactly the catalog's titles, each with the genre count of a movie with that title; duplicate titles overwrite each other |
| Catalog.GenreLeadersSpec | src/movielens_analysis.py:205-220 | `most_genres(n)` is a top-`n` selection of the title counts: at most `n` entries, non-increasing, none smaller than a title left out, each the genre count of a catalog movie with that title |
| Catalog.Movies.Empty | src/movielens_analysis.py:116-118 | a new object has an empty catalog and the given limit |
| Catalog.Movies.ReadMovies | src/movielens_analysis.py:146-174 | the movie loop leaves the catalog built from the first `limit` data lines |
| Catalog.Movies.DistByGenres | src/movielens_analysis.py:193-203 | the counter loop computes the genre distribution |
| Catalog.Movies.MostGenres | src/movielens_analysis.py:205-220 | the title loop and the sort compute `most_genres(n)` |
| Catalog.Movies.Open | src/movielens_analysis.py:116-174 | construction succeeds exactly when the specified load does, raising its exception otherwise, and leaves its catalog |
| TagAnalytics.TagRow | src/movielens_analysis.py:238-239 | a kept row has at least three fields |
| TagAnalytics.TagRows | src/movielens_analysis.py:235-243 | no more rows than lines, each with at least three fields |
| TagAnalytics.TagRowsSpec | src/movielens_analysis.py:235-243 | the rows are exactly the parsed lines with at least three fields |
| TagAnalytics.TagTextsRows | src/movielens_analysis.py:241-243 | the `k`-th tag text is the third field of the `k`-th row |
| TagAnalytics.LoadTags | src/movielens_analysis.py:227-243 | the load raises exactly for an empty file; texts and rows are equally many, at most `limit`, each text the row's third field |
| TagAnalytics.Tags.Empty | src/movielens_analysis.py:227-230 | a new object holds no tags and the given limit |
| TagAnalytics.Tags.ReadTags | src/movielens_analysis.py:232-243 | the loop leaves the rows and texts of the first `limit` data lines |
| TagAnalytics.Tags.Open | src/movielens_analysis.py:227-243 | construction succeeds exactly when the specified load does, raising its exception otherwise, and leaves its texts and rows |
| TagAnalytics.Tags.MostWords | src/movielens_analysis.py:248-260 | the loop over the distinct tags and the sort compute `most_words(n)` |
| TagAnalytics.Tags.TagsWith | src/movielens_analysis.py:298-310 | the loop over the distinct tags and the sort compute `tags_with(word)` |
| TagAnalytics.WordCountsSpec | src/movielens_analysis.py:253-257 | every distinct tag is counted once, with its number of whitespace-separated words |
| TagAnalytics.MostWordsSpec | src/movielens_analysis.py:248-260 | `min(n, distinct tags)` entries, non-increasing, each a tag with its word count, none with fewer words than a tag left out |
| TagAnalytics.LongestSpec | src/movielens_analysis.py:262-270 | `min(n, distinct tags)` distinct tags, non-increasing in length, none shorter than a tag left out |
| TagAnalytics.MostWordsAndLongestSpec | src/movielens_analysis.py:272-286 | a tag is in the result exactly when it is in both top-`n` results; at most `n` tags |
| TagAnalytics.PopularityCounts | src/movielens_analysis.py:295 | every tag is counted with its number of occurrences, duplicates included |
| TagAnalytics.MostPopularSpec | src/movielens_analysis.py:288-296 | none for `n <= 0`; otherwise `min(n, distinct tags)` entries, non-increasing, each a tag with its occurrence count, none rarer than a tag left out |
| TagAnalytics.Matching | src/movielens_analysis.py:303-309 | a tag is kept exactly when it is listed and contains the word ignoring case; no duplicates are introduced |
| TagAnalytics.TagsWithSpec | src/movielens_analysis.py:298-310 | exactly the distinct tags containing the word ignoring case, each once, in strictly ascending order |
| TagAnalytics.TagsWithAnyOrder | src/movielens_analysis.py:298-310 | the result does not depend on the set's iteration order |
| Metrics.AverageBounds | src/movielens_analysis.py:354-355 | the average of scores in `[lo, hi]` lies in `[lo, hi]` |
| Metrics.MedianPermutation | src/movielens_analysis.py:358-362 | the median depends only on the multiset of scores |
| Metrics.MedianBounds | src/movielens_analysis.py:358-362 | the median of scores in `[lo, hi]` lies in `[lo, hi]`, and is one of them for an odd count |
| Metrics.SquaredDeviationsZero | src/movielens_analysis.py:368 | a sum of squared deviations is never negative, and is 0 exactly when every score equals the centre |
| Metrics.VarianceNonNegative | src/movielens_analysis.py:365-368 | the variance is never negative |
| Metrics.VarianceZero | src/movielens_analysis.py:365-368 | the variance is 0 exactly when all scores are equal |
| Metrics.Round2Close | src/movielens_analysis.py:416 | rounding moves a value by at most half a hundredth and keeps it non-negative |
| RatingAnalytics.Field | src/movielens_analysis.py:337 | `row[key]` gives a value the row holds under that key, or raises `KeyError(key)` exactly when the key is absent |
| RatingAnalytics.RatingRowRoundTrip | src/movielens_analysis.py:335-341 | a ratings row written from a rating converts back to that rating |
| RatingAnalytics.TitleRowRoundTrip | src/movielens_analysis.py:346-347 | a movies row written from an id and a title gives the entry `(id, title)` |
| RatingAnalytics.TitleLookedUpFirst | src/movielens_analysis.py:347 | a movies row without a `title` column raises `KeyError('title')`, whatever its id holds |
| RatingAnalytics.ParseRowsSpec | src/movielens_analysis.py:335-341 | the rows before the first failing row convert to the values, in order; the exception is that row's; nothing escapes exactly when every row converts |
| RatingAnalytics.ParseRowsStep | src/movielens_analysis.py:335-341 | one more row converts and appends its value, or raises and ends the loop |
| RatingAnalytics.ParseRowsStops | src/movielens_analysis.py:335-341 | once a row has raised, later rows are not converted |
| RatingAnalytics.LoadedSpec | src/movielens_analysis.py:328-347 | a load that raises nothing keeps a rating for every row, in order, and maps each movie id to the title of its last row |
| RatingAnalytics.LoadedAgain | src/movielens_analysis.py:330-347 | loading again after a load that raised nothing changes nothing, even when no rating was loaded |
| RatingAnalytics.Ratings.Empty | src/movielens_analysis.py:316-321 | a new object holds its files and limit, no ratings and no titles |
| RatingAnalytics.Ratings.LoadData | src/movielens_analysis.py:328-347 | with ratings loaded nothing changes; otherwise the ratings, the titles and the escaping exception are those of the specified load |
| RatingAnalytics.Ratings.AppendRatings | src/movielens_analysis.py:335-341 | the first loop leaves the ratings of the rows up to the first that raises, and that row's exception |
| RatingAnalytics.Ratings.AssignTitles | src/movielens_analysis.py:346-347 | the second loop assigns the title of every row up to the first that raises, in order |
| RatingAnalytics.Ratings.Open | src/movielens_analysis.py:316-347 | construction raises exactly when the load does, and otherwise leaves the loaded ratings and titles |
| RatingAnalytics.Column | src/movielens_analysis.py:388-389 | one value per rating, in order |
| RatingAnalytics.PairKeys | src/movielens_analysis.py:410-411 | the keys of the (id, score) pairs are the ids the ratings carry |
| RatingAnalytics.Titled | src/movielens_analysis.py:400-403 | each selected `(mid, value)` becomes `(title or str(mid), value)`, in order |
| RatingAnalytics.TitledSpec | src/movielens_analysis.py:400-403 | writing the selection under titles keeps every selected movie, in order, exactly when no two titles coincide |
| RatingAnalytics.TitledEntry | src/movielens_analysis.py:400-403 | every entry shows a selected movie's value under its title |
| RatingAnalytics.Scored | src/movielens_analysis.py:413-416 | one entry per group, its key with the rounded metric of its scores |
| RatingAnalytics.ScoredSpec | src/movielens_analysis.py:409-416 | one entry per distinct key, each with the rounded metric of all its scores in file order |
| RatingAnalytics.DistByRatingSpec | src/movielens_analysis.py:383-389 | scores ascend strictly; each score given maps to its number of ratings and no other appears; the counts add up to the number of ratings |
| RatingAnalytics.TopByNumOfRatingsSpec | src/movielens_analysis.py:391-403 | the movies chosen are the `n` most rated; at most `n` entries; fewer than the movies chosen exactly when titles collide; counts never increase when they do not |
| RatingAnalytics.TopByNumOfRatingsCounts | src/movielens_analysis.py:391-403 | each entry is a rated movie's number of ratings under that movie's title |
| RatingAnalytics.TopByRatingsSpec | src/movielens_analysis.py:405-425 | the movies chosen have the `n` largest rounded metrics; at most `n` entries; fewer exactly when titles collide; values never increase when they do not |
| RatingAnalytics.TopByRatingsValues | src/movielens_analysis.py:405-425 | each entry is the rounded metric of all scores of a rated movie, under its title |
| RatingAnalytics.TopControversialSpec | src/movielens_analysis.py:427-444 | every value shown is a rounded variance, so at least 0 |
| RatingAnalytics.DistByNumOfRatingsSpec | src/movielens_analysis.py:451-460 | keys ascend strictly; each number of ratings maps to how many users gave exactly that many, and only numbers some user gave are keys; keys and counts are positive; the counts add up to the number of distinct users, and the sum of key times count is the number of ratings |
| RatingAnalytics.DistByRatingsSpec | src/movielens_analysis.py:462-475 | values ascend strictly; each value maps to how many users have it as their rounded metric, and only such values are keys; the user counts add up to the number of distinct users |
| RatingAnalytics.DistByRatingsValues | src/movielens_analysis.py:462-475 | each value is the rounded metric of all scores of some user |
| RatingAnalytics.UserTopControversialSpec | src/movielens_analysis.py:477-490 | the users chosen have the `n` largest rounded variances; at most `n` distinct users, each with the rounded variance of their scores, at least 0 |
| RatingAnalytics.CountRatings | src/movielens_analysis.py:386-388 | `c[key(r)] += 1` over the ratings builds the counter of the keys |
| RatingAnalytics.GroupRatings | src/movielens_analysis.py:409-411 | `groups[k].append(score)` over the ratings builds the grouping of the pairs |
| RatingAnalytics.ScoreGroups | src/movielens_analysis.py:413-416 | one rounded metric per group, in group order |
| RatingAnalytics.NameTop | src/movielens_analysis.py:420-423 | `res[title] = value` over the selection builds the dictionary of the titled pairs |
| RatingAnalytics.MovieQueries.DistByRating | src/movielens_analysis.py:383-389 | computes `dist_by_rating` over the loaded ratings |
| RatingAnalytics.MovieQueries.TopByNumOfRatings | src/movielens_analysis.py:391-403 | computes `top_by_num_of_ratings(n)` |
| RatingAnalytics.MovieQueries.TopByRatings | src/movielens_analysis.py:405-425 | computes `top_by_ratings(n, metric)`, the average by default |
| RatingAnalytics.MovieQueries.TopControversial | src/movielens_analysis.py:427-444 | computes `top_controversial(n)` as the ranking by rounded variance |
| RatingAnalytics.UserQueries.DistByNumOfRatings | src/movielens_analysis.py:451-460 | computes `dist_by_num_of_ratings` |
| RatingAnalytics.UserQueries.DistByRatings | src/movielens_analysis.py:462-475 | computes `dist_by_ratings(metric)`, the average by default |
| RatingAnalytics.UserQueries.TopControversial | src/movielens_analysis.py:477-490 | computes the users' `top_controversial(n)` |
| Enrichment.UrlInjective | src/movielens_analysis.py:540 | different IMDb ids request different pages |
| Enrichment.ParseDurationNone | src/movielens_analysis.py:569-570 | the duration search fails exactly when the text has no `PT` |
| Enrichment.DurationRoundTrip | src/movielens_analysis.py:568-573 | `PT{h}H{m}M`, either part optional, reads as `h * 60 + m` minutes, a missing part counting as 0 |
| Enrichment.FilledSpec | src/movielens_analysis.py:545-599 | a failed request leaves the defaults; otherwise director, budget and gross come from the page or stay at their defaults, and the runtime is the duration's minutes, never negative |
| Enrichment.Scraped | src/movielens_analysis.py:536-606 | after a scrape the id is cached; a cached id leaves the cache unchanged, a new one maps to the record filled from its page; every other entry stays |
| Enrichment.ScrapedTwice | src/movielens_analysis.py:537-538 | a second scrape of the same id fetches nothing, whatever the oracle would now answer |
| Enrichment.LinkPairsRaise | src/movielens_analysis.py:501 | building the links map raises exactly when a row has an `imdbId` and no `movieId`, and then with `KeyError('movieId')` |
| Enrichment.LinkPairsFrom | src/movielens_analysis.py:501 | otherwise a pair is built exactly when some row with an `imdbId` carries it, no more pairs than rows |
| Enrichment.LinkPairsKeys | src/movielens_analysis.py:501 | the pairs' movie ids are those of the rows with an `imdbId` |
| Enrichment.ImdbMapKeys | src/movielens_analysis.py:501 | the map's movie ids are distinct and are exactly those of the rows with an `imdbId` |
| Enrichment.ImdbMapLast | src/movielens_analysis.py:501 | each movie id maps to the `imdbId` of its last row |
| Enrichment.IdsOf | src/movielens_analysis.py:523 | the ids are the rows' `movieId`s, in order, or `KeyError('movieId')` exactly when a row has none |
| Enrichment.LookupTitle | src/movielens_analysis.py:608-609 | `_get_title` raises exactly when the movie id is not an integer |
| Enrichment.LookupTitleOfId | src/movielens_analysis.py:608-609 | `str(id)` finds the title stored under `id`, or else `Фильм {id}` |
| Enrichment.LoadTitles | src/movielens_analysis.py:531-533 | the loop assigns the title of every row up to the first that raises, and returns that exception |
| Enrichment.MeasuredRaises | src/movielens_analysis.py:640-677 | a ranking raises only with the `ValueError` of a qualifying movie whose id is no integer |
| Enrichment.MeasuredEntries | src/movielens_analysis.py:640-677 | the titles are distinct, and each entry is the title and value of a qualifying movie |
| Enrichment.MeasuredCovers | src/movielens_analysis.py:640-677 | every qualifying movie's title is a key |
| Enrichment.MeasuredStep | src/movielens_analysis.py:642-646 | one more links-map entry is skipped, assigned under its title, or raises |
| Enrichment.MeasuredStops | src/movielens_analysis.py:646 | once a title lookup has raised, later entries change nothing |
| Enrichment.RankedIsTop | src/movielens_analysis.py:647 | a ranking is a top-`n` selection: at most `n` titles, values non-increasing, none smaller than a title left out |
| Enrichment.RankedEntry | src/movielens_analysis.py:640-677 | each entry of a ranking is a qualifying movie's title and value |
| Enrichment.MostExpensiveEntry | src/movielens_analysis.py:640-647 | only positive budgets, each the budget of a mapped movie's cached record, under its title |
| Enrichment.MostProfitableEntry | src/movielens_analysis.py:649-657 | only movies with positive budget and gross, each valued at gross minus budget |
| Enrichment.LongestEntry | src/movielens_analysis.py:659-666 | only positive runtimes, each a mapped movie's runtime in minutes |
| Enrichment.CostPerMinuteEntry | src/movielens_analysis.py:668-676 | only movies with positive budget and runtime, each valued at the rounded budget per minute, never negative |
| Enrichment.CostPerMinuteNonNegative | src/movielens_analysis.py:673-675 | a positive budget over a positive runtime rounds to a non-negative value |
| Enrichment.DirectorsSpec | src/movielens_analysis.py:633-637 | a director is listed exactly when some mapped movie's cached record names them, at most once per mapped movie |
| Enrichment.DirectorsStep | src/movielens_analysis.py:633-637 | one more links-map entry adds its named director, or nothing |
| Enrichment.TopDirectorsSpec | src/movielens_analysis.py:631-638 | a top-`n` selection of the director counts, each the number of mapped movies whose cached record names that director |
| Enrichment.CollectedNext | src/movielens_analysis.py:616-628 | one more requested movie is skipped when unmapped; otherwise it is scraped, then raises on its title or adds its row |
| Enrichment.CollectedStops | src/movielens_analysis.py:623 | once a title lookup has raised, later movies change nothing |
| Enrichment.CollectedKeeps | src/movielens_analysis.py:616-628 | the loop keeps every cached record |
| Enrichment.CollectedAdds | src/movielens_analysis.py:616-620 | a record the loop adds belongs to a requested mapped movie's IMDb id, filled from its page |
| Enrichment.CollectedRaises | src/movielens_analysis.py:616-623 | the loop raises only with the `ValueError` of a mapped movie id that is no integer |
| Enrichment.CollectedIds | src/movielens_analysis.py:616-628 | without a raise the loop makes one row per requested mapped movie, in order |
| Enrichment.CollectedRowsFor | src/movielens_analysis.py:616-628 | each row shows its movie's title and the fields of the record the final cache holds for its IMDb id |
| Enrichment.CollectedScrapes | src/movielens_analysis.py:616-620 | without a raise every requested mapped movie's IMDb id ends up cached |
| Enrichment.RowForKept | src/movielens_analysis.py:616-628 | a row stays right when the cache only grows |
| Enrichment.ImdbTableSpec | src/movielens_analysis.py:614-629 | the table is sorted by descending numeric id, is a permutation of the collected rows, has one row per requested mapped movie, and each row shows its movie's title and cached fields |
| Enrichment.RowCells | src/movielens_analysis.py:626-627 | one cell per field, `data.get(field, None)` |
| Enrichment.Links.Of | src/movielens_analysis.py:496-505 | the object holds the given limit, rows, links map, titles and cache |
| Enrichment.Links.Open | src/movielens_analysis.py:496-514 | construction raises exactly when reading the links or the titles does; otherwise it holds them and the stored cache, or an empty one |
| Enrichment.Links.GetIds | src/movielens_analysis.py:520-523 | the `movieId`s of the first `n` rows (Python's `[:n]`), in order, or `KeyError` exactly when one of them has none |
| Enrichment.Links.Scrape | src/movielens_analysis.py:536-606 | the cache becomes the scraped cache and the record returned is the one cached for the id, the old one when it was cached |
| Enrichment.Links.GetImdb | src/movielens_analysis.py:614-629 | the table and the new cache are those of the specified collection and sort |
| Enrichment.Links.MeasureMovies | src/movielens_analysis.py:641-646 | the loop shared by the four movie rankings fills the measured dictionary |
| Enrichment.Links.TopDirectors | src/movielens_analysis.py:631-638 | the counting loop and the sort compute `top_directors(n)` |
| Enrichment.Links.MostExpensive | src/movielens_analysis.py:640-647 | computes `most_expensive(n)`: the ranking by budget |
| Enrichment.Links.MostProfitable | src/movielens_analysis.py:649-657 | computes `most_profitable(n)`: the ranking by profit |
| Enrichment.Links.Longest | src/movielens_analysis.py:659-666 | computes `longest(n)`: the ranking by runtime |
| Enrichment.Links.TopCostPerMinute | src/movielens_analysis.py:668-676 | computes `top_cost_per_minute(n)`: the ranking by rounded cost per minute |
| Ranking.ByCountDescSpec | src/movielens_analysis.py:191 | a descending sort by value has non-increasing values and the same entries, found under the same keys |
| Ranking.TopByCountIsTop | src/movielens_analysis.py:219-220 | sorting by count and slicing gives a top-`n` selection |
| Ranking.TopByScoreIsTop | src/movielens_analysis.py:418-421 | sorting by score and slicing gives a top-`n` selection |
| Ranking.ByIntKeyAscending | src/movielens_analysis.py:460 | sorting items by key makes distinct keys strictly ascending and keeps the entries |
| Ranking.ByRealKeyAscending | src/movielens_analysis.py:389 | the same for real keys |
| Sorting.Sort | src/movielens_analysis.py:191 | the sort's output is a permutation of its input |
| Sorting.SortSorted | src/movielens_analysis.py:191 | the sort's output is in the order its relation demands |
| Sorting.SortDistinctBy | src/movielens_analysis.py:219 | sorting keeps distinct keys distinct |
| Sorting.Prefix | src/movielens_analysis.py:220 | `s[:n]` is a prefix of `s` of length `min(n, len)`, or `len + n` (at least 0) for a negative `n` |
| Sorting.TopOfSort | src/movielens_analysis.py:219-220 | the first `n` of a sorted copy are elements of the input, in order, each before every element left out |
| Dicts.FromPairsShape | src/movielens_analysis.py:217 | assigning pairs in turn gives distinct keys, exactly the pairs' keys |
| Dicts.FromPairsGet | src/movielens_analysis.py:217 | a key holds the value of its last assignment |
| Dicts.FromPairsSize | src/movielens_analysis.py:400-403 | assigning pairs keeps every pair, in order, exactly when their keys are distinct |
| Dicts.TallyGet | src/movielens_analysis.py:189 | a counter maps each element to its number of occurrences, and nothing else |
| Dicts.TallyTotal | src/movielens_analysis.py:386-388 | a counter's counts add up to the number of elements |
| Dicts.TallyWeighted | src/movielens_analysis.py:459 | counting the counts: the sum of count times multiplicity is the number of elements |
| Dicts.GroupGet | src/movielens_analysis.py:409-411 | each key holds all its values in input order; keys with no value are absent |
| Dicts.GroupKeySet | src/movielens_analysis.py:409-411 | one group per distinct key |
| Text.SplitCount | src/movielens_analysis.py:201 | splitting yields one piece more than separators |
| Text.SplitJoin | src/movielens_analysis.py:201 | joining the pieces with the separator gives the string back |
| Text.WordCountStarts | src/movielens_analysis.py:257 | `len(s.split())` is the number of word starts |
| Text.Lower | src/movielens_analysis.py:308 | the result has no ASCII capital; a capital becomes its small letter and every other character is unchanged |
| Text.ContainsAt | src/movielens_analysis.py:308 | `needle in hay` holds exactly when the needle occurs at some position |
| Text.LexLeqTotal | src/movielens_analysis.py:310 | any two strings are ordered one way or the other |
| Text.LexLeqTransitive | src/movielens_analysis.py:310 | string order is transitive |
| Text.LexLeqAntisymmetric | src/movielens_analysis.py:310 | string order is antisymmetric |
| Text.ParseIntSpec | src/movielens_analysis.py:155 | `int()` succeeds exactly on surrounding whitespace, an optional sign and a run of ASCII digits with single underscores between them; the value is negative only after a `-`, and its magnitude is the value of the digits |
| Text.IntToStringRoundTrip | src/movielens_analysis.py:609 | `int(str(i)) == i` |
| Text.DecimalOfIntString | src/movielens_analysis.py:339 | `float(str(i)) == i` |

## Left out

- `ResultVisualizer` and the `show` methods: HTML presentation only.
- The HTTP request and the HTML and JSON-LD extraction in `_scrape_imdb`: network I/O and a foreign parsing library. They are the fetch oracle `Enrichment.Fetch`. Only the duration parser is modelled as code.
- `_load_cache` and `_save_cache`: JSON file I/O. `Enrichment.Links.Open` takes the stored cache as a parameter, with `None` meaning a missing or unreadable file.
- Cached records read back from a JSON file that lacks some of the four keys: cached records always have all four fields.
- `Ratings.Movies.dist_by_year`: the year depends on the local time zone.
- Paths, `os.path.exists`, `open`, `readlines` and `os.path.join`: each file is an optional list of lines. The files do not change between calls.
- The `Tests` class and the pytest entry point.
- `Ratings.Users` inherits the methods of `Ratings.Movies` in Python. The model gives `RatingAnalytics.UserQueries` only the user queries.
- The implicit `_load_data()` at the start of every query: the queries read the loaded ratings, and reloading is `RatingAnalytics.Ratings.LoadData`.
- Metrics.Round2: `round(x, 2)` on an exact real rounds to the nearest hundredth with ties to even. The binary floating-point value and its representation error are not modelled.
- Text.ParseDecimal: `float()` accepts only a sign, digits and an optional fraction. Exponents, `inf`, `nan` and underscores are not modelled.
- Text.ParseDecimal: only ASCII digits are accepted. Python's `float()` also accepts other Unicode decimal digits, such as full-width or Arabic-Indic ones; the files are read as text, and non-ASCII digits are not modelled.
- Text.ParseInt: only ASCII digits are accepted. Python's `int()` also accepts other Unicode decimal digits (`int("１２") == 12`); non-ASCII digits are not modelled.
- Text.Lower: only ASCII capitals are lowered; `str.lower()` also lowers other Unicode letters, which the model leaves unchanged. Likewise the `\d` in the year and duration patterns is modelled as ASCII digits only, while Python's `\d` on text also matches other Unicode decimal digits.
- TagAnalytics.MostWordsAndLongestOf: Python returns the intersection as a list in set order. The model returns the set.
- Enrichment.Links.GetImdb: movie ids are passed as strings. `get_ids` returns the `movieId` strings of the rows, and an integer `mid` behaves exactly as `str(mid)` does, because the code converts it with `str(mid)` first; so string ids suffice.
- Enrichment.LongestEntry: runtimes are integers in Python. The model reports them as reals, so all four rankings share one type.
- RatingAnalytics.TopByNumOfRatingsSpec: descending counts are proved only when the chosen titles are distinct. With a collision, the later movie's value takes the earlier title's position.
- RatingAnalytics.TopByRatingsSpec: descending values are proved only when the chosen titles are distinct, for the same reason.
- Tie order in rankings over a Python `set` is not stated. The lemmas hold for every iteration order of the set.
