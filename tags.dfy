/**
 * The `Tags` analytics. The loader keeps, for each of the first `limit` data
 * lines of the tags file that has at least three fields, the parsed row and
 * its tag text (the third field). The queries rank the distinct tags by word
 * count and by length, intersect those two rankings, count how often each tag
 * occurs, and search the distinct tags for a word, ignoring case.
 *
 * Several queries iterate over `set(self.tags_data)`, whose order Python does
 * not fix; they take that iteration order as a parameter `uniq`, any
 * duplicate-free listing of the distinct tags, and their lemmas hold for every
 * such listing.
 */
module TagAnalytics {
  import opened Wrappers
  import opened Text
  import opened Dicts
  import opened Csv
  import opened Sorting
  import opened Ranking

  // ----- loading -----

  /** The parsed lines with at least three fields, in order. */
  function TagRows(lines: seq<string>): (rows: seq<seq<string>>)
    ensures |rows| <= |lines|
    ensures forall k :: 0 <= k < |rows| ==> |rows[k]| >= 3
    decreases |lines|
  {
    if lines == [] then []
    else
      var prev := TagRows(lines[..|lines| - 1]);
      match TagRow(lines[|lines| - 1])
      case Some(parts) => prev + [parts]
      case None => prev
  }

  /** `parse_csv_line(line)` when it has at least three fields. */
  function TagRow(line: string): (r: Option<seq<string>>)
    ensures r.Some? ==> |r.value| >= 3
  {
    var parts := ParseCsvLine(line);
    if |parts| >= 3 then Some(parts) else None
  }

  /** The rows are exactly the parsed lines with at least three fields. */
  lemma {:induction false} TagRowsSpec(lines: seq<string>)
    ensures forall r :: r in TagRows(lines) <==> exists line :: line in lines && TagRow(line) == Some(r)
    decreases |lines|
  {
    if lines != [] {
      var init := lines[..|lines| - 1];
      var last := lines[|lines| - 1];
      TagRowsSpec(init);
      assert lines == init + [last];
      assert forall line :: line in lines <==> line in init || line == last;
    }
  }

  /** The tag text, `parts[2]`, of each row `TagRows` keeps. */
  function TagTexts(lines: seq<string>): seq<string>
    decreases |lines|
  {
    if lines == [] then []
    else
      var prev := TagTexts(lines[..|lines| - 1]);
      match TagRow(lines[|lines| - 1])
      case Some(parts) => prev + [parts[2]]
      case None => prev
  }

  /** The `k`-th tag text is the third field of the `k`-th row. */
  lemma {:induction false} TagTextsRows(lines: seq<string>)
    ensures |TagTexts(lines)| == |TagRows(lines)|
    ensures forall k :: 0 <= k < |TagTexts(lines)| ==> TagTexts(lines)[k] == TagRows(lines)[k][2]
    decreases |lines|
  {
    if lines != [] {
      var init := lines[..|lines| - 1];
      TagTextsRows(init);
      var row := TagRow(lines[|lines| - 1]);
      if row.Some? {
        var rows := TagRows(init) + [row.value];
        var texts := TagTexts(init) + [row.value[2]];
        assert TagRows(lines) == rows && TagTexts(lines) == texts;
        forall k | 0 <= k < |texts| ensures texts[k] == rows[k][2] {
          if k < |TagTexts(init)| {
            assert texts[k] == TagTexts(init)[k] && rows[k] == TagRows(init)[k];
          }
        }
      }
    }
  }

  /** One more line read. */
  lemma TagRowsStep(lines: seq<string>, i: int, row: Option<seq<string>>)
    requires 0 <= i < |lines| && row == TagRow(lines[i])
    ensures row.Some? ==> TagRows(lines[..i + 1]) == TagRows(lines[..i]) + [row.value]
    ensures row.Some? ==> TagTexts(lines[..i + 1]) == TagTexts(lines[..i]) + [row.value[2]]
    ensures row.None? ==> TagRows(lines[..i + 1]) == TagRows(lines[..i])
    ensures row.None? ==> TagTexts(lines[..i + 1]) == TagTexts(lines[..i])
  {
    assert lines[..i + 1][..i] == lines[..i];
  }

  /** What `Tags(path, limit)` leaves in `self.tags_data` and `self.rows`, or
      the exception it raises: a missing file gives nothing, an empty one
      fails on the header. */
  function LoadTags(file: Option<seq<string>>, limit: int): (r: Result<(seq<string>, seq<seq<string>>), Exception>)
    ensures r.Success? ==> |r.value.0| == |r.value.1| <= (if limit < 0 then 0 else limit)
    ensures r.Success? ==> forall k :: 0 <= k < |r.value.1| ==> |r.value.1[k]| >= 3 && r.value.0[k] == r.value.1[k][2]
    ensures r.Failure? <==> file == Some([])
  {
    match file
    case None => Success(([], []))
    case Some(lines) =>
      if lines == [] then Failure(StopIteration)
      else
        var read := Limited(lines[1..], limit);
        TagTextsRows(read);
        Success((TagTexts(read), TagRows(read)))
  }

  // ----- the class -----

  /** The `Tags` object: the tag texts, the rows they come from, the limit. */
  class Tags {
    var tagsData: seq<string>
    var rows: seq<seq<string>>
    const limit: int

    constructor Empty(limit: int)
      ensures tagsData == [] && rows == [] && this.limit == limit
    {
      tagsData := [];
      rows := [];
      this.limit := limit;
    }

    /** The loop of the constructor over the data lines. */
    method ReadTags(rest: seq<string>)
      requires tagsData == [] && rows == []
      modifies this
      ensures rows == TagRows(Limited(rest, limit))
      ensures tagsData == TagTexts(Limited(rest, limit))
    {
      ghost var read := Limited(rest, limit);
      var texts: seq<string> := [];
      var kept: seq<seq<string>> := [];
      var i := 0;
      while i < |rest|
        invariant 0 <= i <= |rest| && (i <= limit || i == 0)
        invariant kept == TagRows(read[..i]) && texts == TagTexts(read[..i])
        decreases |rest| - i
      {
        if i >= limit {
          break;
        }
        assert read[i] == rest[i];
        var row := TagRow(rest[i]);
        TagRowsStep(read, i, row);
        if row.Some? {
          var parts := row.value;
          texts := texts + [parts[2]];
          kept := kept + [parts];
        }
        i := i + 1;
      }
      assert read[..i] == read;
      tagsData := texts;
      rows := kept;
    }

    /** `Tags(path, limit)`, given the tags file (`None` when absent). */
    static method Open(file: Option<seq<string>>, limit: int) returns (r: Result<Tags, Exception>)
      ensures r.Success? <==> LoadTags(file, limit).Success?
      ensures r.Failure? ==> r.error == LoadTags(file, limit).error
      ensures r.Success? ==> (fresh(r.value) && r.value.limit == limit
        && (r.value.tagsData, r.value.rows) == LoadTags(file, limit).value)
    {
      var t := new Tags.Empty(limit);
      if file.None? {
        return Success(t);
      }
      var lines := file.value;
      if lines == [] {
        return Failure(StopIteration);
      }
      t.ReadTags(lines[1..]);
      return Success(t);
    }

    /** `most_words(n)`, iterating over the distinct tags in the order `uniq`. */
    method MostWords(uniq: seq<string>, n: int) returns (r: Dict<string, int>)
      requires Enumerates(uniq, tagsData)
      ensures r == MostWordsOf(uniq, n)
    {
      var res: Dict<string, int> := [];
      for i := 0 to |uniq|
        invariant res == FromPairs(WordPairs(uniq[..i]))
      {
        var t := uniq[i];
        WordPairsSnoc(uniq, i);
        FromPairsSnoc(WordPairs(uniq[..i]), (t, WordCount(t)));
        res := Put(res, t, |Words(t)|);
      }
      assert uniq[..|uniq|] == uniq;
      r := TopByCount(res, n);
    }

    /** `tags_with(word)`, iterating over the distinct tags in the order `uniq`. */
    method TagsWith(uniq: seq<string>, word: string) returns (r: seq<string>)
      requires Enumerates(uniq, tagsData)
      ensures r == TagsWithOf(uniq, word)
    {
      var result: seq<string> := [];
      for i := 0 to |uniq|
        invariant result == Matching(uniq[..i], word)
      {
        assert uniq[..i + 1][..i] == uniq[..i];
        if Contains(Lower(uniq[i]), Lower(word)) {
          result := result + [uniq[i]];
        }
      }
      assert uniq[..|uniq|] == uniq;
      r := Sort(result, LexLeq);
    }
  }

  // ----- the distinct tags -----

  /** `uniq` lists `set(tags)`: every tag once, in some order. */
  ghost predicate Enumerates(uniq: seq<string>, tags: seq<string>) {
    Distinct(uniq) && forall t :: t in uniq <==> t in tags
  }

  // ----- most_words -----

  /** `(t, len(t.split()))` for each distinct tag, in iteration order. */
  function WordPairs(uniq: seq<string>): seq<(string, int)> {
    seq(|uniq|, i requires 0 <= i < |uniq| => (uniq[i], WordCount(uniq[i])))
  }

  lemma WordPairsSnoc(uniq: seq<string>, i: int)
    requires 0 <= i < |uniq|
    ensures WordPairs(uniq[..i + 1]) == WordPairs(uniq[..i]) + [(uniq[i], WordCount(uniq[i]))]
  {
    var a := WordPairs(uniq[..i + 1]);
    var b := WordPairs(uniq[..i]) + [(uniq[i], WordCount(uniq[i]))];
    forall k | 0 <= k < |a| ensures a[k] == b[k] {
      assert uniq[..i + 1][k] == uniq[k];
      if k < i {
        assert uniq[..i][k] == uniq[k];
      }
    }
  }

  /** `res[t] = len(t.split())` over the distinct tags. */
  function WordCounts(uniq: seq<string>): Dict<string, int> {
    FromPairs(WordPairs(uniq))
  }

  /** `most_words(n)`: the `n` distinct tags with the most words. */
  function MostWordsOf(uniq: seq<string>, n: int): Dict<string, int> {
    TopByCount(WordCounts(uniq), n)
  }

  /** Every distinct tag is counted once, with its number of words. */
  lemma WordCountsSpec(tags: seq<string>, uniq: seq<string>)
    requires Enumerates(uniq, tags)
    ensures DistinctKeys(WordCounts(uniq)) && |WordCounts(uniq)| == |uniq|
    ensures forall e :: e in WordCounts(uniq) <==> e.0 in tags && e.1 == WordCount(e.0)
  {
    var ps := WordPairs(uniq);
    assert DistinctKeys(ps) by {
      forall i, j | 0 <= i < j < |ps| ensures Key(ps[i]) != Key(ps[j]) {
        assert Itself(uniq[i]) != Itself(uniq[j]);
      }
    }
    FromPairsDistinct(ps);
    forall e ensures e in ps <==> e.0 in tags && e.1 == WordCount(e.0) {
      if e.0 in tags && e.1 == WordCount(e.0) {
        var i :| 0 <= i < |uniq| && uniq[i] == e.0;
        assert ps[i] == e;
      }
    }
  }

  /** `most_words(n)` keeps `min(n, number of distinct tags)` tags (for
      `n >= 0`), each with its word count, in non-increasing word count, and
      no tag left out has more words than a tag kept. */
  lemma MostWordsSpec(tags: seq<string>, uniq: seq<string>, n: int)
    requires Enumerates(uniq, tags)
    ensures n >= 0 ==> |MostWordsOf(uniq, n)| == if n < |uniq| then n else |uniq|
    ensures NonIncreasing(MostWordsOf(uniq, n)) && DistinctKeys(MostWordsOf(uniq, n))
    ensures forall e :: e in MostWordsOf(uniq, n) ==> e.0 in tags && e.1 == WordCount(e.0)
    ensures forall e, t :: e in MostWordsOf(uniq, n) && t in tags && t !in KeySet(MostWordsOf(uniq, n)) ==>
      e.1 >= WordCount(t)
  {
    var d := WordCounts(uniq);
    var r := MostWordsOf(uniq, n);
    WordCountsSpec(tags, uniq);
    TopByCountIsTop(d, n);
    forall e, t | e in r && t in tags && t !in KeySet(r) ensures e.1 >= WordCount(t) {
      var x := (t, WordCount(t));
      assert x in d;
    }
  }

  // ----- longest -----

  /** "May come before" for `sorted(..., key=len, reverse=True)`. */
  predicate LongerEq(a: string, b: string) { |a| >= |b| }

  /** `longest(n)`: the distinct tags by non-increasing length, the first `n`. */
  function LongestOf(uniq: seq<string>, n: int): seq<string> {
    Prefix(Sort(uniq, LongerEq), n)
  }

  /** `longest(n)` keeps `min(n, number of distinct tags)` distinct tags (for
      `n >= 0`) in non-increasing length, and no tag left out is longer than a
      tag kept. */
  lemma LongestSpec(tags: seq<string>, uniq: seq<string>, n: int)
    requires Enumerates(uniq, tags)
    ensures n >= 0 ==> |LongestOf(uniq, n)| == if n < |uniq| then n else |uniq|
    ensures Distinct(LongestOf(uniq, n))
    ensures forall t :: t in LongestOf(uniq, n) ==> t in tags
    ensures forall i, j :: 0 <= i < j < |LongestOf(uniq, n)| ==> |LongestOf(uniq, n)[i]| >= |LongestOf(uniq, n)[j]|
    ensures forall t, u :: t in LongestOf(uniq, n) && u in tags && u !in LongestOf(uniq, n) ==> |t| >= |u|
  {
    var s := Sort(uniq, LongerEq);
    assert TotalPreorder(LongerEq);
    TopOfSort(uniq, n, LongerEq);
    SortDistinctBy(uniq, LongerEq, Itself);
    PrefixDistinctBy(s, n, Itself);
  }

  // ----- most_words_and_longest -----

  /** `most_words_and_longest(n)`: the tags in both top-n results. The list
      Python builds from the set intersection has no defined order, so the
      model returns the set. */
  function MostWordsAndLongestOf(uniq: seq<string>, n: int): set<string> {
    KeySet(MostWordsOf(uniq, n)) * (set t | t in LongestOf(uniq, n))
  }

  /** The intersection holds at most `n` tags (for `n >= 0`), each a tag that
      is in both top-n results: no tag has more words unless it too made the
      word ranking, and none is longer unless it too made the length ranking. */
  lemma MostWordsAndLongestSpec(tags: seq<string>, uniq: seq<string>, n: int)
    requires Enumerates(uniq, tags)
    ensures forall t :: t in MostWordsAndLongestOf(uniq, n) <==>
      t in KeySet(MostWordsOf(uniq, n)) && t in LongestOf(uniq, n)
    ensures n >= 0 ==> |MostWordsAndLongestOf(uniq, n)| <= n
    ensures forall t, u :: t in MostWordsAndLongestOf(uniq, n) && u in tags && u !in KeySet(MostWordsOf(uniq, n)) ==>
      WordCount(t) >= WordCount(u)
    ensures forall t, u :: t in MostWordsAndLongestOf(uniq, n) && u in tags && u !in LongestOf(uniq, n) ==>
      |t| >= |u|
  {
    var mw := MostWordsOf(uniq, n);
    var r := MostWordsAndLongestOf(uniq, n);
    MostWordsSpec(tags, uniq, n);
    LongestSpec(tags, uniq, n);
    DistinctKeysCard(mw);
    assert r <= KeySet(mw);
    SubsetCard(r, KeySet(mw));
    forall t, u | t in r && u in tags && u !in KeySet(mw) ensures WordCount(t) >= WordCount(u) {
      var i :| 0 <= i < |mw| && mw[i].0 == t;
      assert mw[i] in mw;
    }
  }

  lemma SubsetCard<T>(a: set<T>, b: set<T>)
    requires a <= b
    ensures |a| <= |b|
  {
    assert b == a + (b - a);
  }

  // ----- most_popular -----

  /** `dict(Counter(tags_data).most_common(n))`: every occurrence counts. */
  function MostPopularOf(tags: seq<string>, n: int): Dict<string, int> {
    MostCommon(Tally(tags), n)
  }

  /** Every tag is counted with its number of occurrences. */
  lemma PopularityCounts(tags: seq<string>)
    ensures DistinctKeys(Tally(tags)) && |Tally(tags)| == |set t | t in tags|
    ensures forall e :: e in Tally(tags) <==> e.0 in tags && e.1 == multiset(tags)[e.0]
  {
    var c := Tally(tags);
    TallyDistinct(tags);
    TallySize(tags);
    forall e ensures e in c <==> e.0 in tags && e.1 == multiset(tags)[e.0] {
      GetIffEntry(c, e.0);
      TallyGet(tags, e.0);
    }
  }

  /** `most_popular(n)` is empty for `n <= 0`; otherwise it keeps
      `min(n, number of distinct tags)` tags, each with its number of
      occurrences, in non-increasing count, and no tag left out occurs more
      often than a tag kept. */
  lemma MostPopularSpec(tags: seq<string>, n: int)
    ensures n <= 0 ==> MostPopularOf(tags, n) == []
    ensures n > 0 ==> |MostPopularOf(tags, n)| == if n < |set t | t in tags| then n else |set t | t in tags|
    ensures NonIncreasing(MostPopularOf(tags, n)) && DistinctKeys(MostPopularOf(tags, n))
    ensures forall e :: e in MostPopularOf(tags, n) ==> e.0 in tags && e.1 == multiset(tags)[e.0]
    ensures forall e, t :: e in MostPopularOf(tags, n) && t in tags && t !in KeySet(MostPopularOf(tags, n)) ==>
      e.1 >= multiset(tags)[t]
  {
    var c := Tally(tags);
    PopularityCounts(tags);
    if n > 0 {
      var r := TopByCount(c, n);
      TopByCountIsTop(c, n);
      forall e, t | e in r && t in tags && t !in KeySet(r) ensures e.1 >= multiset(tags)[t] {
        assert (t, multiset(tags)[t]) in c;
      }
    }
  }

  // ----- tags_with -----

  /** `word.lower() in t.lower()`. */
  predicate Mentions(t: string, word: string) {
    Contains(Lower(t), Lower(word))
  }

  /** The distinct tags mentioning `word`, in iteration order. */
  function Matching(uniq: seq<string>, word: string): (r: seq<string>)
    ensures forall t :: t in r <==> t in uniq && Mentions(t, word)
    ensures Distinct(uniq) ==> Distinct(r)
    decreases |uniq|
  {
    if uniq == [] then []
    else
      var init := uniq[..|uniq| - 1];
      var last := uniq[|uniq| - 1];
      assert uniq == init + [last];
      assert forall t :: t in uniq <==> t in init || t == last;
      var prev := Matching(init, word);
      assert Distinct(uniq) ==> Distinct(init) && last !in init by {
        if Distinct(uniq) {
          forall i, j | 0 <= i < j < |init| ensures Itself(init[i]) != Itself(init[j]) {
            assert Itself(uniq[i]) != Itself(uniq[j]);
          }
          forall i | 0 <= i < |init| ensures init[i] != last {
            assert Itself(uniq[i]) != Itself(uniq[|uniq| - 1]);
          }
        }
      }
      if Mentions(last, word) then
        assert Distinct(uniq) ==> Distinct(prev + [last]) by {
          if Distinct(uniq) {
            var r := prev + [last];
            forall i, j | 0 <= i < j < |r| ensures Itself(r[i]) != Itself(r[j]) {
              if j == |prev| {
                assert r[i] in prev;
              } else {
                assert Itself(prev[i]) != Itself(prev[j]);
              }
            }
          }
        }
        prev + [last]
      else prev
  }

  /** `tags_with(word)`: the matching distinct tags in ascending order. */
  function TagsWithOf(uniq: seq<string>, word: string): seq<string> {
    Sort(Matching(uniq, word), LexLeq)
  }

  lemma LexLeqOrder()
    ensures TotalPreorder(LexLeq) && Antisymmetric(LexLeq)
  {
    forall a, b ensures LexLeq(a, b) || LexLeq(b, a) {
      LexLeqTotal(a, b);
    }
    forall a, b, c | LexLeq(a, b) && LexLeq(b, c) ensures LexLeq(a, c) {
      LexLeqTransitive(a, b, c);
    }
    forall a, b | LexLeq(a, b) && LexLeq(b, a) ensures a == b {
      LexLeqAntisymmetric(a, b);
    }
  }

  /** `tags_with(word)` lists exactly the distinct tags that contain `word`
      ignoring case, each once, in strictly ascending order. */
  lemma TagsWithSpec(tags: seq<string>, uniq: seq<string>, word: string)
    requires Enumerates(uniq, tags)
    ensures forall t :: t in TagsWithOf(uniq, word) <==> t in tags && Mentions(t, word)
    ensures Distinct(TagsWithOf(uniq, word)) && Sorted(TagsWithOf(uniq, word), LexLeq)
  {
    var m := Matching(uniq, word);
    var r := TagsWithOf(uniq, word);
    LexLeqOrder();
    SortSorted(m, LexLeq);
    SortDistinctBy(m, LexLeq, Itself);
    forall t ensures t in r <==> t in m {
      assert t in r <==> t in multiset(r);
    }
  }

  /** The result of `tags_with(word)` does not depend on the order in which the
      set of tags is iterated. */
  lemma TagsWithAnyOrder(tags: seq<string>, uniq: seq<string>, other: seq<string>, word: string)
    requires Enumerates(uniq, tags) && Enumerates(other, tags)
    ensures TagsWithOf(uniq, word) == TagsWithOf(other, word)
  {
    TagsWithSpec(tags, uniq, word);
    TagsWithSpec(tags, other, word);
    LexLeqOrder();
    SortedSetUnique(TagsWithOf(uniq, word), TagsWithOf(other, word), LexLeq);
  }
}
