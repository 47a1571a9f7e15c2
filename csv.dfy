/**
 * The CSV helpers of the analytics module: `parse_csv_line`, which splits a
 * line at the commas that stand outside double quotes and strips the quotes
 * off every field, and `read_csv_limited`, which reads a header line and at
 * most `limit` data lines into one dictionary per row.
 */
module Csv {
  import opened Wrappers
  import opened Text
  import opened Dicts
  import Sorting

  /** The exceptions the loaders let escape: `next(f)` on an empty file,
      a missing column in a row dictionary, an `int()`/`float()` that fails. */
  datatype Exception = StopIteration | KeyError(key: string) | ValueError(literal: string)

  /** The lines `for i, line in enumerate(lines): if i >= limit: break` visits. */
  function Limited(lines: seq<string>, limit: int): (r: seq<string>)
    ensures r <= lines
    ensures |r| == if limit <= 0 then 0 else if limit < |lines| then limit else |lines|
  {
    if limit <= 0 then [] else Sorting.Prefix(lines, limit)
  }

  /** The number of double quotes in `s`. */
  function QuoteCount(s: string): nat {
    if s == [] then 0 else (if s[0] == '"' then 1 else 0) + QuoteCount(s[1..])
  }

  lemma {:induction false} QuoteCountConcat(a: string, b: string)
    ensures QuoteCount(a + b) == QuoteCount(a) + QuoteCount(b)
  {
    if a != [] {
      assert (a + b)[1..] == a[1..] + b;
      QuoteCountConcat(a[1..], b);
    } else {
      assert a + b == b;
    }
  }

  lemma {:induction false} QuoteFree(s: string)
    requires '"' !in s
    ensures QuoteCount(s) == 0
  {
    if s != [] { QuoteFree(s[1..]); }
  }

  /** A comma followed by an even number of double quotes up to the end of the
      line, which is what the lookahead `(?=(?:[^"]*"[^"]*")*[^"]*$)` accepts. */
  predicate CsvBoundary(c: char, rest: string) {
    c == ',' && QuoteCount(rest) % 2 == 0
  }

  /** `parse_csv_line(line)`: strip the line, split it at every boundary comma,
      strip double quotes off both ends of each field. */
  function ParseCsvLine(line: string): (fields: seq<string>)
    ensures |fields| == CountSeps(Strip(line), CsvBoundary) + 1
  {
    SplitCount(Strip(line), CsvBoundary);
    Unquote(SplitAt(Strip(line), CsvBoundary))
  }

  /** No field begins or ends with a double quote. */
  lemma ParseCsvLineUnquoted(line: string)
    ensures forall f :: f in ParseCsvLine(line) ==> f == [] || (f[0] != '"' && f[|f| - 1] != '"')
  {
    var fields := ParseCsvLine(line);
    UnquoteSpec(SplitAt(Strip(line), CsvBoundary));
    forall f | f in fields ensures f == [] || (f[0] != '"' && f[|f| - 1] != '"') {
      var i :| 0 <= i < |fields| && fields[i] == f;
    }
  }

  /** `[p.strip('"') for p in parts]`. */
  function Unquote(parts: seq<string>): (fields: seq<string>)
    ensures |fields| == |parts|
  {
    seq(|parts|, i requires 0 <= i < |parts| => Trim(parts[i], IsQuote))
  }

  /** `field` is `part` with some double quotes cut off at each end. */
  ghost predicate QuotesCut(part: string, field: string) {
    exists k :: TrimmedAt(part, k, field, IsQuote)
  }

  /** Each field is its part with the runs of double quotes at both ends cut
      off, and so neither begins nor ends with one. */
  lemma UnquoteSpec(parts: seq<string>)
    ensures forall i :: 0 <= i < |parts| ==> QuotesCut(parts[i], Unquote(parts)[i])
    ensures forall i :: 0 <= i < |parts| ==> var f := Unquote(parts)[i];
      f == [] || (f[0] != '"' && f[|f| - 1] != '"')
  {
    var fields := Unquote(parts);
    forall i | 0 <= i < |parts| ensures QuotesCut(parts[i], fields[i]) {
      var k :| TrimmedAt(parts[i], k, fields[i], IsQuote);
    }
  }

  // ----- writing a line back -----

  /** No separator position among the first `n` characters of `s`. */
  predicate NoSepBefore(s: string, n: int, sep: (char, string) -> bool) {
    0 <= n <= |s| && forall j :: 0 <= j < n ==> !SepAt(s, sep, j)
  }

  /** The separator positions of `JoinWith(parts, c)` are exactly the joints. */
  ghost predicate CleanJoin(parts: seq<string>, c: char, sep: (char, string) -> bool)
    decreases |parts|
  {
    |parts| >= 1 &&
    var s := JoinWith(parts, c);
    NoSepBefore(s, |parts[0]|, sep) &&
    (|parts| > 1 ==> sep(c, JoinWith(parts[1..], c)) && CleanJoin(parts[1..], c, sep))
  }

  lemma {:induction false} JoinPrefix(parts: seq<string>, c: char)
    requires |parts| >= 1
    ensures JoinWith(parts, c) == if |parts| == 1 then parts[0] else parts[0] + [c] + JoinWith(parts[1..], c)
  {
  }

  lemma FindSepIs(s: string, sep: (char, string) -> bool, n: nat)
    requires NoSepBefore(s, n, sep)
    requires n < |s| ==> SepAt(s, sep, n)
    ensures FindSep(s, sep) == n
  {
  }

  /** The first joint of a clean join is where splitting cuts first. */
  lemma JoinSplitStep(parts: seq<string>, c: char, sep: (char, string) -> bool)
    requires |parts| > 1 && CleanJoin(parts, c, sep)
    ensures SplitAt(JoinWith(parts, c), sep) == [parts[0]] + SplitAt(JoinWith(parts[1..], c), sep)
  {
    var s := JoinWith(parts, c);
    var n := |parts[0]|;
    var rest := JoinWith(parts[1..], c);
    JoinPrefix(parts, c);
    assert s[..n] == parts[0] && s[n] == c && s[n + 1..] == rest;
    FindSepIs(s, sep, n);
    SplitAtCut(s, sep);
  }

  /** Splitting a join whose separators are exactly its joints gives the parts back. */
  lemma {:induction false} JoinSplit(parts: seq<string>, c: char, sep: (char, string) -> bool)
    requires CleanJoin(parts, c, sep)
    ensures SplitAt(JoinWith(parts, c), sep) == parts
    decreases |parts|
  {
    JoinPrefix(parts, c);
    if |parts| == 1 {
      FindSepIs(parts[0], sep, |parts[0]|);
    } else {
      JoinSplitStep(parts, c, sep);
      JoinSplit(parts[1..], c, sep);
      assert parts == [parts[0]] + parts[1..];
    }
  }

  function Quoted(f: string): string { ['"'] + f + ['"'] }

  function QuoteAll(fields: seq<string>): (r: seq<string>)
    ensures |r| == |fields| && forall i :: 0 <= i < |fields| ==> r[i] == Quoted(fields[i])
  {
    seq(|fields|, i requires 0 <= i < |fields| => Quoted(fields[i]))
  }

  /** A line of quoted, quote-free fields holds two quotes per field. */
  lemma {:induction false} QuotedJoinQuotes(fields: seq<string>)
    requires |fields| >= 1
    requires forall f :: f in fields ==> '"' !in f
    ensures QuoteCount(JoinWith(QuoteAll(fields), ',')) == 2 * |fields|
    decreases |fields|
  {
    var q := QuoteAll(fields);
    assert fields[0] in fields;
    QuoteFree(fields[0]);
    QuoteCountConcat(['"'], fields[0]);
    QuoteCountConcat(['"'] + fields[0], ['"']);
    if |fields| > 1 {
      assert q[1..] == QuoteAll(fields[1..]);
      QuotedJoinQuotes(fields[1..]);
      QuoteCountConcat(q[0], [',']);
      QuoteCountConcat(q[0] + [','], JoinWith(q[1..], ','));
    }
  }

  lemma CleanJoinIntro(parts: seq<string>, c: char, sep: (char, string) -> bool)
    requires |parts| >= 1
    requires NoSepBefore(JoinWith(parts, c), |parts[0]|, sep)
    requires |parts| > 1 ==> sep(c, JoinWith(parts[1..], c)) && CleanJoin(parts[1..], c, sep)
    ensures CleanJoin(parts, c, sep)
  {
  }

  /** Inside a quoted, quote-free field no comma is a boundary when an even
      number of quotes follows the field. */
  lemma QuotedFieldNoBoundary(f: string, tail: string, j: int)
    requires '"' !in f && QuoteCount(tail) % 2 == 0
    requires 0 <= j < |f| + 2
    ensures var s := Quoted(f) + tail; !CsvBoundary(s[j], s[j + 1..])
  {
    var s := Quoted(f) + tail;
    if 1 <= j <= |f| {
      QuotedRestCount(f, tail, j);
      assert QuoteCount(s[j + 1..]) % 2 == 1;
    } else {
      assert s[j] == '"';
    }
  }

  /** After a position inside a quoted, quote-free field come its closing
      quote and the quotes that follow the field. */
  lemma QuotedRestCount(f: string, tail: string, j: int)
    requires '"' !in f && 1 <= j <= |f|
    ensures QuoteCount((Quoted(f) + tail)[j + 1..]) == 1 + QuoteCount(tail)
  {
    QuotedSuffix(f, tail, j);
    QuoteCountConcat(f[j..], ['"']);
    QuoteCountConcat(f[j..] + ['"'], tail);
    assert '"' !in f[j..];
    QuoteFree(f[j..]);
    assert QuoteCount(['"']) == 1 + QuoteCount([]);
  }

  lemma QuotedSuffix(f: string, tail: string, j: int)
    requires 1 <= j <= |f|
    ensures (Quoted(f) + tail)[j + 1..] == f[j..] + ['"'] + tail
  {
  }

  lemma {:induction false} QuotedJoinClean(fields: seq<string>)
    requires |fields| >= 1
    requires forall f :: f in fields ==> '"' !in f
    ensures CleanJoin(QuoteAll(fields), ',', CsvBoundary)
    decreases |fields|
  {
    var q := QuoteAll(fields);
    var f := fields[0];
    assert f in fields;
    var tail := if |fields| > 1 then [','] + JoinWith(q[1..], ',') else [];
    JoinPrefix(q, ',');
    if |fields| > 1 {
      assert q[1..] == QuoteAll(fields[1..]);
      QuotedJoinClean(fields[1..]);
      QuotedTail(fields);
    }
    assert JoinWith(q, ',') == Quoted(f) + tail;
    QuotedHeadClean(f, tail);
    CleanJoinIntro(q, ',', CsvBoundary);
  }

  /** After the first field of a quoted line come a boundary comma and an
      even number of quotes. */
  lemma QuotedTail(fields: seq<string>)
    requires |fields| > 1
    requires forall f :: f in fields ==> '"' !in f
    ensures var rest := JoinWith(QuoteAll(fields)[1..], ',');
      CsvBoundary(',', rest) && QuoteCount([','] + rest) % 2 == 0
  {
    var rest := JoinWith(QuoteAll(fields)[1..], ',');
    assert QuoteAll(fields)[1..] == QuoteAll(fields[1..]);
    QuotedJoinQuotes(fields[1..]);
    QuoteCountConcat([','], rest);
  }

  /** No boundary falls inside a quoted, quote-free field followed by an even
      number of quotes. */
  lemma QuotedHeadClean(f: string, tail: string)
    requires '"' !in f && QuoteCount(tail) % 2 == 0
    ensures NoSepBefore(Quoted(f) + tail, |Quoted(f)|, CsvBoundary)
  {
    var s := Quoted(f) + tail;
    forall j | 0 <= j < |Quoted(f)| ensures !SepAt(s, CsvBoundary, j) {
      QuotedFieldNoBoundary(f, tail, j);
    }
  }

  lemma {:induction false} TrimNoop(s: string, drop: char -> bool)
    requires s == [] || (!drop(s[0]) && !drop(s[|s| - 1]))
    ensures Trim(s, drop) == s
  {
    var r := Trim(s, drop);
    var i :| TrimmedAt(s, i, r, drop);
    if s != [] {
      assert i == 0;
      assert i + |r| == |s|;
    }
  }

  lemma {:induction false} TrimQuoted(f: string)
    requires '"' !in f
    ensures Trim(Quoted(f), IsQuote) == f
  {
    var s := Quoted(f);
    var r := Trim(s, IsQuote);
    var i :| TrimmedAt(s, i, r, IsQuote);
    if f == [] {
      assert forall k :: 0 <= k < |s| ==> IsQuote(s[k]);
      assert r == [];
    } else {
      assert s[1] == f[0] && s[|s| - 2] == f[|f| - 1];
      assert i <= 1 && i + |r| >= |s| - 1;
      assert r != [];
      assert i == 1 && |r| == |f|;
      assert s[1..1 + |f|] == f;
    }
  }

  /** Writing fields that hold no double quote as a line of quoted fields, and
      parsing that line, gives the fields back; commas inside a field survive. */
  lemma QuotedLineRoundTrip(fields: seq<string>)
    requires |fields| >= 1
    requires forall f :: f in fields ==> '"' !in f
    ensures ParseCsvLine(JoinWith(QuoteAll(fields), ',')) == fields
  {
    var line := JoinWith(QuoteAll(fields), ',');
    QuotedLineStripped(fields);
    QuotedSplit(fields);
    ParseStrippedLine(line);
    UnquoteQuoted(fields);
  }

  lemma QuotedLineStripped(fields: seq<string>)
    requires |fields| >= 1
    ensures Strip(JoinWith(QuoteAll(fields), ',')) == JoinWith(QuoteAll(fields), ',')
  {
    var q := QuoteAll(fields);
    var line := JoinWith(q, ',');
    JoinPrefix(q, ',');
    assert line[0] == '"';
    QuotedLastQuote(q, fields);
    TrimNoop(line, IsSpace);
  }

  lemma UnquoteQuoted(fields: seq<string>)
    requires forall f :: f in fields ==> '"' !in f
    ensures Unquote(QuoteAll(fields)) == fields
  {
    var r := Unquote(QuoteAll(fields));
    forall i | 0 <= i < |fields| ensures r[i] == fields[i] {
      assert fields[i] in fields;
      TrimQuoted(fields[i]);
    }
  }

  lemma ParseStrippedLine(line: string)
    requires Strip(line) == line
    ensures ParseCsvLine(line) == Unquote(SplitAt(line, CsvBoundary))
  {
  }

  /** The commas of a line of quoted, quote-free fields that split it are the
      ones between the fields. */
  lemma QuotedSplit(fields: seq<string>)
    requires |fields| >= 1
    requires forall f :: f in fields ==> '"' !in f
    ensures SplitAt(JoinWith(QuoteAll(fields), ','), CsvBoundary) == QuoteAll(fields)
  {
    QuotedJoinClean(fields);
    JoinSplit(QuoteAll(fields), ',', CsvBoundary);
  }

  lemma {:induction false} QuotedLastQuote(q: seq<string>, fields: seq<string>)
    requires |fields| >= 1 && q == QuoteAll(fields)
    ensures var line := JoinWith(q, ','); line != [] && line[|line| - 1] == '"'
    decreases |fields|
  {
    if |fields| > 1 {
      assert q[1..] == QuoteAll(fields[1..]);
      QuotedLastQuote(q[1..], fields[1..]);
    }
  }

  // ----- read_csv_limited -----

  /** One parsed row: column name to field, in header order. */
  type Row = Dict<string, string>

  /** `{headers[i]: values[i] for i in range(len(headers))}`: a repeated
      column name keeps its first position and its last value. */
  function MakeRow(headers: seq<string>, values: seq<string>): Row
    requires |headers| == |values|
  {
    FromPairs(Zip(headers, values))
  }

  /** `zip(headers, values)`. */
  function Zip(headers: seq<string>, values: seq<string>): (ps: seq<(string, string)>)
    requires |headers| == |values|
    ensures |ps| == |headers| && forall i :: 0 <= i < |ps| ==> ps[i] == (headers[i], values[i])
  {
    seq(|headers|, i requires 0 <= i < |headers| => (headers[i], values[i]))
  }

  /** `lines[1:limit + 1]`: the data lines after the header, at most `limit` of them. */
  function DataLines(lines: seq<string>, limit: int): (r: seq<string>)
    ensures limit >= 0 ==> |r| <= limit
    ensures forall i :: 0 <= i < |r| ==> i + 1 < |lines| && r[i] == lines[i + 1]
  {
    var p := Sorting.Prefix(lines, limit + 1);
    if |p| <= 1 then [] else p[1..]
  }

  /** The row a data line contributes: none for a blank line or a line whose
      field count differs from the header's. */
  function RowOf(headers: seq<string>, line: string): Option<Row> {
    if Strip(line) == [] then None
    else
      var values := ParseCsvLine(line);
      if |values| == |headers| then Some(MakeRow(headers, values)) else None
  }

  /** The rows of the data lines, in order. */
  function RowsOf(headers: seq<string>, lines: seq<string>): seq<Row> {
    Kept(headers, lines, RowOf)
  }

  /** What `read_csv_limited(path, limit)` returns for the file's lines (`None`
      when the file does not exist): nothing for a missing or empty file,
      otherwise the rows of the first `limit` data lines under the header. */
  function ReadCsv(file: Option<seq<string>>, limit: int): seq<Row> {
    match file
    case None => []
    case Some(lines) =>
      if lines == [] then [] else RowsOf(ParseCsvLine(lines[0]), DataLines(lines, limit))
  }

  /** `read_csv_limited`, line by line as the source loops. */
  method ReadCsvLimited(file: Option<seq<string>>, limit: int) returns (data: seq<Row>)
    ensures data == ReadCsv(file, limit)
  {
    data := [];
    if file.None? {
      return;
    }
    var lines := file.value;
    if lines == [] {
      return;
    }
    var headers := ParseCsvLine(lines[0]);
    var dataLines := DataLines(lines, limit);
    for i := 0 to |dataLines|
      invariant data == RowsOf(headers, dataLines[..i])
    {
      KeptStep(headers, dataLines, RowOf, i);
      var line := dataLines[i];
      if Strip(line) == [] {
        continue;
      }
      var values := ParseCsvLine(line);
      if |values| == |headers| {
        data := data + [MakeRow(headers, values)];
      }
    }
    assert dataLines[..|dataLines|] == dataLines;
  }

  /** Every row holds exactly the header's column names, each once. */
  lemma MakeRowShape(headers: seq<string>, values: seq<string>)
    requires |headers| == |values|
    ensures DistinctKeys(MakeRow(headers, values))
    ensures KeySet(MakeRow(headers, values)) == set h | h in headers
  {
    FromPairsShape(Zip(headers, values));
    ZipKeySet(headers, values);
  }

  lemma ZipKeySet(headers: seq<string>, values: seq<string>)
    requires |headers| == |values|
    ensures KeySet(Zip(headers, values)) == set h | h in headers
  {
    var ps := Zip(headers, values);
    forall h | h in headers ensures h in KeySet(ps) {
      var i :| 0 <= i < |headers| && headers[i] == h;
      assert ps[i].0 == h;
    }
    forall h | h in KeySet(ps) ensures h in headers {
      var i :| 0 <= i < |ps| && ps[i].0 == h;
      assert headers[i] == h;
    }
  }

  /** Each row comes from one of the lines. */
  lemma RowsFromLines(headers: seq<string>, lines: seq<string>, row: Row)
    requires row in RowsOf(headers, lines)
    ensures exists line :: line in lines && RowOf(headers, line) == Some(row)
  {
    KeptFrom(headers, lines, RowOf, row);
  }

  /** Each non-blank line of the header's width gives a row. */
  lemma LinesGiveRows(headers: seq<string>, lines: seq<string>, line: string)
    requires line in lines && RowOf(headers, line).Some?
    ensures RowOf(headers, line).value in RowsOf(headers, lines)
  {
    KeptGives(headers, lines, RowOf, line);
  }

  lemma RowsBound(headers: seq<string>, lines: seq<string>)
    ensures |RowsOf(headers, lines)| <= |lines|
  {
    KeptBound(headers, lines, RowOf);
  }

  /** A row maps each column name to the field in its column (the last such
      column when a name repeats). */
  lemma RowLookup(headers: seq<string>, values: seq<string>, i: int)
    requires |headers| == |values| && 0 <= i < |headers|
    requires forall j :: i < j < |headers| ==> headers[j] != headers[i]
    ensures Get(MakeRow(headers, values), headers[i]) == Some(values[i])
  {
    var ps := Zip(headers, values);
    FromPairsGet(ps, headers[i]);
    LastValueAt(ps, i);
  }

  lemma {:induction false} LastValueAt<K, V>(ps: seq<(K, V)>, i: int)
    requires 0 <= i < |ps|
    requires forall j :: i < j < |ps| ==> ps[j].0 != ps[i].0
    ensures LastValue(ps, ps[i].0) == Some(ps[i].1)
  {
    if i < |ps| - 1 {
      LastValueAt(ps[..|ps| - 1], i);
    }
  }

  /** `read_csv_limited` returns at most `limit` rows. */
  lemma ReadCsvBound(file: Option<seq<string>>, limit: int)
    ensures limit >= 0 ==> |ReadCsv(file, limit)| <= limit
  {
    if file.Some? && file.value != [] {
      RowsBound(ParseCsvLine(file.value[0]), DataLines(file.value, limit));
    }
  }

  /** Every row `read_csv_limited` returns is keyed by exactly the header's columns. */
  lemma ReadCsvRowShape(lines: seq<string>, limit: int, row: Row)
    requires row in ReadCsv(Some(lines), limit)
    ensures lines != [] && KeySet(row) == set h | h in ParseCsvLine(lines[0])
    ensures DistinctKeys(row)
  {
    var headers := ParseCsvLine(lines[0]);
    RowsFromLines(headers, DataLines(lines, limit), row);
    var line :| line in DataLines(lines, limit) && RowOf(headers, line) == Some(row);
    MakeRowShape(headers, ParseCsvLine(line));
  }
}
