/**
 * The string operations of Python's `str` that the analytics rely on:
 * whitespace stripping, splitting, word splitting, lower-casing, substring
 * search, ordering, and the `int()` / `str()` / `float()` conversions.
 */
module Text {
  import opened Wrappers

  /** `str.isspace()` for one character (the Unicode White_Space set Python uses). */
  predicate IsSpace(c: char) {
    (9 <= c as int <= 13) || (28 <= c as int <= 32) || c as int == 0x85 || c as int == 0xA0
    || c as int == 0x1680 || (0x2000 <= c as int <= 0x200A) || c as int == 0x2028
    || c as int == 0x2029 || c as int == 0x202F || c as int == 0x205F || c as int == 0x3000
  }

  predicate IsQuote(c: char) { c == '"' }

  /** Drops the leading characters that satisfy `drop`. */
  function TrimStart(s: string, drop: char -> bool): (r: string)
    ensures |r| <= |s| && r == s[|s| - |r|..]
    ensures forall k :: 0 <= k < |s| - |r| ==> drop(s[k])
    ensures r == [] || !drop(r[0])
  {
    if s != [] && drop(s[0]) then TrimStart(s[1..], drop) else s
  }

  /** Drops the trailing characters that satisfy `drop`. */
  function TrimEnd(s: string, drop: char -> bool): (r: string)
    ensures |r| <= |s| && r == s[..|r|]
    ensures forall k :: |r| <= k < |s| ==> drop(s[k])
    ensures r == [] || !drop(r[|r| - 1])
  {
    if s != [] && drop(s[|s| - 1]) then TrimEnd(s[..|s| - 1], drop) else s
  }

  /** `r` is `s[i..i + |r|]` and every character of `s` around it satisfies `drop`. */
  predicate TrimmedAt(s: string, i: int, r: string, drop: char -> bool) {
    0 <= i <= i + |r| <= |s| && r == s[i..i + |r|]
    && (forall k :: 0 <= k < i ==> drop(s[k]))
    && (forall k :: i + |r| <= k < |s| ==> drop(s[k]))
  }

  /** `s.strip()` (with `drop == IsSpace`) or `s.strip('"')` (with `drop == IsQuote`):
      the middle slice of `s` left after dropping such characters at both ends. */
  function Trim(s: string, drop: char -> bool): (r: string)
    ensures exists i :: TrimmedAt(s, i, r, drop)
    ensures r == [] || (!drop(r[0]) && !drop(r[|r| - 1]))
  {
    var t := TrimStart(s, drop);
    var r := TrimEnd(t, drop);
    MiddleSlice(s, t, r, drop);
    r
  }

  /** A prefix `r` of a suffix `t` of `s` is a middle slice of `s`, with the
      characters cut off around it satisfying `drop` when both cuts did. */
  lemma MiddleSlice(s: string, t: string, r: string, drop: char -> bool)
    requires |t| <= |s| && t == s[|s| - |t|..] && forall k :: 0 <= k < |s| - |t| ==> drop(s[k])
    requires |r| <= |t| && r == t[..|r|] && forall k :: |r| <= k < |t| ==> drop(t[k])
    ensures TrimmedAt(s, |s| - |t|, r, drop)
  {
    var i := |s| - |t|;
    forall k | i + |r| <= k < |s| ensures drop(s[k]) {
      assert s[k] == t[k - i];
    }
    assert r == s[i..i + |r|];
  }

  function Strip(s: string): string { Trim(s, IsSpace) }

  /** Where the trimmed slice starts. */
  lemma TrimStartsAt(s: string, drop: char -> bool) returns (i: int)
    ensures TrimmedAt(s, i, Trim(s, drop), drop)
  {
    i :| TrimmedAt(s, i, Trim(s, drop), drop);
  }

  /** `str.split(sep)` and the separator-aware CSV split share this shape: the
      string is cut at every position `i` where `sep(s[i], s[i+1..])` holds; a
      separator is decided by its own character and the text after it. */
  /** Position `j` of `s` is a separator. */
  predicate SepAt(s: string, sep: (char, string) -> bool, j: int)
    requires 0 <= j < |s|
  {
    sep(s[j], s[j + 1..])
  }

  function FindSep(s: string, sep: (char, string) -> bool): (i: nat)
    ensures i <= |s|
    ensures i < |s| ==> SepAt(s, sep, i)
    ensures forall j :: 0 <= j < i ==> !SepAt(s, sep, j)
  {
    if s == [] then 0
    else if sep(s[0], s[1..]) then 0
    else
      var i := 1 + FindSep(s[1..], sep);
      forall j | 1 <= j <= i && j < |s| ensures SepAt(s[1..], sep, j - 1) == SepAt(s, sep, j) {
        assert s[1..][j - 1] == s[j] && s[1..][j..] == s[j + 1..];
      }
      i
  }

  function SplitAt(s: string, sep: (char, string) -> bool): (parts: seq<string>)
    ensures |parts| >= 1
    decreases |s|
  {
    var i := FindSep(s, sep);
    if i == |s| then [s] else [s[..i]] + SplitAt(s[i + 1..], sep)
  }

  /** The number of separator positions in `s`. */
  function CountSeps(s: string, sep: (char, string) -> bool): nat {
    if s == [] then 0 else (if sep(s[0], s[1..]) then 1 else 0) + CountSeps(s[1..], sep)
  }

  /** `c.join(parts)`. */
  function JoinWith(parts: seq<string>, c: char): string {
    if parts == [] then ""
    else if |parts| == 1 then parts[0]
    else parts[0] + [c] + JoinWith(parts[1..], c)
  }

  lemma {:induction false} CountSepsSkip(s: string, sep: (char, string) -> bool, i: nat)
    requires i <= |s|
    requires forall j :: 0 <= j < i ==> !SepAt(s, sep, j)
    ensures CountSeps(s, sep) == CountSeps(s[i..], sep)
  {
    if i > 0 {
      assert !SepAt(s, sep, 0);
      forall j | 0 <= j < i - 1 ensures !SepAt(s[1..], sep, j) {
        assert s[1..][j] == s[j + 1] && s[1..][j + 1..] == s[j + 2..];
        assert !SepAt(s, sep, j + 1);
      }
      CountSepsSkip(s[1..], sep, i - 1);
      assert s[1..][i - 1..] == s[i..];
    }
  }

  /** One piece per separator, plus one. */
  lemma {:induction false} SplitCount(s: string, sep: (char, string) -> bool)
    ensures |SplitAt(s, sep)| == CountSeps(s, sep) + 1
    decreases |s|
  {
    var i := FindSep(s, sep);
    CountSepsSkip(s, sep, i);
    if i < |s| {
      SplitCount(s[i + 1..], sep);
      assert s[i..][1..] == s[i + 1..];
    }
  }

  /** Every separator position of `s` holds the character `c`. */
  predicate SepsAre(s: string, sep: (char, string) -> bool, c: char) {
    forall i {:trigger SepAt(s, sep, i)} :: 0 <= i < |s| && SepAt(s, sep, i) ==> s[i] == c
  }

  lemma SepsAreSuffix(s: string, sep: (char, string) -> bool, c: char, k: nat)
    requires k <= |s| && SepsAre(s, sep, c)
    ensures SepsAre(s[k..], sep, c)
  {
    var t := s[k..];
    forall j | 0 <= j < |t| && SepAt(t, sep, j) ensures t[j] == c {
      assert t[j] == s[k + j] && t[j + 1..] == s[k + j + 1..];
      assert SepAt(s, sep, k + j);
    }
  }

  lemma JoinCons(p: string, rest: seq<string>, c: char)
    requires rest != []
    ensures JoinWith([p] + rest, c) == p + [c] + JoinWith(rest, c)
  {
    assert ([p] + rest)[1..] == rest;
  }

  /** Joining the pieces with the separator character gives back the string. */
  lemma {:induction false} SplitJoin(s: string, sep: (char, string) -> bool, c: char)
    requires SepsAre(s, sep, c)
    ensures JoinWith(SplitAt(s, sep), c) == s
    decreases |s|
  {
    var i := FindSep(s, sep);
    if i < |s| {
      var t := s[i + 1..];
      SepsAreSuffix(s, sep, c, i + 1);
      SplitJoin(t, sep, c);
      var rest := SplitAt(t, sep);
      SplitAtCut(s, sep);
      JoinCons(s[..i], rest, c);
      SepIsChar(s, sep, c, i);
      SplitAround(s, i);
    }
  }

  /** The first piece ends at the first separator. */
  lemma SplitAtCut(s: string, sep: (char, string) -> bool)
    ensures var i := FindSep(s, sep);
      i < |s| ==> SplitAt(s, sep) == [s[..i]] + SplitAt(s[i + 1..], sep)
  {
  }

  lemma SepIsChar(s: string, sep: (char, string) -> bool, c: char, i: int)
    requires SepsAre(s, sep, c) && 0 <= i < |s| && SepAt(s, sep, i)
    ensures s[i] == c
  {
  }

  lemma SplitAround(s: string, i: int)
    requires 0 <= i < |s|
    ensures s == s[..i] + [s[i]] + s[i + 1..]
  {
  }

  /** `str.split('|')`-style separator. */
  predicate IsPipe(c: char, rest: string) { c == '|' }

  /** Splitting on a character yields one more piece than its occurrences. */
  lemma {:induction false} CountPipes(s: string)
    ensures CountSeps(s, IsPipe) == multiset(s)['|']
  {
    if s != [] {
      CountPipes(s[1..]);
      assert s == [s[0]] + s[1..];
    }
  }

  /** No piece of `s.split('|')` contains `'|'`. */
  lemma {:induction false} SplitPipeClean(s: string)
    ensures forall p :: p in SplitAt(s, IsPipe) ==> '|' !in p
    decreases |s|
  {
    var i := FindSep(s, IsPipe);
    var head := s[..i];
    assert '|' !in head by {
      forall j | 0 <= j < i ensures head[j] != '|' {
        assert !SepAt(s, IsPipe, j);
      }
    }
    if i < |s| {
      var rest := SplitAt(s[i + 1..], IsPipe);
      SplitPipeClean(s[i + 1..]);
      assert SplitAt(s, IsPipe) == [head] + rest;
    } else {
      assert head == s;
    }
  }

  // ----- str.split() with no argument -----

  /** The index of the first whitespace character of `s`, or `|s|`. */
  function WordEnd(s: string): (i: nat)
    ensures i <= |s| && (i < |s| ==> IsSpace(s[i]))
    ensures forall j :: 0 <= j < i ==> !IsSpace(s[j])
  {
    if s == [] || IsSpace(s[0]) then 0
    else
      var i := 1 + WordEnd(s[1..]);
      assert forall j :: 1 <= j < i ==> s[1..][j - 1] == s[j];
      i
  }

  /** `s.split()`: the maximal runs of non-whitespace characters, in order. */
  function Words(s: string): (ws: seq<string>)
    ensures forall w :: w in ws ==> IsWord(w)
    decreases |s|
  {
    var t := TrimStart(s, IsSpace);
    if t == [] then []
    else
      var i := WordEnd(t);
      assert IsWord(t[..i]) by {
        assert forall j :: 0 <= j < i ==> t[..i][j] == t[j];
      }
      [t[..i]] + Words(t[i..])
  }

  /** A non-empty run of non-whitespace characters. */
  predicate IsWord(w: string) {
    w != [] && forall j :: 0 <= j < |w| ==> !IsSpace(w[j])
  }

  function WordCount(s: string): nat { |Words(s)| }

  /** The number of word starts, counted position by position: a non-whitespace
      character whose predecessor is whitespace or absent. */
  function WordStarts(s: string, afterSpace: bool): nat {
    if s == [] then 0
    else (if afterSpace && !IsSpace(s[0]) then 1 else 0) + WordStarts(s[1..], IsSpace(s[0]))
  }

  lemma {:induction false} WordStartsSkipSpace(s: string, i: nat, afterSpace: bool)
    requires i <= |s| && forall j :: 0 <= j < i ==> IsSpace(s[j])
    ensures WordStarts(s, afterSpace) == WordStarts(s[i..], afterSpace || i > 0)
  {
    if i > 0 {
      WordStartsSkipSpace(s[1..], i - 1, true);
      assert s[1..][i - 1..] == s[i..];
    }
  }

  lemma {:induction false} WordStartsSkipWord(s: string, i: nat)
    requires 0 < i <= |s| && forall j :: 0 <= j < i ==> !IsSpace(s[j])
    ensures WordStarts(s, false) == WordStarts(s[i..], false)
  {
    if i > 1 {
      WordStartsSkipWord(s[1..], i - 1);
      assert s[1..][i - 1..] == s[i..];
    }
  }

  /** A string starting with a word has one word start more than what follows
      the word. */
  lemma WordStartsWord(t: string, i: nat)
    requires 0 < i <= |t| && i == WordEnd(t)
    ensures WordStarts(t, true) == 1 + WordStarts(t[i..], true)
  {
    assert WordStarts(t, true) == 1 + WordStarts(t[1..], false);
    if i > 1 {
      WordStartsSkipWord(t[1..], i - 1);
      assert t[1..][i - 1..] == t[i..];
    }
    if i < |t| {
      assert WordStarts(t[i..], false) == WordStarts(t[i..][1..], true);
      assert WordStarts(t[i..], true) == WordStarts(t[i..][1..], true);
    }
  }

  /** `len(s.split())` counts the word starts of `s`. */
  lemma {:induction false} WordCountStarts(s: string)
    ensures WordCount(s) == WordStarts(s, true)
    decreases |s|
  {
    var t := TrimStart(s, IsSpace);
    var k := |s| - |t|;
    WordStartsSkipSpace(s, k, true);
    if t != [] {
      var i := WordEnd(t);
      assert Words(s) == [t[..i]] + Words(t[i..]);
      WordCountStarts(t[i..]);
      WordStartsWord(t, i);
    }
  }

  // ----- str.lower() -----

  function IsUpper(c: char): bool { 'A' <= c <= 'Z' }

  function LowerChar(c: char): char {
    if IsUpper(c) then (c as int + 32) as char else c
  }

  /** `s.lower()` on the ASCII letters: no capital is left, a capital becomes
      its small letter, and every other character stays as it was. */
  function Lower(s: string): (r: string)
    ensures |r| == |s|
    ensures forall i :: 0 <= i < |s| ==> !IsUpper(r[i])
    ensures forall i :: 0 <= i < |s| ==> (r[i] == s[i] <==> !IsUpper(s[i]))
    ensures forall i :: 0 <= i < |s| && IsUpper(s[i]) ==> 'a' <= r[i] <= 'z' && r[i] as int - s[i] as int == 'a' as int - 'A' as int
  {
    seq(|s|, i requires 0 <= i < |s| => LowerChar(s[i]))
  }

  // ----- `needle in hay` -----

  /** `needle in hay` for strings: `needle` occurs as a contiguous slice. */
  predicate Contains(hay: string, needle: string) {
    needle <= hay || (hay != [] && Contains(hay[1..], needle))
  }

  predicate OccursAt(hay: string, needle: string, i: int) {
    0 <= i <= |hay| - |needle| && hay[i..i + |needle|] == needle
  }

  lemma {:induction false} ContainsAt(hay: string, needle: string)
    ensures Contains(hay, needle) <==> exists i :: OccursAt(hay, needle, i)
  {
    if needle <= hay {
      assert OccursAt(hay, needle, 0);
    }
    if hay != [] {
      ContainsAt(hay[1..], needle);
      if Contains(hay[1..], needle) {
        var i :| OccursAt(hay[1..], needle, i);
        OccursShift(hay, needle, i);
      }
      if i :| OccursAt(hay, needle, i) {
        if i > 0 {
          OccursShift(hay, needle, i - 1);
        } else {
          assert needle <= hay;
        }
      }
    } else if i :| OccursAt(hay, needle, i) {
      assert needle == [];
    }
  }

  lemma OccursShift(hay: string, needle: string, i: int)
    requires hay != [] && i >= 0
    ensures OccursAt(hay[1..], needle, i) <==> OccursAt(hay, needle, i + 1)
  {
    if i <= |hay| - 1 - |needle| {
      assert hay[1..][i..i + |needle|] == hay[i + 1..i + 1 + |needle|];
    }
  }

  // ----- string ordering -----

  /** Python's `a <= b` on strings: code point by code point, a prefix first. */
  predicate LexLeq(a: string, b: string) {
    a == [] || (b != [] && (a[0] < b[0] || (a[0] == b[0] && LexLeq(a[1..], b[1..]))))
  }

  lemma {:induction false} LexLeqTotal(a: string, b: string)
    ensures LexLeq(a, b) || LexLeq(b, a)
  {
    if a != [] && b != [] && a[0] == b[0] { LexLeqTotal(a[1..], b[1..]); }
  }

  lemma {:induction false} LexLeqTransitive(a: string, b: string, c: string)
    requires LexLeq(a, b) && LexLeq(b, c)
    ensures LexLeq(a, c)
  {
    if a != [] && b != [] && c != [] && a[0] == b[0] == c[0] {
      LexLeqTransitive(a[1..], b[1..], c[1..]);
    }
  }

  lemma {:induction false} LexLeqAntisymmetric(a: string, b: string)
    requires LexLeq(a, b) && LexLeq(b, a)
    ensures a == b
  {
    if a != [] && b != [] {
      LexLeqAntisymmetric(a[1..], b[1..]);
      assert a == [a[0]] + a[1..] && b == [b[0]] + b[1..];
    }
  }

  // ----- int(s) and str(i) -----

  predicate IsDigit(c: char) { '0' <= c <= '9' }

  function DigitValue(c: char): nat requires IsDigit(c) { c as int - '0' as int }

  function DigitChar(d: nat): (c: char)
    requires d < 10
    ensures IsDigit(c) && DigitValue(c) == d
  {
    ('0' as int + d) as char
  }

  /** The body of a decimal literal as `int()` accepts it: ASCII digits, with
      single underscores allowed between two digits. */
  predicate IsDigitRun(s: string) {
    s != [] && IsDigit(s[0]) && IsDigit(s[|s| - 1])
    && (forall i :: 0 <= i < |s| ==> IsDigit(s[i]) || s[i] == '_')
    && (forall i :: 0 <= i < |s| - 1 && s[i] == '_' ==> s[i + 1] != '_')
  }

  /** The value of the digits of `s`, underscores skipped. */
  function DigitsValue(s: string): nat
    requires forall i :: 0 <= i < |s| ==> IsDigit(s[i]) || s[i] == '_'
  {
    if s == [] then 0
    else if s[|s| - 1] == '_' then DigitsValue(s[..|s| - 1])
    else 10 * DigitsValue(s[..|s| - 1]) + DigitValue(s[|s| - 1])
  }

  /** `int(s)` for a base-10 string: surrounding whitespace, an optional sign,
      then a digit run; anything else raises `ValueError`, here `None`. */
  function ParseInt(s: string): (r: Option<int>)
    ensures r.Some? ==> var t := Strip(s);
      t != [] && IsDigitRun(if t[0] == '-' || t[0] == '+' then t[1..] else t)
  {
    var t := Strip(s);
    if t == [] then None
    else
      var sign := if t[0] == '-' then -1 else 1;
      var body := if t[0] == '-' || t[0] == '+' then t[1..] else t;
      if IsDigitRun(body) then Some(sign * DigitsValue(body)) else None
  }

  /** `int(s)` succeeds exactly on an optionally signed digit run between
      whitespace; the value is negative only after a `-`, and its magnitude is
      the value of the digits. */
  lemma ParseIntSpec(s: string)
    ensures ParseInt(s).Some? <==> var t := Strip(s);
      t != [] && IsDigitRun(if t[0] == '-' || t[0] == '+' then t[1..] else t)
    ensures ParseInt(s).Some? ==> var t := Strip(s); var body := if t[0] == '-' || t[0] == '+' then t[1..] else t;
      var v := ParseInt(s).value;
      (v < 0 ==> t[0] == '-') && (if v < 0 then -v else v) == DigitsValue(body)
  {
  }

  /** `str(n)` for a natural number. */
  function NatToString(n: nat): (s: string)
    ensures s != [] && forall i :: 0 <= i < |s| ==> IsDigit(s[i])
  {
    if n < 10 then [DigitChar(n)] else NatToString(n / 10) + [DigitChar(n % 10)]
  }

  /** `str(i)` for an integer. */
  function IntToString(i: int): string {
    if i < 0 then "-" + NatToString(-i) else NatToString(i)
  }

  lemma {:induction false} NatToStringValue(n: nat)
    ensures DigitsValue(NatToString(n)) == n
  {
    if n >= 10 {
      var s := NatToString(n);
      NatToStringValue(n / 10);
      assert s[..|s| - 1] == NatToString(n / 10);
    }
  }

  /** A string without whitespace is its own strip. */
  lemma StripNoSpace(s: string)
    requires forall k :: 0 <= k < |s| ==> !IsSpace(s[k])
    ensures Strip(s) == s
  {
    var t := Strip(s);
    var j :| TrimmedAt(s, j, t, IsSpace);
    if s != [] {
      assert !IsSpace(s[0]);
      assert j == 0 && |t| == |s|;
    }
  }

  lemma DigitsRun(digits: string)
    requires digits != [] && forall k :: 0 <= k < |digits| ==> IsDigit(digits[k])
    ensures IsDigitRun(digits)
  {
  }

  /** `str(i)` is `-` (for a negative `i`) and then the digits of `|i|`. */
  lemma IntToStringParts(i: int)
    ensures var s := IntToString(i);
      s != [] && (forall k :: 0 <= k < |s| ==> !IsSpace(s[k]))
      && (i < 0 ==> s[0] == '-' && s[1..] == NatToString(-i))
      && (i >= 0 ==> s == NatToString(i) && s[0] != '-' && s[0] != '+')
  {
    var s := IntToString(i);
    var n := if i < 0 then -i else i;
    var digits := NatToString(n);
    assert forall k :: 0 <= k < |digits| ==> !IsSpace(digits[k]);
    if i < 0 {
      assert s == "-" + digits;
      assert s[1..] == digits;
      assert forall k :: 1 <= k < |s| ==> s[k] == digits[k - 1];
    }
  }

  /** `int(str(i)) == i`. */
  lemma IntToStringRoundTrip(i: int)
    ensures ParseInt(IntToString(i)) == Some(i)
  {
    var s := IntToString(i);
    var n := if i < 0 then -i else i;
    IntToStringParts(i);
    StripNoSpace(s);
    NatToStringValue(n);
    DigitsRun(NatToString(n));
  }

  /** `str(i)` never starts or ends with whitespace and is never empty. */
  lemma IntToStringShape(i: int)
    ensures IntToString(i) != [] && Strip(IntToString(i)) == IntToString(i)
  {
    IntToStringParts(i);
    StripNoSpace(IntToString(i));
  }

  // ----- float(s) -----

  predicate AllDigits(s: string) { forall i :: 0 <= i < |s| ==> IsDigit(s[i]) }

  predicate IsDot(c: char, rest: string) { c == '.' }

  function Pow10(k: nat): (p: nat)
    ensures p >= 1
  {
    if k == 0 then 1 else 10 * Pow10(k - 1)
  }

  /** `float(s)` for decimal notation: surrounding whitespace, an optional sign,
      digits with an optional fractional part, at least one digit in all;
      anything else raises `ValueError`, here `None`. */
  function ParseDecimal(s: string): (r: Option<real>)
    ensures r.Some? ==> Strip(s) != []
  {
    var t := Strip(s);
    if t == [] then None
    else
      var sign := if t[0] == '-' then -1.0 else 1.0;
      var body := if t[0] == '-' || t[0] == '+' then t[1..] else t;
      match ParseUnsigned(body)
      case None => None
      case Some(v) => Some(sign * v)
  }

  /** Digits with an optional fractional part, at least one digit in all. */
  function ParseUnsigned(body: string): Option<real> {
    var dot := FindSep(body, IsDot);
    var whole := body[..dot];
    var frac := if dot < |body| then body[dot + 1..] else [];
    if AllDigits(whole) && AllDigits(frac) && (whole != [] || frac != []) then
      Some(DigitsValue(whole) as real + FractionValue(frac))
    else None
  }

  /** The digits after the point, read as a fraction. */
  function FractionValue(frac: string): (r: real)
    requires AllDigits(frac)
    ensures frac == [] ==> r == 0.0
  {
    DigitsValue(frac) as real / Pow10(|frac|) as real
  }

  /** A run of digits with no point reads as its value. */
  lemma ParseUnsignedDigits(digits: string)
    requires digits != [] && AllDigits(digits)
    ensures ParseUnsigned(digits) == Some(DigitsValue(digits) as real)
  {
    NoDotInDigits(digits);
    assert digits[..FindSep(digits, IsDot)] == digits;
    assert FractionValue([]) == 0.0;
  }

  /** `float(str(i)) == i`. */
  lemma DecimalOfIntString(i: int)
    ensures ParseDecimal(IntToString(i)) == Some(i as real)
  {
    var n := if i < 0 then -i else i;
    IntToStringParts(i);
    NatToStringValue(n);
    DecimalOfSigned(i, n, IntToString(i), NatToString(n));
  }

  /** The text of a sign and the digits of `n`, for `n` the magnitude of
      `i`, reads as `i`. */
  lemma DecimalOfSigned(i: int, n: nat, s: string, digits: string)
    requires n == (if i < 0 then -i else i)
    requires digits != [] && AllDigits(digits) && DigitsValue(digits) == n
    requires s != [] && forall k :: 0 <= k < |s| ==> !IsSpace(s[k])
    requires i < 0 ==> s[0] == '-' && s[1..] == digits
    requires i >= 0 ==> s == digits && s[0] != '-' && s[0] != '+'
    ensures ParseDecimal(s) == Some(i as real)
  {
    StripNoSpace(s);
    DecimalOfDigits(s, digits, i < 0);
    SignTimesMagnitude(i, n);
  }

  lemma SignTimesMagnitude(i: int, n: nat)
    requires n == if i < 0 then -i else i
    ensures (if i < 0 then -1.0 else 1.0) * n as real == i as real
  {
  }

  /** A stripped, optionally negated run of digits reads as its value. */
  lemma DecimalOfDigits(s: string, digits: string, neg: bool)
    requires Strip(s) == s && s != [] && digits != [] && AllDigits(digits)
    requires neg ==> s[0] == '-' && s[1..] == digits
    requires !neg ==> s == digits && s[0] != '-' && s[0] != '+'
    ensures ParseDecimal(s) == Some((if neg then -1.0 else 1.0) * DigitsValue(digits) as real)
  {
    var body := if s[0] == '-' || s[0] == '+' then s[1..] else s;
    assert body == digits;
    ParseUnsignedDigits(digits);
  }

  lemma NoDotInDigits(digits: string)
    requires AllDigits(digits)
    ensures FindSep(digits, IsDot) == |digits|
  {
  }

  /** A run of `k` digits is worth less than `10^k`. */
  lemma {:induction false} DigitsValueBound(s: string)
    requires AllDigits(s)
    ensures DigitsValue(s) < Pow10(|s|)
  {
    if s != [] {
      DigitsValueBound(s[..|s| - 1]);
    }
  }

  /** A four-digit number prints as four digits. */
  lemma NatToStringFour(n: nat)
    requires 1000 <= n <= 9999
    ensures |NatToString(n)| == 4
  {
    assert NatToString(n / 1000) == [DigitChar(n / 1000)];
    assert n / 100 / 10 == n / 1000;
    assert n / 10 / 10 == n / 100;
    assert |NatToString(n / 100)| == 2;
    assert |NatToString(n / 10)| == 3;
  }
}
