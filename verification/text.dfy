/** String primitives the server's parser and serializer are built from:
    substring search (`std::string::find`), line splitting (`std::getline`
    with the default '\n' delimiter), whitespace-delimited extraction
    (`operator>>` into a `std::string`) and decimal rendering of
    non-negative integers (`std::to_string`).  A `char` stands for one byte
    of a C++ `std::string`. */
module Text {
  import opened Wrappers

  /* ---------------------------------------------------------------------
     Substring search
     --------------------------------------------------------------------- */

  /** `pat` occurs in `s` starting at index `i`. */
  predicate OccursAt(s: string, pat: string, i: int) {
    0 <= i && i + |pat| <= |s| && s[i..i + |pat|] == pat
  }

  /** The first occurrence of `pat` in `s` at or after `from`. */
  function FindFrom(s: string, pat: string, from: nat): (r: Option<nat>)
    requires from <= |s|
    ensures r.Some? ==> from <= r.value && OccursAt(s, pat, r.value)
    ensures r.Some? ==> forall j :: from <= j < r.value ==> !OccursAt(s, pat, j)
    ensures r.None? ==> forall j :: from <= j ==> !OccursAt(s, pat, j)
    decreases |s| - from
  {
    if |s| < from + |pat| then None
    else if s[from..from + |pat|] == pat then Some(from)
    else FindFrom(s, pat, from + 1)
  }

  /** `std::string::find`: the index of the first occurrence of `pat`. */
  function Find(s: string, pat: string): (r: Option<nat>)
    ensures r.Some? ==> OccursAt(s, pat, r.value)
    ensures r.Some? ==> forall j :: 0 <= j < r.value ==> !OccursAt(s, pat, j)
    ensures r.None? ==> forall j :: !OccursAt(s, pat, j)
  {
    FindFrom(s, pat, 0)
  }

  /** An occurrence with no earlier one is what `Find` returns. */
  lemma FindIsFirst(s: string, pat: string, i: nat)
    requires OccursAt(s, pat, i)
    requires forall j :: 0 <= j < i ==> !OccursAt(s, pat, j)
    ensures Find(s, pat) == Some(i)
  {
  }

  /** An occurrence fixes the characters it covers. */
  lemma OccursAtChars(s: string, pat: string, i: int)
    ensures OccursAt(s, pat, i) ==> forall k :: 0 <= k < |pat| ==> s[i + k] == pat[k]
  {
    if OccursAt(s, pat, i) {
      forall k | 0 <= k < |pat|
        ensures s[i + k] == pat[k]
      {
        assert s[i..i + |pat|][k] == pat[k];
      }
    }
  }

  /** Occurrences in the right part of a concatenation are shifted by the
      length of the left part. */
  lemma OccursShift(a: string, b: string, pat: string, j: int)
    requires 0 <= j
    ensures OccursAt(a + b, pat, |a| + j) <==> OccursAt(b, pat, j)
  {
    if 0 <= j && j + |pat| <= |b| {
      assert (a + b)[|a| + j..|a| + j + |pat|] == b[j..j + |pat|];
    }
  }

  /** Offsets an optional index by `n`. */
  function Shift(r: Option<nat>, n: nat): Option<nat> {
    match r
    case None => None
    case Some(i) => Some(n + i)
  }

  /** When no occurrence starts inside `a`, searching `a + b` amounts to
      searching `b`. */
  lemma FindAfter(a: string, b: string, pat: string)
    requires forall j :: 0 <= j < |a| ==> !OccursAt(a + b, pat, j)
    ensures Find(a + b, pat) == Shift(Find(b, pat), |a|)
  {
    match Find(b, pat)
    case Some(i) =>
      OccursShift(a, b, pat, i);
      forall j | 0 <= j < |a| + i
        ensures !OccursAt(a + b, pat, j)
      {
        if j >= |a| {
          OccursShift(a, b, pat, j - |a|);
        }
      }
      FindIsFirst(a + b, pat, |a| + i);
    case None =>
      forall j | 0 <= j
        ensures !OccursAt(a + b, pat, j)
      {
        if j >= |a| {
          OccursShift(a, b, pat, j - |a|);
        }
      }
  }

  /** No line-break character in `s`: it fits on one line. */
  predicate NoLineBreak(s: string) {
    '\r' !in s && '\n' !in s
  }

  /** The first "\r\n" of a line followed by its terminator is the
      terminator, provided the line holds no carriage return. */
  lemma FindLineEnd(x: string, rest: string)
    requires '\r' !in x
    ensures Find(x + "\r\n" + rest, "\r\n") == Some(|x|)
  {
    var s := x + "\r\n" + rest;
    assert s[|x|..|x| + 2] == "\r\n";
    forall j | 0 <= j < |x|
      ensures !OccursAt(s, "\r\n", j)
    {
      assert s[j] == x[j];
    }
    FindIsFirst(s, "\r\n", |x|);
  }

  /* ---------------------------------------------------------------------
     Single-character search
     --------------------------------------------------------------------- */

  /** The index of the first `c` in `s` (a one-character `find`). */
  function IndexOf(s: string, c: char): (r: Option<nat>)
    ensures r.Some? ==> r.value < |s| && s[r.value] == c && c !in s[..r.value]
    ensures r.None? <==> c !in s
  {
    if s == [] then None
    else if s[0] == c then Some(0)
    else
      match IndexOf(s[1..], c)
      case None => None
      case Some(i) =>
        assert s[..i + 1] == [s[0]] + s[1..][..i];
        Some(i + 1)
  }

  /** `IndexOf` finds the first occurrence and no other. */
  lemma IndexOfIsFirst(s: string, c: char, j: nat)
    requires j < |s| && s[j] == c && c !in s[..j]
    ensures IndexOf(s, c) == Some(j)
  {
  }

  /* ---------------------------------------------------------------------
     Lines, as `std::getline` delivers them
     --------------------------------------------------------------------- */

  /** Joins lines with a '\n' between consecutive ones. */
  function JoinLines(lines: seq<string>): string {
    if lines == [] then []
    else if |lines| == 1 then lines[0]
    else lines[0] + "\n" + JoinLines(lines[1..])
  }

  predicate EndsWithNewline(s: string) {
    |s| > 0 && s[|s| - 1] == '\n'
  }

  /** The lines successive `std::getline(stream, line)` calls produce on
      `s`: '\n' separates lines and is dropped; a final '\n' does not start
      an extra empty line; an empty stream yields no line at all. */
  function SplitLines(s: string): (lines: seq<string>)
    ensures s == [] <==> lines == []
    ensures forall i :: 0 <= i < |lines| ==> '\n' !in lines[i]
    ensures JoinLines(lines) + (if EndsWithNewline(s) then "\n" else "") == s
    decreases |s|
  {
    if s == [] then []
    else
      match IndexOf(s, '\n')
      case None => [s]
      case Some(i) =>
        var rest := SplitLines(s[i + 1..]);
        JoinFirstLine(s, i, rest);
        var lines := [s[..i]] + rest;
        assert forall k :: 0 < k < |lines| ==> lines[k] == rest[k - 1];
        lines
  }

  /** `SplitLines` step: a first line cut at its '\n', joined back to the
      lines of the remainder, gives the text back. */
  lemma JoinFirstLine(s: string, i: nat, rest: seq<string>)
    requires i < |s| && s[i] == '\n'
    requires s[i + 1..] == [] <==> rest == []
    requires JoinLines(rest) + (if EndsWithNewline(s[i + 1..]) then "\n" else "") == s[i + 1..]
    ensures JoinLines([s[..i]] + rest) + (if EndsWithNewline(s) then "\n" else "") == s
  {
    var x := s[..i];
    var r := s[i + 1..];
    assert s == x + "\n" + r;
    assert ([x] + rest)[1..] == rest;
    if rest == [] {
      assert JoinLines([x] + rest) == x;
      assert EndsWithNewline(s);
    } else {
      assert JoinLines([x] + rest) == x + "\n" + JoinLines(rest);
      assert EndsWithNewline(s) <==> EndsWithNewline(r);
    }
  }

  /** A leading line that holds no '\n' comes out of `SplitLines` first. */
  lemma SplitLinesCons(x: string, rest: string)
    requires '\n' !in x
    ensures SplitLines(x + "\n" + rest) == [x] + SplitLines(rest)
  {
    var s := x + "\n" + rest;
    assert s[..|x|] == x && s[|x|] == '\n';
    IndexOfIsFirst(s, '\n', |x|);
    assert s[|x| + 1..] == rest;
  }

  /* ---------------------------------------------------------------------
     Whitespace-delimited extraction
     --------------------------------------------------------------------- */

  /** `isspace` in the "C" locale: space, '\t', '\n', '\v', '\f', '\r'. */
  predicate IsSpace(c: char) {
    c == ' ' || c == '\t' || c == '\n' || c == '\U{B}' || c == '\U{C}' || c == '\r'
  }

  predicate NoSpace(s: string) {
    forall i :: 0 <= i < |s| ==> !IsSpace(s[i])
  }

  /** One `stream >> word` extraction can return `tok` and leave `rest`
      unread: `s` is a run of whitespace, then `tok`, then `rest`; `tok`
      holds no whitespace and is maximal; an empty `tok` means the stream
      held only whitespace and is exhausted. */
  predicate Extracts(s: string, tok: string, rest: string) {
    && |tok| + |rest| <= |s|
    && s[|s| - |rest|..] == rest
    && s[|s| - |rest| - |tok|..|s| - |rest|] == tok
    && (forall i :: 0 <= i < |s| - |rest| - |tok| ==> IsSpace(s[i]))
    && NoSpace(tok)
    && (rest == [] || IsSpace(rest[0]))
    && (tok == [] ==> rest == [])
  }

  /** Drops leading whitespace. */
  function SkipSpace(s: string): (r: string)
    ensures |r| <= |s| && s[|s| - |r|..] == r
    ensures forall i :: 0 <= i < |s| - |r| ==> IsSpace(s[i])
    ensures r == [] || !IsSpace(r[0])
  {
    if s != [] && IsSpace(s[0]) then SkipSpace(s[1..]) else s
  }

  /** Splits off the longest whitespace-free prefix. */
  function TakeWord(s: string): (r: (string, string))
    ensures r.0 + r.1 == s
    ensures NoSpace(r.0)
    ensures r.1 == [] || IsSpace(r.1[0])
  {
    if s == [] || IsSpace(s[0]) then ([], s)
    else
      var (w, rest) := TakeWord(s[1..]);
      var word := [s[0]] + w;
      assert forall k :: 0 < k < |word| ==> word[k] == w[k - 1];
      assert word + rest == [s[0]] + (w + rest);
      (word, rest)
  }

  /** `stream >> word` on a `std::string` stream holding `s`: the extracted
      word and what is left unread. */
  function NextToken(s: string): (r: (string, string))
    ensures NoSpace(r.0)
    ensures r.0 == [] ==> r.1 == []
    ensures r.0 == [] <==> forall i :: 0 <= i < |s| ==> IsSpace(s[i])
  {
    if s != [] && IsSpace(s[0]) then NextToken(s[1..]) else TakeWord(s)
  }

  /** `NextToken` performs an extraction in the sense of `Extracts`. */
  lemma NextTokenExtracts(s: string)
    ensures Extracts(s, NextToken(s).0, NextToken(s).1)
  {
    SkipThenTake(s);
    SkippedWordExtracts(s);
  }

  lemma SkippedWordExtracts(s: string)
    ensures var t := SkipSpace(s); Extracts(s, TakeWord(t).0, TakeWord(t).1)
  {
    var t := SkipSpace(s);
    ExtractsFromParts(s, t, TakeWord(t).0, TakeWord(t).1);
  }

  /** `NextToken` skips the leading whitespace, then takes a word. */
  lemma {:induction false} SkipThenTake(s: string)
    ensures NextToken(s) == TakeWord(SkipSpace(s))
  {
    if s != [] && IsSpace(s[0]) {
      SkipThenTake(s[1..]);
    }
  }

  /** Leading whitespace, then a word, then a remainder that is empty or
      starts with whitespace: an extraction. */
  lemma ExtractsFromParts(s: string, t: string, w: string, rest: string)
    requires |t| <= |s| && s[|s| - |t|..] == t
    requires forall i :: 0 <= i < |s| - |t| ==> IsSpace(s[i])
    requires t == [] || !IsSpace(t[0])
    requires w + rest == t && NoSpace(w) && (rest == [] || IsSpace(rest[0]))
    ensures Extracts(s, w, rest)
  {
    var k := |s| - |t|;
    assert rest == t[|w|..] && w == t[..|w|];
    assert |s| - |rest| == k + |w| && |s| - |rest| - |w| == k;
    assert s[k + |w|..] == rest;
    assert s[k..k + |w|] == w;
  }

  /** `Extracts` pins the extraction down: there is only one. */
  lemma ExtractsUnique(s: string, t1: string, r1: string, t2: string, r2: string)
    requires Extracts(s, t1, r1) && Extracts(s, t2, r2)
    ensures t1 == t2 && r1 == r2
  {
    WordStart(s, t1, r1);
    WordStart(s, t2, r2);
    var a := |s| - |r1| - |t1|;
    assert a == |s| - |r2| - |t2|;
    WordEnd(s, a, t1, r1);
    WordEnd(s, a, t2, r2);
  }

  /** Where an extracted word starts: after all leading whitespace. */
  lemma WordStart(s: string, t: string, r: string)
    requires Extracts(s, t, r)
    ensures var a := |s| - |r| - |t|;
      (forall i :: 0 <= i < a ==> IsSpace(s[i])) && (a == |s| || !IsSpace(s[a]))
  {
    if t != [] {
      assert s[|s| - |r| - |t|] == t[0];
    }
  }

  /** Where an extracted word ends: at the first whitespace after its start. */
  lemma WordEnd(s: string, a: int, t: string, r: string)
    requires Extracts(s, t, r) && a == |s| - |r| - |t|
    ensures var e := |s| - |r|;
      (forall i :: a <= i < e ==> !IsSpace(s[i])) && (e == |s| || IsSpace(s[e]))
  {
    var e := |s| - |r|;
    assert forall i :: a <= i < e ==> s[i] == t[i - a];
    if r != [] {
      assert s[e] == r[0];
    }
  }

  /** A whitespace-free word followed by whitespace, or by the end of the
      stream, is extracted whole. */
  lemma NextTokenOfWord(w: string, rest: string)
    requires w != [] && NoSpace(w)
    requires rest == [] || IsSpace(rest[0])
    ensures NextToken(w + rest) == (w, rest)
  {
    var s := w + rest;
    assert s[|s| - |rest|..] == rest;
    assert s[|s| - |rest| - |w|..|s| - |rest|] == w;
    var r := NextToken(s);
    NextTokenExtracts(s);
    ExtractsUnique(s, r.0, r.1, w, rest);
  }

  /** Leading whitespace is skipped before a word is extracted. */
  lemma NextTokenSkipsSpace(rest: string)
    ensures NextToken(" " + rest) == NextToken(rest)
  {
    assert (" " + rest)[1..] == rest;
  }

  /* ---------------------------------------------------------------------
     Decimal numerals
     --------------------------------------------------------------------- */

  predicate IsDigit(c: char) {
    '0' <= c <= '9'
  }

  predicate AllDigits(s: string) {
    forall i :: 0 <= i < |s| ==> IsDigit(s[i])
  }

  function DigitChar(d: nat): (c: char)
    requires d < 10
    ensures IsDigit(c) && c as int - '0' as int == d
  {
    (d + '0' as int) as char
  }

  /** The value of a string of decimal digits. */
  function DigitsValue(s: string): nat
    requires AllDigits(s)
  {
    if s == [] then 0
    else DigitsValue(s[..|s| - 1]) * 10 + (s[|s| - 1] as int - '0' as int)
  }

  /** `std::to_string` of a non-negative integer: its shortest decimal
      numeral, the only one that starts with '0' being "0" itself. */
  function Decimal(n: nat): (r: string)
    ensures r != [] && AllDigits(r)
    ensures r[0] == '0' <==> n == 0
    ensures n == 0 ==> r == "0"
    decreases n
  {
    if n < 10 then [DigitChar(n)]
    else Decimal(n / 10) + [DigitChar(n % 10)]
  }

  /** Reading the numeral back gives the number. */
  lemma {:induction false} DecimalRoundTrip(n: nat)
    ensures DigitsValue(Decimal(n)) == n
  {
    if n >= 10 {
      var d := Decimal(n);
      assert d[..|d| - 1] == Decimal(n / 10);
      DecimalRoundTrip(n / 10);
    }
  }

  /** Distinct numbers have distinct numerals. */
  lemma DecimalInjective(m: nat, n: nat)
    requires Decimal(m) == Decimal(n)
    ensures m == n
  {
    DecimalRoundTrip(m);
    DecimalRoundTrip(n);
  }
}
