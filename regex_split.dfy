/**
 * Regex.Split with a pattern that is one capture group around the whole
 * match, for the three patterns the phrasebook splits on. The input is
 * scanned left to right; at each position the pattern is tried, and a match
 * is cut out as its own part; the text between matches (possibly empty) is
 * kept, so the result alternates text, match, text, ..., text.
 */
module RegexSplit {
  import opened Strings

  datatype Pattern =
    | Braces   // ({|})
    | Angles   // (<<|>>)
    | Marker   // (\^[PpFfMmNn][^ ]*)

  predicate IsMarkerLetter(c: char) {
    c in "PpFfMmNn"
  }

  /** Length of the run of characters other than ' ' that starts at `j`. */
  function NonSpaceRun(s: string, j: nat): (n: nat)
    requires j <= |s|
    ensures j + n <= |s|
    ensures forall k :: j <= k < j + n ==> s[k] != ' '
    ensures j + n == |s| || s[j + n] == ' '
    decreases |s| - j
  {
    if j == |s| || s[j] == ' ' then 0 else 1 + NonSpaceRun(s, j + 1)
  }

  /** The length of the match of `p` that starts at `i`, or 0 when there is none (no pattern matches the empty string). */
  function MatchLength(p: Pattern, s: string, i: nat): (n: nat)
    requires i < |s|
    ensures i + n <= |s|
  {
    match p
    case Braces => if s[i] == '{' || s[i] == '}' then 1 else 0
    case Angles =>
      if i + 1 < |s| && ((s[i] == '<' && s[i + 1] == '<') || (s[i] == '>' && s[i + 1] == '>')) then 2 else 0
    case Marker =>
      if i + 1 < |s| && s[i] == '^' && IsMarkerLetter(s[i + 1]) then 2 + NonSpaceRun(s, i + 2) else 0
  }

  /** What a matched part looks like. */
  predicate IsDelimiter(p: Pattern, d: string) {
    match p
    case Braces => d == "{" || d == "}"
    case Angles => d == "<<" || d == ">>"
    case Marker => |d| >= 2 && d[0] == '^' && IsMarkerLetter(d[1]) && ' ' !in d
  }

  /** The pattern matches nowhere inside `t`. */
  predicate NoMatchIn(p: Pattern, t: string) {
    forall j :: 0 <= j < |t| ==> MatchLength(p, t, j) == 0
  }

  /** The parts of `s[start..]`, where no match starts in `s[start..i]`. */
  function SplitFrom(p: Pattern, s: string, start: nat, i: nat): seq<string>
    requires start <= i <= |s|
    decreases |s| - i
  {
    if i == |s| then [s[start..]]
    else
      var n := MatchLength(p, s, i);
      if n == 0 then SplitFrom(p, s, start, i + 1)
      else [s[start..i], s[i..i + n]] + SplitFrom(p, s, i + n, i + n)
  }

  /** Regex.Split(s, pattern). */
  function Split(p: Pattern, s: string): seq<string> {
    SplitFrom(p, s, 0, 0)
  }

  /** A match found inside a slice is a match in the whole string. */
  lemma MatchInSlice(p: Pattern, s: string, a: nat, b: nat, j: nat)
    requires a <= j < b <= |s|
    ensures MatchLength(p, s[a..b], j - a) > 0 ==> MatchLength(p, s, j) > 0
  {
  }

  /** A match cut out of the string is a delimiter. */
  lemma MatchIsDelimiter(p: Pattern, s: string, i: nat)
    requires i < |s| && MatchLength(p, s, i) > 0
    ensures IsDelimiter(p, s[i..i + MatchLength(p, s, i)])
  {
    var d := s[i..i + MatchLength(p, s, i)];
    if p.Marker? {
      assert d[0] == s[i] && d[1] == s[i + 1];
      forall k | 0 <= k < |d| ensures d[k] != ' ' {
        assert d[k] == s[i + k];
      }
    }
  }

  /** A text part lies in a stretch where no match starts. */
  lemma NoMatchInSlice(p: Pattern, s: string, a: nat, b: nat)
    requires a <= b <= |s|
    requires forall j :: a <= j < b ==> MatchLength(p, s, j) == 0
    ensures NoMatchIn(p, s[a..b])
  {
    forall j | 0 <= j < b - a ensures MatchLength(p, s[a..b], j) == 0 {
      MatchInSlice(p, s, a, b, a + j);
    }
  }

  /** One step of the scan: no match at `i`, or a match cut out at `i`. */
  lemma SplitFromStep(p: Pattern, s: string, start: nat, i: nat)
    requires start <= i < |s|
    ensures MatchLength(p, s, i) == 0 ==> SplitFrom(p, s, start, i) == SplitFrom(p, s, start, i + 1)
    ensures MatchLength(p, s, i) > 0 ==>
      var n := MatchLength(p, s, i);
      SplitFrom(p, s, start, i) == [s[start..i], s[i..i + n]] + SplitFrom(p, s, i + n, i + n)
  {
  }

  /** The parts of the scan spell the scanned text. */
  lemma {:induction false} SplitFromConcat(p: Pattern, s: string, start: nat, i: nat)
    requires start <= i <= |s|
    ensures Concat(SplitFrom(p, s, start, i)) == s[start..]
    decreases |s| - i
  {
    if i == |s| {
      ConcatCons(s[start..], []);
    } else if MatchLength(p, s, i) == 0 {
      SplitFromStep(p, s, start, i);
      SplitFromConcat(p, s, start, i + 1);
    } else {
      var n := MatchLength(p, s, i);
      SplitFromConcat(p, s, i + n, i + n);
      MatchConcat(p, s, start, i);
    }
  }

  /** A match cut out at `i`, with the parts after it spelling the rest, spells the text from `start`. */
  lemma MatchConcat(p: Pattern, s: string, start: nat, i: nat)
    requires start <= i < |s| && MatchLength(p, s, i) > 0
    requires Concat(SplitFrom(p, s, i + MatchLength(p, s, i), i + MatchLength(p, s, i))) == s[i + MatchLength(p, s, i)..]
    ensures Concat(SplitFrom(p, s, start, i)) == s[start..]
  {
    var n := MatchLength(p, s, i);
    SplitFromStep(p, s, start, i);
    SpliceSlices(s, start, i, i + n, SplitFrom(p, s, i + n, i + n));
  }

  lemma SpliceSlices(s: string, start: nat, i: nat, j: nat, rest: seq<string>)
    requires start <= i <= j <= |s| && Concat(rest) == s[j..]
    ensures Concat([s[start..i], s[i..j]] + rest) == s[start..]
  {
    SpliceConcat(s[start..i], s[i..j], rest);
    assert s[start..] == s[start..i] + (s[i..j] + s[j..]);
  }

  lemma SpliceConcat(text: string, match_: string, rest: seq<string>)
    ensures Concat([text, match_] + rest) == text + (match_ + Concat(rest))
  {
    ConcatCons(match_, rest);
    ConcatCons(text, [match_] + rest);
    assert [text, match_] + rest == [text] + ([match_] + rest);
  }

  /**
   * Text parts and matches alternate: a text part holding no match, then
   * either nothing more, or a match followed by parts of the same shape.
   */
  predicate Alternates(p: Pattern, parts: seq<string>)
    decreases |parts|
  {
    |parts| >= 1 && NoMatchIn(p, parts[0])
    && (|parts| == 1 || (|parts| >= 3 && IsDelimiter(p, parts[1]) && Alternates(p, parts[2..])))
  }

  /** Alternating parts are odd in number: text, then pairs of match and text. */
  lemma {:induction false} AlternatesOdd(p: Pattern, parts: seq<string>)
    requires Alternates(p, parts)
    ensures |parts| % 2 == 1
    decreases |parts|
  {
    if |parts| > 1 {
      AlternatesOdd(p, parts[2..]);
    }
  }

  /** At the end of the string, the scan's last part holds no match. */
  lemma AlternatesAtEnd(p: Pattern, s: string, start: nat)
    requires start <= |s|
    requires forall j :: start <= j < |s| ==> MatchLength(p, s, j) == 0
    ensures Alternates(p, SplitFrom(p, s, start, |s|))
  {
    NoMatchInSlice(p, s, start, |s|);
    assert s[start..|s|] == s[start..];
  }

  /** Stepping over a position where nothing matches keeps the alternation. */
  lemma AlternatesPastNoMatch(p: Pattern, s: string, start: nat, i: nat)
    requires start <= i < |s| && MatchLength(p, s, i) == 0
    requires Alternates(p, SplitFrom(p, s, start, i + 1))
    ensures Alternates(p, SplitFrom(p, s, start, i))
  {
    SplitFromStep(p, s, start, i);
  }

  /** Cutting at a match, after a stretch with no match, keeps the alternation. */
  lemma AlternatesAtMatch(p: Pattern, s: string, start: nat, i: nat)
    requires start <= i < |s| && MatchLength(p, s, i) > 0
    requires forall j :: start <= j < i ==> MatchLength(p, s, j) == 0
    requires Alternates(p, SplitFrom(p, s, i + MatchLength(p, s, i), i + MatchLength(p, s, i)))
    ensures Alternates(p, SplitFrom(p, s, start, i))
  {
    var n := MatchLength(p, s, i);
    var rest := SplitFrom(p, s, i + n, i + n);
    NoMatchInSlice(p, s, start, i);
    MatchIsDelimiter(p, s, i);
    SplitFromStep(p, s, start, i);
    var r := [s[start..i], s[i..i + n]] + rest;
    assert r[2..] == rest;
  }

  lemma {:induction false} SplitFromAlternates(p: Pattern, s: string, start: nat, i: nat)
    requires start <= i <= |s|
    requires forall j :: start <= j < i ==> MatchLength(p, s, j) == 0
    ensures Alternates(p, SplitFrom(p, s, start, i))
    decreases |s| - i
  {
    if i == |s| {
      AlternatesAtEnd(p, s, start);
    } else if MatchLength(p, s, i) == 0 {
      SplitFromAlternates(p, s, start, i + 1);
      AlternatesPastNoMatch(p, s, start, i);
    } else {
      var n := MatchLength(p, s, i);
      SplitFromAlternates(p, s, i + n, i + n);
      AlternatesAtMatch(p, s, start, i);
    }
  }

  /** No match starts in `s[lo..hi]`. */
  predicate NoMatchBetween(p: Pattern, s: string, lo: nat, hi: nat)
    requires hi <= |s|
  {
    forall x :: lo <= x < hi ==> MatchLength(p, s, x) == 0
  }

  /**
   * `parts` is what a leftmost, greedy scan of `s` from offset `o` cuts: a
   * piece of text that runs up to the first position where the pattern
   * matches (or to the end), then the whole match found there, then the
   * same again after the match.
   */
  predicate ScannedFrom(p: Pattern, s: string, parts: seq<string>, o: nat)
    decreases |parts|
  {
    |parts| >= 1 && o + |parts[0]| <= |s| && parts[0] == s[o..o + |parts[0]|]
    && NoMatchBetween(p, s, o, o + |parts[0]|)
    && var m := o + |parts[0]|;
       if |parts| == 1 then m == |s|
       else
         |parts| >= 3 && m < |s| && MatchLength(p, s, m) > 0
         && parts[1] == s[m..m + MatchLength(p, s, m)]
         && ScannedFrom(p, s, parts[2..], m + MatchLength(p, s, m))
  }

  /** Text with no match in it, cut at the end of the string, is a whole scan. */
  lemma ScannedLast(p: Pattern, s: string, start: nat)
    requires start <= |s|
    requires forall j :: start <= j < |s| ==> MatchLength(p, s, j) == 0
    ensures ScannedFrom(p, s, [s[start..]], start)
  {
  }

  /** Text with no match in it, cut at a match, followed by a scan from after the match, is a scan. */
  lemma ScannedCons(p: Pattern, s: string, start: nat, i: nat, rest: seq<string>)
    requires start <= i < |s| && MatchLength(p, s, i) > 0
    requires forall j :: start <= j < i ==> MatchLength(p, s, j) == 0
    requires ScannedFrom(p, s, rest, i + MatchLength(p, s, i))
    ensures ScannedFrom(p, s, [s[start..i], s[i..i + MatchLength(p, s, i)]] + rest, start)
  {
    var r := [s[start..i], s[i..i + MatchLength(p, s, i)]] + rest;
    assert r[0] == s[start..i] && r[2..] == rest;
  }

  /** At the end of the string, the scan's last part is a whole scan. */
  lemma ScannedAtEnd(p: Pattern, s: string, start: nat)
    requires start <= |s|
    requires forall j :: start <= j < |s| ==> MatchLength(p, s, j) == 0
    ensures ScannedFrom(p, s, SplitFrom(p, s, start, |s|), start)
  {
    ScannedLast(p, s, start);
  }

  /** Stepping over a position where nothing matches keeps the scan. */
  lemma ScannedPastNoMatch(p: Pattern, s: string, start: nat, i: nat)
    requires start <= i < |s| && MatchLength(p, s, i) == 0
    requires ScannedFrom(p, s, SplitFrom(p, s, start, i + 1), start)
    ensures ScannedFrom(p, s, SplitFrom(p, s, start, i), start)
  {
    SplitFromStep(p, s, start, i);
  }

  /** Cutting at a match, after a stretch with no match, keeps the scan. */
  lemma ScannedAtMatch(p: Pattern, s: string, start: nat, i: nat)
    requires start <= i < |s| && MatchLength(p, s, i) > 0
    requires forall j :: start <= j < i ==> MatchLength(p, s, j) == 0
    requires ScannedFrom(p, s, SplitFrom(p, s, i + MatchLength(p, s, i), i + MatchLength(p, s, i)), i + MatchLength(p, s, i))
    ensures ScannedFrom(p, s, SplitFrom(p, s, start, i), start)
  {
    var n := MatchLength(p, s, i);
    SplitFromStep(p, s, start, i);
    ScannedCons(p, s, start, i, SplitFrom(p, s, i + n, i + n));
  }

  lemma {:induction false} SplitFromScanned(p: Pattern, s: string, start: nat, i: nat)
    requires start <= i <= |s|
    requires forall j :: start <= j < i ==> MatchLength(p, s, j) == 0
    ensures ScannedFrom(p, s, SplitFrom(p, s, start, i), start)
    decreases |s| - i
  {
    if i == |s| {
      ScannedAtEnd(p, s, start);
    } else if MatchLength(p, s, i) == 0 {
      SplitFromScanned(p, s, start, i + 1);
      ScannedPastNoMatch(p, s, start, i);
    } else {
      var n := MatchLength(p, s, i);
      SplitFromScanned(p, s, i + n, i + n);
      ScannedAtMatch(p, s, start, i);
    }
  }

  /**
   * The shape of Regex.Split's result: an odd number of parts that
   * concatenate to the input, alternating between text holding no match
   * and a match of the pattern, beginning and ending with (possibly empty)
   * text; each text part runs to the leftmost match and each match is the
   * longest one at its position.
   */
  lemma SplitShape(p: Pattern, s: string)
    ensures |Split(p, s)| % 2 == 1 && Concat(Split(p, s)) == s
    ensures Alternates(p, Split(p, s))
    ensures ScannedFrom(p, s, Split(p, s), 0)
  {
    SplitFromConcat(p, s, 0, 0);
    SplitFromAlternates(p, s, 0, 0);
    AlternatesOdd(p, Split(p, s));
    SplitFromScanned(p, s, 0, 0);
  }

  /** Stretches where no match starts are skipped over by the scan. */
  lemma {:induction false} SplitFromSkip(p: Pattern, s: string, start: nat, i: nat, j: nat)
    requires start <= i <= j <= |s|
    requires forall x :: i <= x < j ==> MatchLength(p, s, x) == 0
    ensures SplitFrom(p, s, start, i) == SplitFrom(p, s, start, j)
    decreases j - i
  {
    if i < j {
      SplitFromStep(p, s, start, i);
      SplitFromSkip(p, s, start, i + 1, j);
    }
  }

  /** From a part's start, the scan runs to the next match and cuts there. */
  lemma SplitFromNext(p: Pattern, s: string, start: nat, i: nat)
    requires start <= i < |s| && MatchLength(p, s, i) > 0
    requires forall x :: start <= x < i ==> MatchLength(p, s, x) == 0
    ensures var n := MatchLength(p, s, i);
      SplitFrom(p, s, start, start) == [s[start..i], s[i..i + n]] + SplitFrom(p, s, i + n, i + n)
  {
    SplitFromSkip(p, s, start, start, i);
    SplitFromStep(p, s, start, i);
  }

  /** From a part's start, with no match left, the rest is the last part. */
  lemma SplitFromLast(p: Pattern, s: string, start: nat)
    requires start <= |s|
    requires forall x :: start <= x < |s| ==> MatchLength(p, s, x) == 0
    ensures SplitFrom(p, s, start, start) == [s[start..]]
  {
    SplitFromSkip(p, s, start, start, |s|);
  }

  /** Text in which the pattern never matches is not split. */
  lemma SplitNoMatch(p: Pattern, s: string)
    requires forall x :: 0 <= x < |s| ==> MatchLength(p, s, x) == 0
    ensures Split(p, s) == [s]
  {
    SplitFromSkip(p, s, 0, 0, |s|);
    assert s[0..] == s;
  }

  predicate IsAsciiDigit(c: char) {
    '0' <= c <= '9'
  }

  predicate AllDigits(s: string) {
    |s| >= 1 && forall i :: 0 <= i < |s| ==> IsAsciiDigit(s[i])
  }

  /** Regex.IsMatch(s, @"^\d+$"); `$` also matches just before a final '\n'. */
  predicate IsDecimal(s: string) {
    AllDigits(s) || (|s| >= 2 && s[|s| - 1] == '\n' && AllDigits(s[..|s| - 1]))
  }
}
