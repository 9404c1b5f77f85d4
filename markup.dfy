/**
 * The markup of a localized value (the "Lingoona" grammar): `<<...>>`
 * placeholders, optionally prefixed by a grammar tag and `:`, and `^X...`
 * case markers. A value is classified into a sequence of text runs for
 * display; the runs always spell out the value exactly.
 */
module Markup {
  import opened Strings
  import opened RegexSplit

  /** The classification names the runs are tagged with. */
  datatype Classification = Operator | Keyword | Number | String | Punctuation | Text

  datatype ClassifiedTextRun = ClassifiedTextRun(kind: Classification, text: string)

  /**
   * The text the runs display, one after the other. Strings.Concat joins
   * the parts of a split, which grow at the back as the scan goes on; the
   * runs are built from the front, one token's runs before the rest, so
   * Render takes them off the front and RenderAppend is its own lemma.
   */
  function Render(runs: seq<ClassifiedTextRun>): string {
    if runs == [] then "" else runs[0].text + Render(runs[1..])
  }

  lemma {:induction false} RenderAppend(a: seq<ClassifiedTextRun>, b: seq<ClassifiedTextRun>)
    ensures Render(a + b) == Render(a) + Render(b)
  {
    if a == [] {
      assert a + b == b;
    } else {
      RenderAppend(a[1..], b);
      assert (a + b)[1..] == a[1..] + b;
      assert Render(a + b) == a[0].text + Render(a[1..] + b);
      var x, y := Render(a[1..]), Render(b);
      assert a[0].text + (x + y) == (a[0].text + x) + y;
    }
  }

  /**
   * The runs for the parts of a split on markers: each text part becomes a
   * String run, each marker the operator `^` followed by a Keyword run with
   * the rest of the marker.
   */
  function MarkerRuns(parts: seq<string>): seq<ClassifiedTextRun>
    requires Alternates(Marker, parts)
    decreases |parts|
  {
    [ClassifiedTextRun(String, parts[0])]
    + if |parts| == 1 then []
      else [ClassifiedTextRun(Operator, "^"), ClassifiedTextRun(Keyword, parts[1][1..])] + MarkerRuns(parts[2..])
  }

  /** ParseLingoonaString: classifies text that may hold `^X...` markers. */
  function ParseLingoonaString(value: string): seq<ClassifiedTextRun> {
    SplitShape(Marker, value);
    MarkerRuns(Split(Marker, value))
  }

  /** The body of a placeholder: a number, or text with markers. */
  function PlaceholderBodyRuns(body: string): seq<ClassifiedTextRun> {
    if IsDecimal(body) then [ClassifiedTextRun(Number, body)] else ParseLingoonaString(body)
  }

  /** A placeholder: an optional grammar tag up to the first `:`, then the body. */
  function PlaceholderRuns(placeholder: string): seq<ClassifiedTextRun> {
    if ':' in placeholder then
      var (grammar, body) := SplitOnce(placeholder, ':');
      [ClassifiedTextRun(Keyword, grammar), ClassifiedTextRun(Operator, ":")] + PlaceholderBodyRuns(body)
    else PlaceholderBodyRuns(placeholder)
  }

  /** The runs for one part of the split on `<<`/`>>`, given the part before it. */
  function TokenRuns(token: string, last: Option<string>): seq<ClassifiedTextRun> {
    if token == "<<" then [ClassifiedTextRun(Operator, token)]
    else if token == ">>" then [ClassifiedTextRun(Operator, token)]
    else if last == Some("<<") then PlaceholderRuns(token)
    else ParseLingoonaString(token)
  }

  function AngleRuns(parts: seq<string>, last: Option<string>): seq<ClassifiedTextRun> {
    if parts == [] then [] else TokenRuns(parts[0], last) + AngleRuns(parts[1..], Some(parts[0]))
  }

  /** ParseLingoona: classifies a whole localized value. */
  function ParseLingoona(value: string): seq<ClassifiedTextRun> {
    AngleRuns(Split(Angles, value), None)
  }

  // Round trip: the runs spell out their input.

  lemma {:induction false} MarkerRunsRender(parts: seq<string>)
    requires Alternates(Marker, parts)
    ensures Render(MarkerRuns(parts)) == Concat(parts)
    decreases |parts|
  {
    var text := [ClassifiedTextRun(String, parts[0])];
    if |parts| == 1 {
      assert MarkerRuns(parts) == text;
      ConcatCons(parts[0], []);
      assert parts == [parts[0]] + [];
    } else {
      var marker := [ClassifiedTextRun(Operator, "^"), ClassifiedTextRun(Keyword, parts[1][1..])];
      var rest := parts[2..];
      MarkerRunsRender(rest);
      RenderAppend(marker, MarkerRuns(rest));
      RenderAppend(text, marker + MarkerRuns(rest));
      assert parts[1] == "^" + parts[1][1..];
      assert parts == [parts[0]] + ([parts[1]] + rest);
      ConcatCons(parts[1], rest);
      ConcatCons(parts[0], [parts[1]] + rest);
    }
  }

  /** The runs of ParseLingoonaString spell out its input. */
  lemma ParseLingoonaStringRoundTrip(value: string)
    ensures Render(ParseLingoonaString(value)) == value
  {
    SplitShape(Marker, value);
    MarkerRunsRender(Split(Marker, value));
  }

  lemma PlaceholderBodyRunsRender(body: string)
    ensures Render(PlaceholderBodyRuns(body)) == body
  {
    if !IsDecimal(body) {
      ParseLingoonaStringRoundTrip(body);
    }
  }

  lemma PlaceholderRunsRender(placeholder: string)
    ensures Render(PlaceholderRuns(placeholder)) == placeholder
  {
    if ':' in placeholder {
      var (grammar, body) := SplitOnce(placeholder, ':');
      var head := [ClassifiedTextRun(Keyword, grammar), ClassifiedTextRun(Operator, ":")];
      RenderAppend(head, PlaceholderBodyRuns(body));
      PlaceholderBodyRunsRender(body);
    } else {
      PlaceholderBodyRunsRender(placeholder);
    }
  }

  lemma TokenRunsRender(token: string, last: Option<string>)
    ensures Render(TokenRuns(token, last)) == token
  {
    if token != "<<" && token != ">>" {
      if last == Some("<<") {
        PlaceholderRunsRender(token);
      } else {
        ParseLingoonaStringRoundTrip(token);
      }
    }
  }

  lemma {:induction false} AngleRunsRender(parts: seq<string>, last: Option<string>)
    ensures Render(AngleRuns(parts, last)) == Concat(parts)
  {
    if parts != [] {
      AngleRunsRender(parts[1..], Some(parts[0]));
      TokenRunsRender(parts[0], last);
      RenderAppend(TokenRuns(parts[0], last), AngleRuns(parts[1..], Some(parts[0])));
      assert parts == [parts[0]] + parts[1..];
      ConcatCons(parts[0], parts[1..]);
    }
  }

  /** The runs of ParseLingoona spell out the value exactly. */
  lemma ParseLingoonaRoundTrip(value: string)
    ensures Render(ParseLingoona(value)) == value
  {
    SplitShape(Angles, value);
    AngleRunsRender(Split(Angles, value), None);
  }

  // The shape of the runs.

  /** What the text of a marker looks like once its `^` is dropped. */
  predicate IsMarkerText(t: string) {
    |t| >= 1 && IsMarkerLetter(t[0]) && ' ' !in t
  }

  /**
   * Runs made of text with no marker in it, and markers shown as the
   * operator `^` immediately followed by the keyword for the rest of the marker.
   */
  predicate MarkerShaped(r: seq<ClassifiedTextRun>) {
    (forall k :: 0 <= k < |r| ==> r[k].kind == String || r[k].kind == Operator || r[k].kind == Keyword)
    && (forall k :: 0 <= k < |r| && r[k].kind == String ==> NoMatchIn(Marker, r[k].text))
    && (forall k :: 0 <= k < |r| && r[k].kind == Operator ==>
          r[k].text == "^" && k + 1 < |r| && r[k + 1].kind == Keyword && IsMarkerText(r[k + 1].text))
    && (forall k :: 0 <= k < |r| && r[k].kind == Keyword ==> 0 < k && r[k - 1].kind == Operator)
  }

  lemma MarkerShapedCons(head: seq<ClassifiedTextRun>, rest: seq<ClassifiedTextRun>)
    requires MarkerShaped(head) && MarkerShaped(rest)
    requires rest != [] ==> rest[0].kind != Keyword
    ensures MarkerShaped(head + rest)
  {
    var r := head + rest;
    forall k | 0 <= k < |r| && r[k].kind == Keyword ensures 0 < k && r[k - 1].kind == Operator {
      if k >= |head| {
        assert r[k] == rest[k - |head|];
        assert r[k - 1] == rest[k - 1 - |head|];
      }
    }
    forall k | 0 <= k < |r| && r[k].kind == Operator
      ensures r[k].text == "^" && k + 1 < |r| && r[k + 1].kind == Keyword && IsMarkerText(r[k + 1].text)
    {
      if k >= |head| {
        assert r[k] == rest[k - |head|];
        assert r[k + 1] == rest[k + 1 - |head|];
      }
    }
  }

  lemma MarkerHeadShape(d: string)
    requires IsDelimiter(Marker, d)
    ensures MarkerShaped([ClassifiedTextRun(Operator, "^"), ClassifiedTextRun(Keyword, d[1..])])
  {
    var t := d[1..];
    assert t[0] == d[1];
    forall j | 0 <= j < |t| ensures t[j] != ' ' {
      assert t[j] == d[j + 1];
    }
  }

  /** The runs for alternating parts start and end with a String run. */
  lemma {:induction false} MarkerRunsEnds(parts: seq<string>)
    requires Alternates(Marker, parts)
    ensures MarkerRuns(parts)[0].kind == String
    ensures MarkerRuns(parts)[|MarkerRuns(parts)| - 1].kind == String
    decreases |parts|
  {
    if |parts| > 1 {
      var rest := MarkerRuns(parts[2..]);
      MarkerRunsEnds(parts[2..]);
      var r := MarkerRuns(parts);
      assert r[|r| - 1] == rest[|rest| - 1];
    }
  }

  lemma {:induction false} MarkerRunsShape(parts: seq<string>)
    requires Alternates(Marker, parts)
    ensures MarkerShaped(MarkerRuns(parts))
    decreases |parts|
  {
    var text := [ClassifiedTextRun(String, parts[0])];
    if |parts| == 1 {
      assert MarkerRuns(parts) == text;
    } else {
      var marker := [ClassifiedTextRun(Operator, "^"), ClassifiedTextRun(Keyword, parts[1][1..])];
      var rest := MarkerRuns(parts[2..]);
      MarkerRunsShape(parts[2..]);
      MarkerRunsEnds(parts[2..]);
      MarkerHeadShape(parts[1]);
      MarkerShapedCons(marker, rest);
      assert MarkerShaped(text);
      MarkerShapedCons(text, marker + rest);
      assert MarkerRuns(parts) == text + (marker + rest);
    }
  }

  /**
   * ParseLingoonaString starts and ends with a (possibly empty) String run;
   * its String runs hold no marker; every marker becomes the operator `^`
   * followed by a keyword holding the marker letter and the rest of the
   * non-space run.
   */
  lemma ParseLingoonaStringShape(value: string)
    ensures var r := ParseLingoonaString(value);
      |r| >= 1 && r[0].kind == String && r[|r| - 1].kind == String && MarkerShaped(r)
  {
    SplitShape(Marker, value);
    MarkerRunsShape(Split(Marker, value));
    MarkerRunsEnds(Split(Marker, value));
  }

  /** Text without `^` is a single String run. */
  lemma PlainString(t: string)
    requires '^' !in t
    ensures ParseLingoonaString(t) == [ClassifiedTextRun(String, t)]
  {
    forall x | 0 <= x < |t| ensures MatchLength(Marker, t, x) == 0 {
      assert t[x] in t;
    }
    SplitNoMatch(Marker, t);
  }

  /** The runs of a placeholder-free part hold no number, and no operator but `^` and `>>`. */
  predicate OutsidePlaceholders(r: seq<ClassifiedTextRun>) {
    forall k :: 0 <= k < |r| ==>
      r[k].kind != Number && (r[k].kind == Operator ==> r[k].text == "^" || r[k].text == ">>")
  }

  lemma {:induction false} AngleRunsWithoutOpener(parts: seq<string>, last: Option<string>)
    requires forall k :: 0 <= k < |parts| ==> parts[k] != "<<"
    requires last != Some("<<")
    ensures OutsidePlaceholders(AngleRuns(parts, last))
    decreases |parts|
  {
    if parts != [] {
      var head := TokenRuns(parts[0], last);
      if parts[0] != ">>" {
        ParseLingoonaStringShape(parts[0]);
      }
      assert OutsidePlaceholders(head);
      var rest := AngleRuns(parts[1..], Some(parts[0]));
      AngleRunsWithoutOpener(parts[1..], Some(parts[0]));
      var r := head + rest;
      forall k | 0 <= k < |r| ensures r[k].kind != Number && (r[k].kind == Operator ==> r[k].text == "^" || r[k].text == ">>") {
        if k >= |head| { assert r[k] == rest[k - |head|]; }
      }
    }
  }

  /**
   * Only the part right after `<<` is read as a placeholder: a value in which
   * `<<` never occurs yields no Number run, no grammar-tag `:` and no `<<`.
   */
  lemma NoOpenerNoPlaceholder(value: string)
    requires forall j :: !OccursAt(value, "<<", j)
    ensures OutsidePlaceholders(ParseLingoona(value))
  {
    var parts := Split(Angles, value);
    SplitShape(Angles, value);
    forall k | 0 <= k < |parts| ensures parts[k] != "<<" {
      ConcatPartOccurs(parts, k);
    }
    AngleRunsWithoutOpener(parts, None);
  }

  predicate NoAngle(t: string) {
    '<' !in t && '>' !in t
  }

  /** Text without `<` or `>` holds no match of `<<|>>`, wherever it sits. */
  lemma NoAngleNoMatch(s: string, a: nat, t: string)
    requires a + |t| <= |s| && s[a..a + |t|] == t && NoAngle(t)
    ensures forall x :: a <= x < a + |t| ==> MatchLength(Angles, s, x) == 0
  {
    forall x | a <= x < a + |t| ensures MatchLength(Angles, s, x) == 0 {
      assert s[x] == t[x - a] && t[x - a] in t;
    }
  }

  /** A value with exactly one placeholder is split around it. */
  lemma SplitOnePlaceholder(before: string, inner: string, after: string)
    requires NoAngle(before) && NoAngle(inner) && NoAngle(after)
    ensures Split(Angles, before + "<<" + inner + ">>" + after) == [before, "<<", inner, ">>", after]
  {
    var s := before + "<<" + inner + ">>" + after;
    var b, m := |before|, |before| + 2 + |inner|;
    assert s[0..b] == before && s[b..b + 2] == "<<";
    assert s[b + 2..m] == inner && s[m..m + 2] == ">>";
    assert s[m + 2..] == after;
    AngleCut(s, 0, before, "<<", b + 2);
    AngleCut(s, b + 2, inner, ">>", m + 2);
    AngleTail(s, m + 2, after);
    assert [before, "<<"] + ([inner, ">>"] + [after]) == [before, "<<", inner, ">>", after];
  }

  /** Text without angles followed by `<<` or `>>` is cut off as two parts. */
  lemma AngleCut(s: string, start: nat, text: string, delimiter: string, next: nat)
    requires delimiter == "<<" || delimiter == ">>"
    requires next == start + |text| + 2 <= |s| && NoAngle(text)
    requires s[start..start + |text|] == text && s[start + |text|..next] == delimiter
    ensures SplitFrom(Angles, s, start, start) == [text, delimiter] + SplitFrom(Angles, s, next, next)
  {
    var i := start + |text|;
    NoAngleNoMatch(s, start, text);
    assert s[i] == delimiter[0] && s[i + 1] == delimiter[1];
    assert MatchLength(Angles, s, i) == 2;
    SplitFromNext(Angles, s, start, i);
  }

  /** Text without angles at the end is the last part. */
  lemma AngleTail(s: string, start: nat, text: string)
    requires start <= |s| && s[start..] == text && NoAngle(text)
    ensures SplitFrom(Angles, s, start, start) == [text]
  {
    assert s[start..start + |text|] == text;
    NoAngleNoMatch(s, start, text);
    SplitFromLast(Angles, s, start);
  }

  /** AngleRuns over the five parts of a value with one placeholder, token by token. */
  lemma AngleRunsFive(before: string, inner: string, after: string)
    requires before != "<<" && inner != "<<" && inner != ">>" && after != "<<" && after != ">>"
    ensures AngleRuns([before, "<<", inner, ">>", after], None)
         == TokenRuns(before, None) + [ClassifiedTextRun(Operator, "<<")] + PlaceholderRuns(inner)
            + [ClassifiedTextRun(Operator, ">>")] + ParseLingoonaString(after)
  {
    var a, b, c := TokenRuns(before, None), [ClassifiedTextRun(Operator, "<<")], PlaceholderRuns(inner);
    var d, e := [ClassifiedTextRun(Operator, ">>")], ParseLingoonaString(after);
    var q0 := [before, "<<", inner, ">>", after];
    var q1, q2, q3, q4 := q0[1..], q0[2..], q0[3..], q0[4..];
    assert q1[1..] == q2 && q2[1..] == q3 && q3[1..] == q4 && q4[1..] == [];
    assert AngleRuns(q4, Some(">>")) == e + [];
    assert AngleRuns(q3, Some(inner)) == d + AngleRuns(q4, Some(">>"));
    assert AngleRuns(q2, Some("<<")) == c + AngleRuns(q3, Some(inner));
    assert AngleRuns(q1, Some(before)) == b + AngleRuns(q2, Some("<<"));
    assert AngleRuns(q0, None) == a + AngleRuns(q1, Some(before));
    Associate(a, b, c, d, e);
  }

  lemma Associate(a: seq<ClassifiedTextRun>, b: seq<ClassifiedTextRun>, c: seq<ClassifiedTextRun>, d: seq<ClassifiedTextRun>, e: seq<ClassifiedTextRun>)
    ensures a + (b + (c + (d + (e + [])))) == a + b + c + d + e
  {
    assert e + [] == e;
  }

  /** A value with one placeholder and plain text around it: the text, `<<`, the placeholder's runs, `>>`, the text. */
  lemma OnePlaceholder(before: string, inner: string, after: string)
    requires NoAngle(before) && NoAngle(inner) && NoAngle(after) && '^' !in before && '^' !in after
    ensures ParseLingoona(before + "<<" + inner + ">>" + after)
         == [ClassifiedTextRun(String, before), ClassifiedTextRun(Operator, "<<")] + PlaceholderRuns(inner)
            + [ClassifiedTextRun(Operator, ">>"), ClassifiedTextRun(String, after)]
  {
    SplitOnePlaceholder(before, inner, after);
    PlainString(before);
    PlainString(after);
    assert "<<"[0] == '<' && ">>"[0] == '>';
    AngleRunsFive(before, inner, after);
  }

  /** `before<<name>>after` with a non-numeric name: the name is shown as text between the two operators. */
  lemma NamedPlaceholder(before: string, name: string, after: string)
    requires NoAngle(before) && NoAngle(name) && NoAngle(after)
    requires '^' !in before && '^' !in name && '^' !in after && ':' !in name && !IsDecimal(name)
    ensures ParseLingoona(before + "<<" + name + ">>" + after)
         == [ClassifiedTextRun(String, before), ClassifiedTextRun(Operator, "<<"), ClassifiedTextRun(String, name),
             ClassifiedTextRun(Operator, ">>"), ClassifiedTextRun(String, after)]
  {
    OnePlaceholder(before, name, after);
    PlainString(name);
  }

  /** `before<<grammar:digits>>after`: the grammar tag is a keyword, then the `:` operator, then one Number run. */
  lemma NumberedPlaceholder(before: string, grammar: string, digits: string, after: string)
    requires NoAngle(before) && NoAngle(grammar) && NoAngle(after) && ':' !in grammar
    requires '^' !in before && '^' !in after && AllDigits(digits)
    ensures ParseLingoona(before + "<<" + grammar + ":" + digits + ">>" + after)
         == [ClassifiedTextRun(String, before), ClassifiedTextRun(Operator, "<<"), ClassifiedTextRun(Keyword, grammar),
             ClassifiedTextRun(Operator, ":"), ClassifiedTextRun(Number, digits), ClassifiedTextRun(Operator, ">>"),
             ClassifiedTextRun(String, after)]
  {
    var inner := grammar + ":" + digits;
    GrammarNumber(grammar, digits);
    var front := before + "<<";
    assert front + grammar + ":" + digits == front + inner;
    OnePlaceholder(before, inner, after);
    var head, tail := [ClassifiedTextRun(String, before), ClassifiedTextRun(Operator, "<<")],
                      [ClassifiedTextRun(Operator, ">>"), ClassifiedTextRun(String, after)];
    assert head + PlaceholderRuns(inner) + tail
        == head + [ClassifiedTextRun(Keyword, grammar), ClassifiedTextRun(Operator, ":"), ClassifiedTextRun(Number, digits)] + tail;
  }

  /** The placeholder `grammar:digits` is a grammar keyword, the `:` operator and a number. */
  lemma GrammarNumber(grammar: string, digits: string)
    requires NoAngle(grammar) && ':' !in grammar && AllDigits(digits)
    ensures NoAngle(grammar + ":" + digits)
    ensures PlaceholderRuns(grammar + ":" + digits)
         == [ClassifiedTextRun(Keyword, grammar), ClassifiedTextRun(Operator, ":"), ClassifiedTextRun(Number, digits)]
  {
    assert NoAngle(digits) by {
      forall x | 0 <= x < |digits| ensures digits[x] != '<' && digits[x] != '>' {
        assert IsAsciiDigit(digits[x]);
      }
    }
    SplitOnceAt(grammar, ':', digits);
  }

  /** The value `Hello, <<name>>!` as displayed. */
  lemma GreetingExample()
    ensures ParseLingoona("Hello, <<name>>!")
         == [ClassifiedTextRun(String, "Hello, "), ClassifiedTextRun(Operator, "<<"), ClassifiedTextRun(String, "name"),
             ClassifiedTextRun(Operator, ">>"), ClassifiedTextRun(String, "!")]
  {
    var before, name, after := "Hello, ", "name", "!";
    assert NoAngle(before) && '^' !in before;
    assert NoAngle(name) && '^' !in name && ':' !in name;
    assert NoAngle(after) && '^' !in after;
    assert !IsDecimal(name) by { assert !IsAsciiDigit(name[0]); }
    NamedPlaceholder(before, name, after);
    assert before + "<<" + name + ">>" + after == "Hello, <<name>>!";
  }
}
