/**
 * The phrasebook's data: where a localized string was found, one language's
 * version of a phrase, and the phrase itself; how a raw key is read into a
 * phrase name, an optional parameter list and the "optional" flag; and the
 * prefix a version is displayed with.
 */
module Phrases {
  import opened Strings
  import opened Markup

  /** A file or directory path, as its segments from the root down. */
  type Path = seq<string>

  /** Where a `key = value` was found: 1-based line, and the columns of the value's start and the token's end. */
  datatype SourceLocation = SourceLocation(file: Path, line: int, firstColumn: int, lastColumn: int)

  /** One language's rendering of a phrase. */
  datatype Version = Version(
    language: string,
    parameters: Option<seq<string>>,
    optional: bool,
    runs: seq<ClassifiedTextRun>,
    location: SourceLocation)

  /** A phrase: its versions in the order they were found. */
  datatype Phrase = Phrase(versions: seq<Version>)

  /**
   * Regex.Match(s, @"^([^(]*)\(([^)]*)\)$"): the text before the first `(`
   * and the text between it and the first `)` after it, provided that `)`
   * ends the string (or is followed only by a final '\n', where `$` also matches).
   */
  function ParamMatch(s: string): Option<(string, string)> {
    if '(' !in s then None
    else
      var p := FirstIndex(s, '(');
      var rest := s[p + 1..];
      if ')' !in rest then None
      else
        var q := FirstIndex(rest, ')');
        var tail := rest[q + 1..];
        if tail == "" || tail == "\n" then Some((s[..p], rest[..q])) else None
  }

  /** A string of the shape `name(inner)`, with an optional final '\n', is matched as such. */
  lemma ParamMatchComplete(name: string, inner: string, t: string)
    requires '(' !in name && ')' !in inner && (t == "" || t == "\n")
    ensures ParamMatch(name + "(" + inner + ")" + t) == Some((name, inner))
  {
    var s := name + "(" + inner + ")" + t;
    assert s == name + ['('] + (inner + [')'] + t);
    SplitOnceAt(name, '(', inner + [')'] + t);
    var rest := s[|name| + 1..];
    assert rest == inner + [')'] + t;
    SplitOnceAt(inner, ')', t);
  }

  /** A string cut around a `(` and, after it, a `)`. */
  lemma Reassemble(s: string, p: nat, q: nat)
    requires p < |s| && s[p] == '(' && q < |s[p + 1..]| && s[p + 1..][q] == ')'
    ensures s == s[..p] + "(" + s[p + 1..][..q] + ")" + s[p + 1..][q + 1..]
  {
    var rest := s[p + 1..];
    assert rest == rest[..q] + ")" + rest[q + 1..];
    assert s == s[..p] + "(" + rest;
  }

  /** Whatever is matched has the shape `name(inner)`, with an optional final '\n'. */
  lemma ParamMatchSound(s: string)
    requires ParamMatch(s).Some?
    ensures '(' !in ParamMatch(s).value.0 && ')' !in ParamMatch(s).value.1
    ensures var name := ParamMatch(s).value.0; var inner := ParamMatch(s).value.1;
      s == name + "(" + inner + ")" || s == name + "(" + inner + ")\n"
  {
    var p := FirstIndex(s, '(');
    var rest := s[p + 1..];
    var q := FirstIndex(rest, ')');
    Reassemble(s, p, q);
    var tail := rest[q + 1..];
    if tail == "" {
      assert s == s[..p] + "(" + rest[..q] + ")";
    } else {
      assert s == s[..p] + "(" + rest[..q] + ")\n";
    }
  }

  /** The pattern matches exactly the strings `name(inner)` (optionally followed by '\n') with no `(` in name and no `)` in inner. */
  lemma ParamMatchIff(s: string, name: string, inner: string)
    ensures ParamMatch(s) == Some((name, inner)) <==>
      ('(' !in name && ')' !in inner
       && (s == name + "(" + inner + ")" || s == name + "(" + inner + ")\n"))
  {
    if ParamMatch(s) == Some((name, inner)) {
      ParamMatchSound(s);
    }
    if '(' !in name && ')' !in inner {
      if s == name + "(" + inner + ")" {
        ParamMatchComplete(name, inner, "");
        assert s == name + "(" + inner + ")" + "";
      } else if s == name + "(" + inner + ")\n" {
        ParamMatchComplete(name, inner, "\n");
        assert s == name + "(" + inner + ")" + "\n";
      }
    }
  }

  /** A raw key read as a phrase name, its parameters and whether it is optional. */
  datatype Key = Key(name: string, parameters: Option<seq<string>>, optional: bool)

  /** The name and parameter list of an optional key's stem: `name(p1,...,pn)` or the whole stem. */
  function ParseStem(stem: string): (string, Option<seq<string>>) {
    match ParamMatch(stem)
    case Some((name, inner)) => (name, Some(SplitAll(inner, ',')))
    case None => (stem, None)
  }

  /**
   * Phrasebook.Add's reading of a key: a key ending in `.` and the language
   * is optional; only then is the suffix dropped and a parameter list
   * `name(p1,p2,...)` looked for.
   */
  function ParseKey(key: string, language: string): Key {
    var suffix := "." + language;
    if EndsWith(key, suffix) then
      var (name, parameters) := ParseStem(key[..|key| - |suffix|]);
      Key(name, parameters, true)
    else Key(key, None, false)
  }

  /**
   * A key is optional exactly when it ends in `.` and the language; a key
   * that is not optional is its own name, without parameters; parameters
   * never hold a `,`, and there is at least one when there is a list. An
   * optional key has a parameter list exactly when its stem has the shape
   * `name(inner)`, and the list then joins back to `inner`; otherwise the
   * whole stem is the name.
   */
  lemma ParseKeyCases(key: string, language: string)
    ensures var k := ParseKey(key, language);
      (k.optional <==> EndsWith(key, "." + language))
      && (!k.optional ==> k.name == key && k.parameters == None)
      && (k.parameters.Some? ==>
            (k.optional && '(' !in k.name && |k.parameters.value| >= 1
             && forall i :: 0 <= i < |k.parameters.value| ==> ',' !in k.parameters.value[i]))
    ensures var k := ParseKey(key, language); var n := |language| + 1;
      k.optional ==>
        |key| >= n
        && (k.parameters.Some? <==> ParamMatch(key[..|key| - n]).Some?)
        && (k.parameters.None? ==> k.name == key[..|key| - n])
        && (k.parameters.Some? ==>
              k.name == ParamMatch(key[..|key| - n]).value.0
              && Join(k.parameters.value, ',') == ParamMatch(key[..|key| - n]).value.1)
  {
    var suffix := "." + language;
    if EndsWith(key, suffix) {
      var stem := key[..|key| - |suffix|];
      if ParamMatch(stem).Some? {
        ParamMatchSound(stem);
      }
      assert ParseKey(key, language) == Key(ParseStem(stem).0, ParseStem(stem).1, true);
      OptionalKeyParameters(key, language);
    }
  }

  /** The optional-key half of ParseKeyCases; the stem is the key without `.` and the language. */
  lemma OptionalKeyParameters(key: string, language: string)
    ensures var k := ParseKey(key, language); var n := |language| + 1;
      k.optional ==>
        |key| >= n
        && (k.parameters.Some? <==> ParamMatch(key[..|key| - n]).Some?)
        && (k.parameters.None? ==> k.name == key[..|key| - n])
        && (k.parameters.Some? ==>
              k.name == ParamMatch(key[..|key| - n]).value.0
              && Join(k.parameters.value, ',') == ParamMatch(key[..|key| - n]).value.1)
  {
    var suffix := "." + language;
    if EndsWith(key, suffix) {
      var stem := key[..|key| - |suffix|];
      assert |suffix| == |language| + 1;
      var k := ParseKey(key, language);
      assert k == Key(ParseStem(stem).0, ParseStem(stem).1, true);
      if ParamMatch(stem).Some? {
        JoinSplitAll(ParamMatch(stem).value.1, ',');
      }
    }
  }

  /** The parameter names, separated by `,` runs. */
  function ParameterRuns(parameters: seq<string>): seq<ClassifiedTextRun> {
    if parameters == [] then []
    else if |parameters| == 1 then [ClassifiedTextRun(String, parameters[0])]
    else [ClassifiedTextRun(String, parameters[0]), ClassifiedTextRun(Punctuation, ",")] + ParameterRuns(parameters[1..])
  }

  /** The parameter list in parentheses, or nothing when there is none. */
  function ParameterListRuns(parameters: Option<seq<string>>): seq<ClassifiedTextRun> {
    match parameters
    case Some(ps) => [ClassifiedTextRun(Punctuation, "(")] + ParameterRuns(ps) + [ClassifiedTextRun(Punctuation, ")")]
    case None => []
  }

  /**
   * Version.Prefix: the parameter list in parentheses (if any), a `.` if the
   * version is optional, the language (the run that navigates to the
   * source), then `: `.
   */
  function Prefix(v: Version): seq<ClassifiedTextRun> {
    ParameterListRuns(v.parameters)
    + (if v.optional then [ClassifiedTextRun(Operator, ".")] else [])
    + [ClassifiedTextRun(Text, v.language), ClassifiedTextRun(Text, ": ")]
  }

  lemma RenderOne(r: ClassifiedTextRun)
    ensures Render([r]) == r.text
  {
    assert [r][1..] == [];
  }

  lemma {:induction false} ParameterRunsText(parameters: seq<string>)
    ensures Render(ParameterRuns(parameters)) == Join(parameters, ',')
    decreases |parameters|
  {
    if |parameters| > 1 {
      var head := [ClassifiedTextRun(String, parameters[0]), ClassifiedTextRun(Punctuation, ",")];
      ParameterRunsText(parameters[1..]);
      RenderAppend(head, ParameterRuns(parameters[1..]));
    }
  }

  lemma ParameterListText(parameters: Option<seq<string>>)
    ensures Render(ParameterListRuns(parameters)) == ParameterText(parameters)
  {
    if parameters.Some? {
      var ps := parameters.value;
      var open := [ClassifiedTextRun(Punctuation, "(")];
      ParameterRunsText(ps);
      RenderAppend(open + ParameterRuns(ps), [ClassifiedTextRun(Punctuation, ")")]);
      RenderAppend(open, ParameterRuns(ps));
      RenderOne(ClassifiedTextRun(Punctuation, "("));
      RenderOne(ClassifiedTextRun(Punctuation, ")"));
    }
  }

  /** The text of the prefix: `(p1,...,pn)` if there are parameters, `.` if optional, the language, `: `. */
  lemma PrefixText(v: Version)
    ensures Render(Prefix(v)) == ParameterText(v.parameters) + (if v.optional then "." else "") + v.language + ": "
  {
    var params := ParameterListRuns(v.parameters);
    var dot: seq<ClassifiedTextRun> := if v.optional then [ClassifiedTextRun(Operator, ".")] else [];
    var tail := [ClassifiedTextRun(Text, v.language), ClassifiedTextRun(Text, ": ")];
    RenderAppend(params + dot, tail);
    RenderAppend(params, dot);
    ParameterListText(v.parameters);
    DotText(v.optional);
    LanguageText(v.language);
  }

  lemma DotText(optional: bool)
    ensures Render(if optional then [ClassifiedTextRun(Operator, ".")] else []) == if optional then "." else ""
  {
    RenderOne(ClassifiedTextRun(Operator, "."));
  }

  lemma LanguageText(language: string)
    ensures Render([ClassifiedTextRun(Text, language), ClassifiedTextRun(Text, ": ")]) == language + ": "
  {
    var tail := [ClassifiedTextRun(Text, language), ClassifiedTextRun(Text, ": ")];
    assert tail == [ClassifiedTextRun(Text, language)] + [ClassifiedTextRun(Text, ": ")];
    RenderAppend([ClassifiedTextRun(Text, language)], [ClassifiedTextRun(Text, ": ")]);
    RenderOne(ClassifiedTextRun(Text, language));
    RenderOne(ClassifiedTextRun(Text, ": "));
  }

  /**
   * For an optional key (with no line break in it), the phrase name
   * followed by the prefix text of its version spells the original key
   * followed by `: `.
   */
  lemma PrefixRestoresKey(key: string, language: string, runs: seq<ClassifiedTextRun>, location: SourceLocation)
    requires EndsWith(key, "." + language) && '\n' !in key
    ensures var k := ParseKey(key, language);
      k.name + Render(Prefix(Version(language, k.parameters, k.optional, runs, location))) == key + ": "
  {
    var stem := key[..|key| - |language| - 1];
    OptionalKeyStem(key, language);
    StemSpelled(stem);
    SpelledPrefix(ParseStem(stem).0, ParseStem(stem).1, stem, language, runs, location);
    assert key + ": " == stem + ("." + language + ": ");
  }

  /** A name followed by the parameter text that spells a stem, then an optional prefix, spells the stem and the suffix. */
  lemma SpelledPrefix(name: string, params: Option<seq<string>>, stem: string, language: string, runs: seq<ClassifiedTextRun>, location: SourceLocation)
    requires name + ParameterText(params) == stem
    ensures name + Render(Prefix(Version(language, params, true, runs, location))) == stem + ("." + language + ": ")
  {
    OptionalPrefixText(Version(language, params, true, runs, location));
    var tail := "." + language + ": ";
    assert name + (ParameterText(params) + tail) == (name + ParameterText(params)) + tail;
  }

  lemma OptionalPrefixText(v: Version)
    requires v.optional
    ensures Render(Prefix(v)) == ParameterText(v.parameters) + ("." + v.language + ": ")
  {
    PrefixText(v);
  }

  /** An optional key is its stem followed by `.` and the language, and is read from that stem. */
  lemma OptionalKeyStem(key: string, language: string)
    requires EndsWith(key, "." + language) && '\n' !in key
    ensures var stem := key[..|key| - |language| - 1];
      key == stem + ("." + language) && '\n' !in stem
      && ParseKey(key, language) == Key(ParseStem(stem).0, ParseStem(stem).1, true)
  {
    var stem := key[..|key| - |language| - 1];
    assert key == stem + ("." + language);
    forall i | 0 <= i < |stem| ensures stem[i] != '\n' {
      assert stem[i] == key[i];
    }
  }

  /** The text of a parameter list, `(p1,...,pn)`, or nothing. */
  function ParameterText(parameters: Option<seq<string>>): string {
    if parameters.Some? then "(" + Join(parameters.value, ',') + ")" else ""
  }

  /** A stem without a line break is spelt back by its name and its re-joined parameter list. */
  lemma StemSpelled(stem: string)
    requires '\n' !in stem
    ensures ParseStem(stem).0 + ParameterText(ParseStem(stem).1) == stem
  {
    if ParamMatch(stem).Some? {
      var (name, inner) := ParamMatch(stem).value;
      ParamMatchSound(stem);
      JoinSplitAll(inner, ',');
      assert ParseStem(stem) == (name, Some(SplitAll(inner, ',')));
    }
  }

  /** A key that is not optional names its phrase verbatim, and its prefix is just the language and `: `. */
  lemma PlainKeyPrefix(key: string, language: string, runs: seq<ClassifiedTextRun>, location: SourceLocation)
    requires !EndsWith(key, "." + language)
    ensures var k := ParseKey(key, language);
      k.name == key && Render(Prefix(Version(language, k.parameters, k.optional, runs, location))) == language + ": "
  {
    var k := ParseKey(key, language);
    PrefixText(Version(language, k.parameters, k.optional, runs, location));
  }

  /** The key `Farewell(name).en-us` in language `en-us`. */
  lemma FarewellExample()
    ensures ParseKey("Farewell(name).en-us", "en-us") == Key("Farewell", Some(["name"]), true)
  {
    var key := "Farewell(name).en-us";
    assert EndsWith(key, "." + "en-us");
    var stem := key[..|key| - 6];
    assert stem == "Farewell" + "(" + "name" + ")" + "";
    ParamMatchComplete("Farewell", "name", "");
    assert SplitAll("name", ',') == ["name"];
  }
}
