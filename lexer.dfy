/**
 * Phrasebook.LexNodes: the lines of a ConfigNode file cut into located
 * tokens. Everything from the first `//` of a line on is a comment; the
 * rest is split around each `{` and `}`, and every part (also the empty
 * ones between adjacent braces) becomes a token that carries its 1-based
 * line number and the 1-based column where it starts.
 */
module Lexer {
  import opened Strings
  import opened RegexSplit

  datatype LocatedToken = LocatedToken(line: int, column: int, token: string)

  /** line.Split("//", 2)[0]: the line up to its first `//`. */
  function StripComment(line: string): (r: string)
    ensures |r| <= |line| && r == line[..|r|]
    ensures forall j :: !OccursAt(r, "//", j)
    ensures r == line <==> forall j :: !OccursAt(line, "//", j)
    ensures r == line || (OccursAt(line, "//", |r|) && forall j :: 0 <= j < |r| ==> !OccursAt(line, "//", j))
  {
    var j := IndexOf(line, "//", 0);
    if j == -1 then line
    else
      var r := line[..j];
      assert forall i :: OccursAt(r, "//", i) ==> OccursAt(line, "//", i) by {
        forall i | OccursAt(r, "//", i) ensures OccursAt(line, "//", i) {
          assert line[i..i + 2] == r[i..i + 2];
        }
      }
      r
  }

  /** The tokens of one line, numbered `line`, from its parts; each starts where the parts before it end. */
  function LineTokens(parts: seq<string>, line: int): seq<LocatedToken> {
    seq(|parts|, k requires 0 <= k < |parts| => LocatedToken(line, 1 + |Concat(parts[..k])|, parts[k]))
  }

  /** The parts of a line: the text around and between its braces, outside its comment. */
  function LineParts(text: string): seq<string> {
    Split(Braces, StripComment(text))
  }

  /** The tokens of the lines, numbered from 1, in order. */
  function Lex(lines: seq<string>): seq<LocatedToken> {
    if lines == [] then []
    else Lex(lines[..|lines| - 1]) + LineTokens(LineParts(lines[|lines| - 1]), |lines|)
  }

  lemma LineTokensSnoc(parts: seq<string>, k: nat, line: int)
    requires k < |parts|
    ensures LineTokens(parts[..k + 1], line)
      == LineTokens(parts[..k], line) + [LocatedToken(line, 1 + |Concat(parts[..k])|, parts[k])]
  {
    var prefix := parts[..k + 1];
    var lhs := LineTokens(prefix, line);
    var rhs := LineTokens(parts[..k], line) + [LocatedToken(line, 1 + |Concat(parts[..k])|, parts[k])];
    assert |lhs| == |rhs|;
    forall i | 0 <= i < k + 1 ensures lhs[i] == rhs[i] {
      assert prefix[..i] == parts[..i];
      if i < k {
        assert parts[..k][..i] == parts[..i];
      }
    }
  }

  /** Phrasebook.LexNodes, scanning line by line and part by part. */
  method LexNodes(lines: seq<string>) returns (tokens: seq<LocatedToken>)
    ensures tokens == Lex(lines)
  {
    tokens := [];
    var lineNumber := 0;
    while lineNumber < |lines|
      invariant 0 <= lineNumber <= |lines|
      invariant tokens == Lex(lines[..lineNumber])
    {
      var line := lines[lineNumber];
      lineNumber := lineNumber + 1;
      var noComment := StripComment(line);
      var parts := Split(Braces, noComment);
      var column := 1;
      var k := 0;
      ghost var before := tokens;
      while k < |parts|
        invariant 0 <= k <= |parts|
        invariant column == 1 + |Concat(parts[..k])|
        invariant tokens == before + LineTokens(parts[..k], lineNumber)
      {
        LineTokensSnoc(parts, k, lineNumber);
        assert parts[..k + 1][..k] == parts[..k];
        tokens := tokens + [LocatedToken(lineNumber, column, parts[k])];
        column := column + |parts[k]|;
        k := k + 1;
      }
      assert parts[..k] == parts;
      assert lines[..lineNumber][..lineNumber - 1] == lines[..lineNumber - 1];
    }
    assert lines[..lineNumber] == lines;
  }

  /**
   * Each token of a line stands in the line at its column, and the tokens
   * spell the line up to its comment.
   */
  lemma LineTokensInLine(text: string, line: int)
    ensures var tokens := LineTokens(LineParts(text), line);
      |tokens| >= 1
      && (forall k :: 0 <= k < |tokens| ==>
            tokens[k].line == line && OccursAt(text, tokens[k].token, tokens[k].column - 1))
      && Concat(LineParts(text)) == StripComment(text)
  {
    var parts := LineParts(text);
    var stripped := StripComment(text);
    SplitFromConcat(Braces, stripped, 0, 0);
    var tokens := LineTokens(parts, line);
    forall k | 0 <= k < |tokens|
      ensures OccursAt(text, tokens[k].token, tokens[k].column - 1)
    {
      ConcatPartOccurs(parts, k);
      var j := |Concat(parts[..k])|;
      assert stripped[j..j + |parts[k]|] == text[j..j + |parts[k]|];
    }
  }

  /** The tokens carry line numbers from 1 to `n`, in non-decreasing order. */
  predicate NumberedUpTo(tokens: seq<LocatedToken>, n: int) {
    (forall k :: 0 <= k < |tokens| ==> 1 <= tokens[k].line <= n)
    && (forall j, k :: 0 <= j < k < |tokens| ==> tokens[j].line <= tokens[k].line)
  }

  /** Every token carries the number of a line it came from, and the numbers never decrease. */
  lemma {:induction false} LexLineNumbers(lines: seq<string>)
    ensures forall k :: 0 <= k < |Lex(lines)| ==> 1 <= Lex(lines)[k].line <= |lines|
    ensures forall j, k :: 0 <= j < k < |Lex(lines)| ==> Lex(lines)[j].line <= Lex(lines)[k].line
    decreases |lines|
  {
    if lines != [] {
      var init := lines[..|lines| - 1];
      LexLineNumbers(init);
      var a, b := Lex(init), LineTokens(LineParts(lines[|lines| - 1]), |lines|);
      assert Lex(lines) == a + b;
      assert NumberedUpTo(a, |lines| - 1);
      AppendLine(a, b, |lines|);
      assert NumberedUpTo(Lex(lines), |lines|);
    }
  }

  /** Appending the tokens of line `n` to tokens numbered below `n` keeps the numbering in order. */
  lemma AppendLine(a: seq<LocatedToken>, b: seq<LocatedToken>, n: int)
    requires NumberedUpTo(a, n - 1) && 1 <= n
    requires forall k :: 0 <= k < |b| ==> b[k].line == n
    ensures NumberedUpTo(a + b, n)
  {
    var tokens := a + b;
    forall k | 0 <= k < |tokens| ensures 1 <= tokens[k].line <= n {
      if k >= |a| {
        assert tokens[k] == b[k - |a|];
      } else {
        assert tokens[k] == a[k];
      }
    }
    forall j, k | 0 <= j < k < |tokens| ensures tokens[j].line <= tokens[k].line {
      if k >= |a| {
        assert tokens[k] == b[k - |a|];
        if j >= |a| {
          assert tokens[j] == b[j - |a|];
        } else {
          assert tokens[j] == a[j];
        }
      } else {
        assert tokens[j] == a[j] && tokens[k] == a[k];
      }
    }
  }

  /** Lexing more lines only appends tokens: the tokens of the first lines are unchanged. */
  lemma {:induction false} LexPrefix(lines: seq<string>, n: nat)
    requires n <= |lines|
    ensures Lex(lines[..n]) <= Lex(lines)
    decreases |lines|
  {
    if n < |lines| {
      var init := lines[..|lines| - 1];
      LexPrefix(init, n);
      assert init[..n] == lines[..n];
    } else {
      assert lines[..n] == lines;
    }
  }

  /** A line without `/` has no comment. */
  lemma NoSlashNoComment(line: string)
    requires '/' !in line
    ensures StripComment(line) == line
  {
    forall j ensures !OccursAt(line, "//", j) {
      if 0 <= j && j + 2 <= |line| {
        assert line[j..j + 2][0] == line[j] != '/';
      }
    }
  }

  /** The parts of `a {`: the text before the brace, the brace, and the empty rest. */
  lemma OpeningLineParts()
    ensures LineParts("a {") == ["a ", "{", ""]
  {
    var l := "a {";
    assert '/' !in l;
    NoSlashNoComment(l);
    assert MatchLength(Braces, l, 0) == 0 && MatchLength(Braces, l, 1) == 0 && MatchLength(Braces, l, 2) == 1;
    SplitFromNext(Braces, l, 0, 2);
    assert l[3..] == "";
    assert l[0..2] == "a " && l[2..3] == "{";
  }

  /** The parts of `}`: empty text, the brace, empty text. */
  lemma ClosingLineParts()
    ensures LineParts("}") == ["", "}", ""]
  {
    var l := "}";
    assert '/' !in l;
    NoSlashNoComment(l);
    assert MatchLength(Braces, l, 0) == 1;
    SplitFromNext(Braces, l, 0, 0);
    assert l[1..] == "";
    assert l[0..0] == "" && l[0..1] == "}";
  }

  /** The tokens of a line of three parts: each starts where the parts before it end. */
  lemma ThreeTokens(x: string, y: string, z: string, line: int)
    ensures LineTokens([x, y, z], line)
      == [LocatedToken(line, 1, x), LocatedToken(line, 1 + |x|, y), LocatedToken(line, 1 + |x| + |y|, z)]
  {
    var parts := [x, y, z];
    assert parts[..0] == [];
    assert parts[..1][..0] == [] && parts[..1] == [x];
    assert parts[..2][..1] == [x] && parts[..2] == [x, y];
    assert Concat(parts[..1]) == x;
    assert Concat(parts[..2]) == x + y;
  }

  /** The tokens of `Lex` for `{` on one line and `}` on the next, as the columns count them. */
  lemma EmptyBlockExample()
    ensures Lex(["a {", "}"]) == [
      LocatedToken(1, 1, "a "), LocatedToken(1, 3, "{"), LocatedToken(1, 4, ""),
      LocatedToken(2, 1, ""), LocatedToken(2, 1, "}"), LocatedToken(2, 2, "")]
  {
    OpeningLineParts();
    ClosingLineParts();
    ThreeTokens("a ", "{", "", 1);
    ThreeTokens("", "}", "", 2);
    var two := ["a {", "}"];
    assert two[..1] == ["a {"] && two[..1][..0] == [];
    assert Lex(two[..1]) == LineTokens(["a ", "{", ""], 1);
  }
}
