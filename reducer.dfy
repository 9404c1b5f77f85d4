/**
 * Phrasebook.AddLocalizationKeys as a state machine over the located
 * tokens of one file: `{` pushes the pending block name, `}` pops, and a
 * `key = value` token is emitted as an entry only exactly two blocks deep
 * inside a root block named `Localization`. The machine's run is the
 * specification the imperative loop in the Index module is proved against.
 */
module Reducer {
  import opened Strings
  import opened Lexer
  import opened Phrases

  /** One `key = value` found in a file, with the language of its block. */
  datatype Entry = Entry(language: string, key: string, value: string, location: SourceLocation)

  /**
   * The loop's variables after some tokens: the pending block name, the
   * stack of open blocks, the entries emitted so far (in order), and whether
   * a `}` was met with no open block (where the source throws).
   */
  datatype Machine = Machine(name: string, stack: seq<string>, entries: seq<Entry>, failed: bool)

  /** Tokens are ignored deeper than two blocks, or outside a root block named `Localization`. */
  predicate Suppressed(stack: seq<string>) {
    |stack| > 2 || (|stack| >= 1 && stack[0] != "Localization")
  }

  /**
   * The entry for a token holding `=`: key and value are the trimmed text
   * before and after the first `=`; the value starts one column after the
   * untrimmed key, and the location ends at the token's last column.
   */
  function MakeEntry(language: string, t: LocatedToken, file: Path): Entry
    requires '=' in t.token
  {
    var (k, v) := SplitOnce(t.token, '=');
    Entry(language, Trim(k), Trim(v),
          SourceLocation(file, t.line, t.column + |k| + 1, t.column + |t.token|))
  }

  /** The stack after a token: `{` pushes the pending name, `}` pops, anything else leaves it. */
  function StackAfter(stack: seq<string>, name: string, token: string): seq<string>
    requires token == "}" ==> stack != []
  {
    if token == "{" then stack + [name]
    else if token == "}" then stack[..|stack| - 1]
    else stack
  }

  /** The entry a token holding `=` adds in an unsuppressed scope: one, exactly two blocks deep. */
  function Emitted(stack: seq<string>, t: LocatedToken, file: Path): seq<Entry>
    requires '=' in t.token
  {
    if |stack| == 2 then [MakeEntry(stack[1], t, file)] else []
  }

  /** One iteration of the loop, for a machine that has not failed. */
  function Step(m: Machine, t: LocatedToken, file: Path): Machine
    requires !m.failed
  {
    if t.token == "}" && m.stack == [] then Machine(m.name, m.stack, m.entries, true)
    else
      var stack := StackAfter(m.stack, m.name, t.token);
      var name := if t.token == "{" then "" else m.name;
      if Suppressed(stack) then Machine(name, stack, m.entries, false)
      else if '=' in t.token then Machine(name, stack, m.entries + Emitted(stack, t, file), false)
      else Machine(Trim(t.token), stack, m.entries, false)
  }

  /** The machine after the tokens, stopped at the first failure. */
  function Run(tokens: seq<LocatedToken>, file: Path): Machine {
    if tokens == [] then Machine("", [], [], false)
    else
      var m := Run(tokens[..|tokens| - 1], file);
      if m.failed then m else Step(m, tokens[|tokens| - 1], file)
  }

  /** Number of `{` tokens minus number of `}` tokens. */
  function Balance(tokens: seq<LocatedToken>): int {
    if tokens == [] then 0
    else
      var t := tokens[|tokens| - 1].token;
      Balance(tokens[..|tokens| - 1]) + (if t == "{" then 1 else if t == "}" then -1 else 0)
  }

  lemma RunSnoc(tokens: seq<LocatedToken>, t: LocatedToken, file: Path)
    ensures Run(tokens + [t], file) ==
      var m := Run(tokens, file); if m.failed then m else Step(m, t, file)
    ensures Balance(tokens + [t]) ==
      Balance(tokens) + (if t.token == "{" then 1 else if t.token == "}" then -1 else 0)
  {
    assert (tokens + [t])[..|tokens|] == tokens;
  }

  /**
   * The stack holds one name per open block: a run fails exactly when some
   * prefix of the tokens closes more blocks than it opens, and otherwise the
   * stack is as deep as the tokens' balance of braces.
   */
  lemma {:induction false} RunDepth(tokens: seq<LocatedToken>, file: Path)
    ensures !Run(tokens, file).failed ==> |Run(tokens, file).stack| == Balance(tokens)
    ensures !Run(tokens, file).failed <==> forall n :: 0 <= n <= |tokens| ==> Balance(tokens[..n]) >= 0
    decreases |tokens|
  {
    if tokens == [] {
      assert forall n :: 0 <= n <= 0 ==> tokens[..n] == [];
    } else {
      var init, t := tokens[..|tokens| - 1], tokens[|tokens| - 1];
      assert tokens == init + [t];
      RunDepth(init, file);
      RunSnoc(init, t, file);
      PrefixBalances(init, t);
      if !Run(init, file).failed {
        StepDepth(Run(init, file), t, file);
      }
    }
  }

  /** The prefixes of `init + [t]` are those of `init` and the whole. */
  lemma PrefixBalances(init: seq<LocatedToken>, t: LocatedToken)
    ensures (forall n :: 0 <= n <= |init| + 1 ==> Balance((init + [t])[..n]) >= 0)
      <==> (forall n :: 0 <= n <= |init| ==> Balance(init[..n]) >= 0) && Balance(init + [t]) >= 0
  {
    var tokens := init + [t];
    assert forall n :: 0 <= n <= |init| ==> tokens[..n] == init[..n];
    assert tokens[..|tokens|] == tokens;
  }

  /** One step fails exactly on a `}` with an empty stack, and otherwise moves the depth by the token's balance. */
  lemma StepDepth(m: Machine, t: LocatedToken, file: Path)
    requires !m.failed
    ensures Step(m, t, file).failed <==> t.token == "}" && m.stack == []
    ensures !Step(m, t, file).failed ==>
      |Step(m, t, file).stack| == |m.stack| + (if t.token == "{" then 1 else if t.token == "}" then -1 else 0)
  {
  }

  /** The trimmed texts of the tokens, in order. */
  function TrimmedTokens(tokens: seq<LocatedToken>): seq<string> {
    if tokens == [] then [] else TrimmedTokens(tokens[..|tokens| - 1]) + [Trim(tokens[|tokens| - 1].token)]
  }

  /** Every name a step pushes or keeps pending is the empty name, an earlier name, or the token's trimmed text. */
  lemma StepNames(m: Machine, t: LocatedToken, file: Path)
    requires !m.failed
    ensures var s := Step(m, t, file);
      (s.name == "" || s.name == m.name || s.name == Trim(t.token))
      && forall x :: x in s.stack ==> x in m.stack || x == m.name
  {
  }

  /** Block names come from the file: each pending or pushed name is empty or the trimmed text of some token. */
  lemma {:induction false} NamesFromTokens(tokens: seq<LocatedToken>, file: Path)
    ensures var m := Run(tokens, file);
      (m.name == "" || m.name in TrimmedTokens(tokens))
      && forall x :: x in m.stack ==> x == "" || x in TrimmedTokens(tokens)
    decreases |tokens|
  {
    if tokens != [] {
      var init, t := tokens[..|tokens| - 1], tokens[|tokens| - 1];
      assert tokens == init + [t];
      NamesFromTokens(init, file);
      RunSnoc(init, t, file);
      if !Run(init, file).failed {
        StepNames(Run(init, file), t, file);
      }
    }
  }

  lemma {:induction false} TrimmedTokensIndex(tokens: seq<LocatedToken>, s: string)
    requires s in TrimmedTokens(tokens)
    ensures exists i :: 0 <= i < |tokens| && s == Trim(tokens[i].token)
    decreases |tokens|
  {
    var init := tokens[..|tokens| - 1];
    if s in TrimmedTokens(init) {
      TrimmedTokensIndex(init, s);
      var i :| 0 <= i < |init| && s == Trim(init[i].token);
      assert tokens[i] == init[i];
    }
  }

  /** A file in which no token trims to `Localization` yields no entries. */
  lemma {:induction false} NoLocalizationNoEntries(tokens: seq<LocatedToken>, file: Path)
    requires forall i :: 0 <= i < |tokens| ==> Trim(tokens[i].token) != "Localization"
    ensures Run(tokens, file).entries == []
    decreases |tokens|
  {
    if tokens != [] {
      var init, t := tokens[..|tokens| - 1], tokens[|tokens| - 1];
      assert tokens == init + [t];
      NoLocalizationNoEntries(init, file);
      EntryStep(init, t, file);
      var m := Run(init, file);
      if !m.failed && |m.stack| >= 1 && m.stack[0] == "Localization" {
        NamesFromTokens(init, file);
        assert m.stack[0] in m.stack;
        TrimmedTokensIndex(init, "Localization");
      }
    }
  }

  /**
   * Scope: a token adds an entry exactly when it holds `=` and the open
   * blocks are `Localization` and one language block, whose name is the
   * entry's language; any other token adds none.
   */
  lemma EntryStep(tokens: seq<LocatedToken>, t: LocatedToken, file: Path)
    ensures var m := Run(tokens, file);
      var emits := !m.failed && '=' in t.token && |m.stack| == 2 && m.stack[0] == "Localization";
      Run(tokens + [t], file).entries ==
        m.entries + (if emits then [MakeEntry(m.stack[1], t, file)] else [])
  {
    RunSnoc(tokens, t, file);
    if '=' in t.token {
      assert t.token != "{" && t.token != "}" by {
        assert "{"[0] == '{' && "}"[0] == '}';
      }
    }
  }

  /**
   * Block names: a `{` right after an unsuppressed token without `=` opens a
   * block named by that token's trimmed text. Since the lexer puts the text
   * before a brace on the same line right before it, a block name written
   * alone on the line above its `{` is not the one pushed.
   */
  lemma BlockName(tokens: seq<LocatedToken>, t: LocatedToken, b: LocatedToken, file: Path)
    requires !Run(tokens, file).failed && !Suppressed(Run(tokens, file).stack)
    requires '=' !in t.token && t.token != "{" && t.token != "}" && b.token == "{"
    ensures !Run(tokens + [t, b], file).failed
    ensures Run(tokens + [t, b], file).stack == Run(tokens, file).stack + [Trim(t.token)]
  {
    RunSnoc(tokens, t, file);
    var m := Run(tokens, file);
    StepText(m, t, file);
    RunSnoc(tokens + [t], b, file);
    StepPush(Step(m, t, file), b, file);
    assert tokens + [t] + [b] == tokens + [t, b];
  }

  /** An unsuppressed text token without `=` becomes the pending name and changes nothing else. */
  lemma StepText(m: Machine, t: LocatedToken, file: Path)
    requires !m.failed && !Suppressed(m.stack)
    requires '=' !in t.token && t.token != "{" && t.token != "}"
    ensures Step(m, t, file) == Machine(Trim(t.token), m.stack, m.entries, false)
  {
  }

  /** A `{` pushes the pending name and clears it. */
  lemma StepPush(m: Machine, b: LocatedToken, file: Path)
    requires !m.failed && b.token == "{"
    ensures !Step(m, b, file).failed && Step(m, b, file).stack == m.stack + [m.name]
    ensures Step(m, b, file).name == "" || Step(m, b, file).name == "{"
  {
  }

  /** What every entry looks like: from this file, trimmed key without `=`, a trimmed value, columns in order. */
  lemma EntryShape(language: string, t: LocatedToken, file: Path)
    requires '=' in t.token
    ensures var e := MakeEntry(language, t, file);
      e.language == language && e.location.file == file && e.location.line == t.line
      && '=' !in e.key && Trim(e.key) == e.key && Trim(e.value) == e.value
      && t.column < e.location.firstColumn <= e.location.lastColumn
  {
    var (k, v) := SplitOnce(t.token, '=');
    TrimIdempotent(k);
    TrimIdempotent(v);
    TrimSpec(k);
    var a, b :| 0 <= a <= b <= |k| && Trim(k) == k[a..b];
    forall i | 0 <= i < |Trim(k)| ensures Trim(k)[i] != '=' {
      assert Trim(k)[i] == k[a + i];
    }
  }

  /** Every entry of a run comes from this file and has the shape of EntryShape. */
  lemma {:induction false} RunEntries(tokens: seq<LocatedToken>, file: Path)
    ensures forall e :: e in Run(tokens, file).entries ==>
      e.location.file == file && '=' !in e.key && e.location.firstColumn <= e.location.lastColumn
    decreases |tokens|
  {
    if tokens != [] {
      var init, t := tokens[..|tokens| - 1], tokens[|tokens| - 1];
      assert tokens == init + [t];
      RunEntries(init, file);
      EntryStep(init, t, file);
      var m := Run(init, file);
      if !m.failed && '=' in t.token && |m.stack| == 2 && m.stack[0] == "Localization" {
        EntryShape(m.stack[1], t, file);
      }
    }
  }

  /**
   * A `{` whose line holds only white space before it (as when a block name
   * stands alone on the line above) opens a block with the empty name.
   */
  lemma UnnamedBlock(tokens: seq<LocatedToken>, t: LocatedToken, b: LocatedToken, file: Path)
    requires !Run(tokens, file).failed && !Suppressed(Run(tokens, file).stack)
    requires forall i :: 0 <= i < |t.token| ==> IsWhiteSpace(t.token[i])
    requires b.token == "{"
    ensures Run(tokens + [t, b], file).stack == Run(tokens, file).stack + [""]
  {
    assert '=' !in t.token && t.token != "{" && t.token != "}";
    BlockName(tokens, t, b, file);
    TrimStartSpec(t.token);
    assert TrimStart(t.token) == "";
  }
}
