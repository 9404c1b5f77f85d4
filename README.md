# Localization phrasebook of the KSP modding annotations

This project models, in Dafny, the localization "phrasebook" of the
Visual Studio extension in `eggrobin/ksp-modding-annotations`, and proves
properties of the model. The phrasebook reads the `Localization { <language> {
key = value } }` blocks of Kerbal Space Program ConfigNode (`.cfg`) files and
keeps a dictionary from phrase names to phrases. Each phrase has one version
per `key = value` found. An editor hover uses the dictionary to show every
version of the phrase under the mouse. Files are re-read when they change on
disk.

Modules, from the bottom up:

- `Strings` (strings.dfy): the .NET string operations the code uses, all
  with ordinal comparison. These are `Trim` with the full `Char.IsWhiteSpace`
  set, `EndsWith`, `IndexOf`, `Split(c, 2)`, `Split(c)` and `Join`.
- `RegexSplit` (regex_split.dfy): `Regex.Split` for the three patterns with
  one capture group. These are the braces `({|})`, the placeholder angles
  `(<<|>>)` and the case markers `(\^[PpFfMmNn][^ ]*)`. `Regex.IsMatch(s, @"^\d+$")`
  is here too.
- `Markup` (markup.dfy): `ParseLingoona` and `ParseLingoonaString`. They
  classify a localized value into text runs, and the runs always spell the
  value.
- `Phrases` (phrases.dfy): `SourceLocation`, `Version` and `Phrase`. It also
  holds the reading of a key into a phrase name, parameters and the
  "optional" flag (`Phrasebook.Add`), and the prefix a version is displayed
  with (`Version.Prefix`).
- `Lexer` (lexer.dfy): `LexNodes` as a loop, proved against the function
  `Lex`.
- `Reducer` (reducer.dfy): the state machine that `AddLocalizationKeys`
  runs over the tokens. It is written as a function `Run` and is the
  specification of the imperative loop.
- `PhrasebookIndex` (phrasebook.dfy): snapshot functions for `AddFile`,
  `RefreshFile` and `RefreshRenamedFile`, with their invariants. It also
  holds the class `Phrasebook`, whose methods perform the operations in
  place and are proved to have exactly the snapshot functions' effects.
- `QuickInfo` (quick_info.dfy): `L10NQuickInfoSource`. This covers the
  hover lookup, the constructor's loading of the solution's `.cfg` files,
  and the shared count of live sources.

Paths are sequences of segments from the root, so a directory is an
ancestor of another exactly when it is a prefix of it. Reading a file is a
lookup in a `disk` map from paths to lines; a path missing from the map
cannot be opened. Dictionary enumeration order, which .NET leaves
unspecified, is a `keys` parameter of the hover lookup.

## Model

| member | source | states |
|---|---|---|
| Strings.TrimSpec | l10n/phrasebook.cs:242-243 | Trim returns an infix of its input; only white space lies before and after it, and it neither starts nor ends with white space |
| Strings.TrimIdempotent | l10n/phrasebook.cs:242-243 | trimming a trimmed key or value changes nothing |
| Strings.IndexOf | l10n/l10n_quick_info_source.cs:52-55 | the result is -1 or an occurrence at or after `from`, and no occurrence starts between `from` and the result (none at all when -1) |
| Strings.SplitOnce | l10n/phrasebook.cs:241 | the token is the part before the first `=`, the `=`, and the rest; the first part holds no `=` |
| Strings.SplitOnceAt | l10n/phrasebook.cs:241 | a text with no `=` followed by `=` and anything is split into exactly those two parts |
| Strings.SplitAll | l10n/phrasebook.cs:273 | Split(',') gives at least one part and no part holds a `,` |
| Strings.JoinSplitAll | l10n/phrasebook.cs:273 | joining the parameters with `,` gives back the text that was split |
| RegexSplit.NonSpaceRun | l10n/phrasebook.cs:331 | `[^ ]*` takes the maximal run without a space: it stops at a space or at the end |
| RegexSplit.MatchIsDelimiter | l10n/phrasebook.cs:212 | every piece the scan cuts out is a match of the pattern (a brace, `<<`/`>>`, or `^` + marker letter + non-space run) |
| RegexSplit.SplitShape | l10n/phrasebook.cs:212 | Regex.Split with a capture group gives an odd number of parts that concatenate to the input, alternating text with no match and a match, starting and ending with (possibly empty) text; the matching is leftmost and greedy: each text part runs from its offset up to the first position where the pattern matches (or to the end), and the part after it is the whole match at that position |
| RegexSplit.SplitNoMatch | l10n/phrasebook.cs:288 | text in which the pattern never matches is one part |
| Markup.MarkerRunsRender | l10n/phrasebook.cs:331-344 | the runs for the alternating parts spell the parts' concatenation: the `^` operator and the keyword together spell the marker |
| Markup.ParseLingoonaStringRoundTrip | l10n/phrasebook.cs:329-345 | the runs of ParseLingoonaString spell its input |
| Markup.ParseLingoonaStringShape | l10n/phrasebook.cs:329-345 | the runs start and end with a String run; String runs hold no marker; every `^` operator is followed by a keyword holding a marker letter and no space; every keyword follows an operator |
| Markup.PlainString | l10n/phrasebook.cs:329-345 | text without `^` is a single String run |
| Markup.ParseLingoonaRoundTrip | l10n/phrasebook.cs:286-327 | the runs of ParseLingoona spell the value exactly |
| Markup.NoOpenerNoPlaceholder | l10n/phrasebook.cs:297-319 | a value in which `<<` never occurs yields no Number run and no operator other than `^` and `>>` |
| Markup.SplitOnePlaceholder | l10n/phrasebook.cs:288 | `before<<inner>>after`, with no angle bracket in the three texts, splits into those five parts |
| Markup.OnePlaceholder | l10n/phrasebook.cs:288-327 | such a value is a String run, the `<<` operator, the placeholder's runs, the `>>` operator and a String run |
| Markup.NamedPlaceholder | l10n/phrasebook.cs:297-319 | a non-numeric placeholder name without grammar tag or marker is shown as one String run between the two operators |
| Markup.NumberedPlaceholder | l10n/phrasebook.cs:299-314 | `grammar:digits` is shown as a Keyword run, the `:` operator and one Number run |
| Markup.GreetingExample | l10n/phrasebook.cs:286-327 | `Hello, <<name>>!` is classified as String, `<<`, String `name`, `>>`, String |
| Phrases.ParamMatchSound | l10n/phrasebook.cs:270-272 | what `^([^(]*)\(([^)]*)\)$` matches is `name(inner)`, with an optional final line break, with no `(` in name and no `)` in inner |
| Phrases.ParamMatchComplete | l10n/phrasebook.cs:270-272 | every string of that shape is matched, with the groups `name` and `inner` |
| Phrases.ParamMatchIff | l10n/phrasebook.cs:270-272 | the match gives (name, inner) exactly when the string has that shape |
| Phrases.ParseKeyCases | l10n/phrasebook.cs:264-275 | a key is optional exactly when it ends in `.` + language; a non-optional key is its own name and has no parameters; parameters exist only for optional keys, are at least one and hold no `,`; an optional key has parameters exactly when its stem matches `name(inner)`, and then its name is `name` and its parameters join back to `inner`; otherwise its name is the whole stem |
| Phrases.OptionalKeyParameters | l10n/phrasebook.cs:266-275 | an optional key has parameters exactly when its stem (the key without `.` + language) matches `name(inner)`; its name is then `name` and its parameters join back to `inner`; otherwise its name is the whole stem |
| Phrases.FarewellExample | l10n/phrasebook.cs:264-275 | `Farewell(name).en-us` in `en-us` is the optional phrase `Farewell` with the one parameter `name` |
| Phrases.ParameterRunsText | l10n/phrasebook.cs:49-58 | the parameter runs spell the parameters joined by `,` |
| Phrases.PrefixText | l10n/phrasebook.cs:43-94 | the prefix spells `(p1,...,pn)` when there are parameters, then `.` when optional, the language and `: ` |
| Phrases.StemSpelled | l10n/phrasebook.cs:268-274 | the name of an optional key's stem, followed by its re-joined parameter list, spells the stem |
| Phrases.PrefixRestoresKey | l10n/phrasebook.cs:43-94 | for an optional key, the phrase name followed by the prefix of its version spells the original key followed by `: ` |
| Phrases.PlainKeyPrefix | l10n/phrasebook.cs:63-68 | a non-optional key names its phrase verbatim, and its prefix is just the language and `: ` |
| Lexer.StripComment | l10n/phrasebook.cs:209-210 | the line is cut at its first `//`: the result is a prefix with no `//` in it; it is the whole line exactly when the line has no `//`, and otherwise `//` starts right after it |
| Lexer.NoSlashNoComment | l10n/phrasebook.cs:209-210 | a line without `/` is kept whole |
| Lexer.LexNodes | l10n/phrasebook.cs:205-218 | the loop yields exactly the tokens of `Lex`: each line's parts in order, with the line number and the running column |
| Lexer.LineTokensInLine | l10n/phrasebook.cs:209-216 | each line yields at least one token; each token occurs in its line at its column; the tokens spell the line up to its comment |
| Lexer.LexLineNumbers | l10n/phrasebook.cs:206-214 | every token's line number is between 1 and the number of lines, and the numbers never decrease |
| Lexer.LexPrefix | l10n/phrasebook.cs:207-217 | lexing more lines only appends tokens |
| Lexer.OpeningLineParts | l10n/phrasebook.cs:209-212 | `a {` has the parts `a `, `{` and the empty text |
| Lexer.ClosingLineParts | l10n/phrasebook.cs:209-212 | `}` has the parts empty text, `}` and empty text |
| Lexer.ThreeTokens | l10n/phrasebook.cs:211-216 | three parts of a line are located at columns 1, 1 + the first's length and 1 + the first two lengths |
| Lexer.EmptyBlockExample | l10n/phrasebook.cs:205-218 | the lines `a {` and `}` give six tokens, with their lines and columns, including the empty ones |
| Reducer.StepDepth | l10n/phrasebook.cs:226-232 | a step fails exactly on a `}` with no open block; otherwise the depth rises by one on `{`, falls by one on `}`, and is kept otherwise |
| Reducer.RunDepth | l10n/phrasebook.cs:224-237 | a run fails exactly when some prefix of the tokens closes more blocks than it opens; otherwise the stack is as deep as the balance of braces |
| Reducer.StepNames | l10n/phrasebook.cs:226-229 | a step only sets the pending name to the empty name, keeps it, or sets it to the token's trimmed text; it pushes only names already pending or stacked |
| Reducer.NamesFromTokens | l10n/phrasebook.cs:226-256 | every pending or stacked block name is empty or the trimmed text of some token |
| Reducer.NoLocalizationNoEntries | l10n/phrasebook.cs:233-237 | a file with no token that trims to `Localization` yields no entry |
| Reducer.EntryStep | l10n/phrasebook.cs:233-253 | a token adds an entry exactly when the run has not failed, the token holds `=`, and the open blocks are `Localization` and one language block; that block names the language |
| Reducer.StepText | l10n/phrasebook.cs:254-256 | an unsuppressed token without `=` or brace becomes the pending name and changes nothing else |
| Reducer.StepPush | l10n/phrasebook.cs:226-229 | a `{` pushes the pending name; afterwards the pending name is empty or `{` itself (the `{` token falls through to the name assignment) |
| Reducer.BlockName | l10n/phrasebook.cs:226-256 | a `{` right after an unsuppressed text token opens a block named by that token's trimmed text |
| Reducer.UnnamedBlock | l10n/phrasebook.cs:226-256 | a `{` after white space only (as when the name stands on the line above) opens a block with the empty name |
| Reducer.EntryShape | l10n/phrasebook.cs:238-252 | an entry has the block's language and this file and line; its key is trimmed and holds no `=`; its value is trimmed; the value's first column lies after the token's column and not after its last column |
| Reducer.RunEntries | l10n/phrasebook.cs:238-253 | every entry of a run is located in the file read, with a key without `=` and ordered columns |
| PhrasebookIndex.CommonPrefix | l10n/phrasebook.cs:136-139 | the common prefix is an ancestor of both paths |
| PhrasebookIndex.CommonPrefixGreatest | l10n/phrasebook.cs:136-139 | every common ancestor of two paths is an ancestor of their common prefix |
| PhrasebookIndex.CommonPrefixClimb | l10n/phrasebook.cs:136-138 | while the root is not a base of the directory, moving it to its parent keeps its common prefix with the directory |
| PhrasebookIndex.CommonPrefixOfBase | l10n/phrasebook.cs:136-137 | when the climb stops, the root is the deepest common ancestor of the start and the directory |
| PhrasebookIndex.ClimbAsWrittenStops | l10n/phrasebook.cs:136-139 | the climb with `Uri.IsBaseOf` as .NET computes it stops at DivergedRoot: the deepest common ancestor, or its child towards the old root when the two directories diverge or the new directory is the drive root |
| PhrasebookIndex.DivergedRootCases | l10n/phrasebook.cs:136-139 | DivergedRoot is the deepest common ancestor when one directory contains the other and the new directory is not the drive root (or the root is); when they diverge, or the new directory is the drive root and the root is not, it is one level deeper and does not contain the new directory |
| PhrasebookIndex.SiblingRootAsWritten | l10n/phrasebook.cs:136-139 | with the root at `m/A` and a new file in `m/B`, the as-written climb keeps `m/A`, which does not contain `m/B`; the deepest common ancestor is `m` |
| PhrasebookIndex.DriveRootAsWritten | l10n/phrasebook.cs:136-139 | with the root at `A/B` and a new file directly in the drive root, the as-written climb stops at `A`, which does not contain the drive root, the deepest common ancestor |
| PhrasebookIndex.AddEntryVersions | l10n/phrasebook.cs:276-283 | Add appends the version to its own phrase (which had none when absent) and leaves every other phrase's versions unchanged |
| PhrasebookIndex.AddEntriesVersions | l10n/phrasebook.cs:276-283 | adding entries appends to each phrase the versions of the entries with that name, in order |
| PhrasebookIndex.AddEntriesKeys | l10n/phrasebook.cs:276-278 | adding entries creates exactly the phrases they name, and deletes none |
| PhrasebookIndex.WithoutMembers | l10n/phrasebook.cs:161-164 | RemoveAll keeps exactly the versions that were not read from the file |
| PhrasebookIndex.WithoutAppend | l10n/phrasebook.cs:177-180 | removal works piecewise, so the kept versions stay in their order |
| PhrasebookIndex.WithoutIdempotent | l10n/phrasebook.cs:177-180 | removing a file's versions twice is removing them once |
| PhrasebookIndex.AddFileValid | l10n/phrasebook.cs:129-139 | AddFile keeps the invariant: the root is set exactly when files were added, and it is the deepest common ancestor of all their directories |
| PhrasebookIndex.AddFileWidens | l10n/phrasebook.cs:136-139 | the root only ever moves up |
| PhrasebookIndex.AddFileOnce | l10n/phrasebook.cs:130-131 | the path is recorded whatever reading it gives, so adding it again changes nothing |
| PhrasebookIndex.AddFileVersions | l10n/phrasebook.cs:129-153 | adding a new file appends the file's versions after each phrase's existing ones |
| PhrasebookIndex.RefreshVersions | l10n/phrasebook.cs:175-189 | after a refresh each phrase holds its versions from other files in their order, followed by the versions read afresh |
| PhrasebookIndex.RefreshKeys | l10n/phrasebook.cs:175-189 | a refresh deletes no phrase, creates those the file names, and keeps the file set and the root |
| PhrasebookIndex.RefreshIdempotent | l10n/phrasebook.cs:175-189 | refreshing a file twice is refreshing it once, outcome included |
| PhrasebookIndex.RenamedUntracked | l10n/phrasebook.cs:158-160 | a rename event for a file never read changes nothing |
| PhrasebookIndex.VersionsStayTracked | l10n/phrasebook.cs:129-173 | AddFile, a refresh of a tracked file and a rename event keep every version's file among the files read |
| PhrasebookIndex.RunAfterFailure | l10n/phrasebook.cs:230-232 | once a `}` has closed no block, the later tokens change nothing |
| PhrasebookIndex.Phrasebook.constructor | l10n/phrasebook.cs:347-351 | a new phrasebook has no phrase, no file and no root |
| PhrasebookIndex.Phrasebook.Add | l10n/phrasebook.cs:260-284 | the dictionary becomes AddEntry of the entry; files and root are unchanged |
| PhrasebookIndex.Phrasebook.AddToken | l10n/phrasebook.cs:238-253 | the `=` branch adds exactly the entry MakeEntry describes |
| PhrasebookIndex.Phrasebook.AddLocalizationKeys | l10n/phrasebook.cs:220-258 | the dictionary receives the run's entries in order; the result is false exactly when the run failed, with the earlier entries kept |
| PhrasebookIndex.Phrasebook.Ingest | l10n/phrasebook.cs:152 | reading a file gives AfterIngest: unreadable, or its entries added with the outcome of the run |
| PhrasebookIndex.Phrasebook.AddFile | l10n/phrasebook.cs:129-154 | the new state and outcome are those of AfterAddFile; the climb loop ends at the deepest common ancestor |
| PhrasebookIndex.Phrasebook.RemoveVersionsOf | l10n/phrasebook.cs:177-180 | every phrase loses exactly its versions from the file; no phrase is deleted |
| PhrasebookIndex.Phrasebook.RefreshFile | l10n/phrasebook.cs:175-189 | the new state and outcome are those of AfterRefresh |
| PhrasebookIndex.Phrasebook.RefreshRenamedFile | l10n/phrasebook.cs:156-173 | the new state and outcome are those of AfterRefreshRenamed |
| QuickInfo.FirstCovering | l10n/l10n_quick_info_source.cs:50-61 | the result is the first key, in enumeration order, whose first occurrence spans the offset, and no earlier key's does; None when no key's does |
| QuickInfo.CoversMeaning | l10n/l10n_quick_info_source.cs:51-61 | a key covers the offset exactly when it is nonempty and its leftmost occurrence spans the offset |
| QuickInfo.FirstOccurrenceOnly | l10n/l10n_quick_info_source.cs:51-55 | the loop looks at the first occurrence only: in `ab ab` the second `ab` spans offset 3, but `ab` does not cover it |
| QuickInfo.FirstCoveringAt | l10n/l10n_quick_info_source.cs:50-65 | when no earlier key covers the offset and the key at `i` does, the lookup finds `i` |
| QuickInfo.CfgAfterSeparator | l10n/l10n_quick_info_source.cs:86 | a path text ending in a separator and a segment ends in `.cfg` exactly when the segment does |
| QuickInfo.CfgFullPath | l10n/l10n_quick_info_source.cs:86 | the full path ends in `.cfg` exactly when its last segment does |
| QuickInfo.LoadTracks | l10n/l10n_quick_info_source.cs:84-92 | only `.cfg` candidates are added, and after a load with no failure every one of them is tracked |
| QuickInfo.LoadValid | l10n/l10n_quick_info_source.cs:84-92 | a load keeps the root the deepest common ancestor of the directories of the files read |
| QuickInfo.LoadTracked | l10n/l10n_quick_info_source.cs:84-89 | loading files that are all tracked already changes nothing |
| QuickInfo.LoadIdempotent | l10n/l10n_quick_info_source.cs:84-92 | repeating a load that had no failure changes nothing |
| QuickInfo.LoadSolutionFiles | l10n/l10n_quick_info_source.cs:84-92 | the loop's state and result are those of AfterLoad: `.cfg` files are added in order, and the first failure is returned and ends the loop |
| QuickInfo.InstanceCount.constructor | l10n/l10n_quick_info_source.cs:100 | the count starts at zero, with no live source |
| QuickInfo.QuickInfoSource.constructor | l10n/l10n_quick_info_source.cs:74-94 | the count rises by one and counts the new source; the shared phrasebook is then loaded as AfterLoad describes |
| QuickInfo.QuickInfoSource.Dispose | l10n/l10n_quick_info_source.cs:26-32 | the first call uncounts the source; later calls change nothing; the count keeps counting the live sources |
| QuickInfo.QuickInfoSource.GetQuickInfoItem | l10n/l10n_quick_info_source.cs:34-72 | the result is Lookup: none without a trigger point, otherwise the first covering key and its phrase, or none |

## Left out

- The Visual Studio side is not modelled. This covers the MEF provider and
  classifier boilerplate, `Phrase.Info`/`InfoLines`, and the navigation
  action of the language run in `Version.Prefix`. The model keeps the runs'
  classifications and texts only.
- The DEBUG-only time stamp run and `SourceLocation.last_updated` are not
  modelled. `DateTime.Now` is a clock.
- The `FileSystemWatcher` is not modelled: its creation, its events and
  moving its path when the root changes. The refresh handlers are methods
  that the environment calls with a path.
- `StreamLines` is not modelled as I/O. A file's lines come from the `disk`
  map, and a file that cannot be opened is one missing from that map.
- PhrasebookIndex.Phrasebook.RefreshFile: on an `IOException` the source
  sleeps one second and retries forever. The model returns `Unreadable`
  instead, after the file's versions were removed. The same holds for
  PhrasebookIndex.Phrasebook.RefreshRenamedFile.
- The `lock` statements, the asynchronous initialisation task and the
  `ContinueWith` ordering of the hover after it are left out. Each operation
  runs to completion on its own.
- Exceptions are modelled as outcomes. The `IOException` becomes
  `Unreadable`. The `ArgumentOutOfRangeException` from a `}` that closes no
  block becomes `Unbalanced`, with the entries added before it kept. The
  constructor's `catch` keeps the first failure, which is never read; the
  model returns it from `LoadSolutionFiles` and the constructor drops it.
- PhrasebookIndex.Phrasebook.AddFile requires a non-empty path.
  `Directory.GetParent` returns null for a root path, and the source then
  fails. Files always have a parent directory.
- Paths on different drives are not modelled. All paths share the root `[]`.
  For such paths the source's climb walks past the drive root to a null
  parent.
- `Uri.IsBaseOf` is modelled as the segment-prefix relation on paths in
  the climb that the rest of the model uses. Case-insensitive file systems,
  `..` segments and URI escaping are not modelled.
- PhrasebookIndex.Phrasebook.AddFile: climbs with the segment-prefix test,
  not with `Uri.IsBaseOf` as .NET computes it. A directory name has no
  trailing separator, and IsBaseOf ignores a base's last segment, so the
  program's climb can stop one level too deep (see Findings). The root
  only moves the file watcher, which is not modelled.
- PhrasebookIndex.AddFileValid: the deepest-common-ancestor invariant holds
  of the segment-prefix climb only. The program's root, as
  PhrasebookIndex.ClimbAsWrittenStops shows, is a child of that ancestor
  when the old root and the new directory diverge, and when the new
  directory is the drive root and the old root is not.
- QuickInfo.LoadValid: holds of the segment-prefix climb only, as for
  PhrasebookIndex.AddFileValid.
- Lengths, offsets and columns count Unicode scalar values (Dafny `char`).
  .NET's `Length`, `IndexOf` and `Substring` count UTF-16 code units. After
  a character outside the Basic Multilingual Plane, such as U+1F600, every
  later column of `LexNodes` and `first_column`/`last_column` is one less
  in the model than in the program. So is every later offset in the
  hover's key search and tracking span.
- An `IOException` partway through a file is not modelled. `StreamLines`
  is lazy, so the versions read before the failure are already added and
  stay after `AddFile` fails. The retry of `RefreshFile` and
  `RefreshRenamedFile` then reads the file again without removing them, so
  those versions are added twice. The model reads a file whole or not at
  all.
- Culture-sensitive comparison is not modelled. `IndexOf(string, int)` and
  `EndsWith(string)` compare with the current culture in .NET; the model
  compares ordinally.
- `\d` is modelled as the ASCII digits only. .NET also accepts other
  Unicode decimal digits.
- The unspecified enumeration order of `Dictionary.Keys` is a parameter
  (`keys`) of QuickInfo.QuickInfoSource.GetQuickInfoItem. Its precondition
  asks that `keys` holds exactly the dictionary's names.
- The trigger point is modelled as an offset in the line's text, not as a
  snapshot position. The tracking span is `[start, start + length)`.
- `Phrase` and `Version` are values: a phrase's version list is replaced in
  the map rather than mutated through a shared reference. No other code
  holds those references.
- `Phrasebook.KSPLanguages` is never read by the core and is not modelled.
- The `phrase != null` test of the hover is always true, because every key
  enumerated is in the dictionary. It is not modelled as a separate branch.
- `GC.SuppressFinalize` is not modelled.
- Integers are unbounded. Line numbers, columns and the instance count
  never approach 32-bit limits in practice, so wrap-around is not modelled.

## Findings

| source | as written | input that shows it | evidently intended | confidence | as-written member | corrected member |
|---|---|---|---|---|---|---|
| l10n/phrasebook.cs:136-139 | the root climbs until `new Uri(root).IsBaseOf(new Uri(directory))`; a directory's `FullName` has no trailing separator, and IsBaseOf compares a base only up to its last separator | a file in `C:\m\A`, then one in `C:\m\B`: IsBaseOf(`C:\m\A`, `C:\m\B`) holds, so the root stays `C:\m\A` and the watcher, which watches the root and its subdirectories, never sees `C:\m\B` | the root becomes the deepest common ancestor `C:\m`, as the field name `deepest_common_ancestor_` says | not executed; high | PhrasebookIndex.SiblingRootAsWritten | PhrasebookIndex.AddFileValid |
| l10n/phrasebook.cs:136-139 | the same climb, when the new directory is the drive root, whose `FullName` does end in a separator | a file in `C:\A\B`, then a `.cfg` file directly in `C:\`: IsBaseOf(`C:\A\B`, `C:\`) fails, IsBaseOf(`C:\A`, `C:\`) holds, so the root stops at `C:\A`, which does not contain `C:\` | the root becomes the drive root `C:\` | not executed; high | PhrasebookIndex.DriveRootAsWritten | PhrasebookIndex.AddFileValid |
