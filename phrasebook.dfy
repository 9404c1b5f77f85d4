/**
 * The Phrasebook: the dictionary from phrase names to phrases, the set of
 * files read so far, and the deepest common ancestor of their directories
 * (the directory the file watcher covers). The pure functions describe each
 * operation's effect on a snapshot of that state; the class performs the
 * operations in place and is proved to have exactly those effects.
 */
module PhrasebookIndex {
  import opened Strings
  import opened Markup
  import opened Phrases
  import opened Lexer
  import opened Reducer

  /** How reading a file into the phrasebook ended. */
  datatype Outcome =
    | Done        // every token was reduced
    | Unreadable  // the file could not be opened (an IOException)
    | Unbalanced  // a `}` closed no block (an exception after the earlier entries were added)

  /** A snapshot of the phrasebook's state. */
  datatype Book = Book(phrases: map<string, Phrase>, files: set<Path>, root: Option<Path>)

  /** Directory.GetParent of a file: its path without the last segment. */
  function Directory(path: Path): Path
    requires path != []
  {
    path[..|path| - 1]
  }

  /** The longest common prefix of two paths: their deepest common ancestor. */
  function CommonPrefix(a: Path, b: Path): (c: Path)
    ensures c <= a && c <= b
  {
    if a == [] || b == [] || a[0] != b[0] then [] else [a[0]] + CommonPrefix(a[1..], b[1..])
  }

  /** Every common ancestor of two paths is an ancestor of their common prefix. */
  lemma {:induction false} CommonPrefixGreatest(a: Path, b: Path, q: Path)
    requires q <= a && q <= b
    ensures q <= CommonPrefix(a, b)
  {
    if q != [] {
      assert a[0] == q[0] == b[0];
      CommonPrefixGreatest(a[1..], b[1..], q[1..]);
      assert q == [q[0]] + q[1..];
    }
  }

  lemma PrefixAntisymmetric(a: Path, b: Path)
    requires a <= b && b <= a
    ensures a == b
  {
  }

  /** One step of the climb: a root that is not a base of the directory may drop its last segment without changing the result. */
  lemma CommonPrefixClimb(r: Path, d: Path)
    requires !(r <= d)
    ensures r != [] && CommonPrefix(r[..|r| - 1], d) == CommonPrefix(r, d)
  {
    var parent := r[..|r| - 1];
    var c := CommonPrefix(r, d);
    if c == r {
      assert false;
    }
    assert c <= parent by {
      assert |c| < |r|;
      assert c == r[..|c|];
    }
    CommonPrefixGreatest(parent, d, c);
    var c' := CommonPrefix(parent, d);
    CommonPrefixGreatest(r, d, c');
    PrefixAntisymmetric(c, c');
  }

  /** A base of the directory is its own common prefix with it. */
  lemma CommonPrefixOfBase(r: Path, d: Path)
    requires r <= d
    ensures CommonPrefix(r, d) == r
  {
    CommonPrefixGreatest(r, d, r);
    PrefixAntisymmetric(r, CommonPrefix(r, d));
  }

  /**
   * `new Uri(r).IsBaseOf(new Uri(d))` for two directory names as
   * DirectoryInfo.FullName spells them: with no trailing separator, except
   * the root. IsBaseOf compares the base only up to its last separator, so
   * a base other than the root stands for its parent directory, and the
   * other path must go on past that parent; the root `[]`, whose spelling
   * already ends in a separator, is long enough for a base of depth one.
   */
  predicate UriIsBaseOf(r: Path, d: Path) {
    r == [] || (r[..|r| - 1] <= d && (|r| <= |d| || d == []))
  }

  /** The climb of Phrasebook.AddFile as written: drop segments until IsBaseOf holds. */
  function ClimbAsWritten(r: Path, d: Path): Path
    decreases |r|
  {
    if UriIsBaseOf(r, d) then r else ClimbAsWritten(r[..|r| - 1], d)
  }

  /**
   * The root the as-written climb keeps: one segment below the common
   * prefix when the root goes on past it and the directory either goes on
   * past it too or is the drive root.
   */
  function DivergedRoot(r: Path, d: Path): Path {
    var c := CommonPrefix(r, d);
    if |r| > |c| && (|d| > |c| || d == []) then r[..|c| + 1] else c
  }

  /**
   * DivergedRoot is the deepest common ancestor when one of the two
   * directories contains the other, unless the directory is the drive root;
   * when they diverge, or when the directory is the drive root and the root
   * is not, it is one level too deep, the child of the common ancestor that
   * leads to `r`, and it does not contain `d`.
   */
  lemma DivergedRootCases(r: Path, d: Path)
    ensures (r <= d || d <= r) && (d != [] || r == []) ==> DivergedRoot(r, d) == CommonPrefix(r, d)
    ensures !(r <= d || d <= r) ==>
      var c := CommonPrefix(r, d);
      DivergedRoot(r, d) == r[..|c| + 1] && !(DivergedRoot(r, d) <= d)
    ensures d == [] && r != [] ==> DivergedRoot(r, d) == r[..1] && !(DivergedRoot(r, d) <= d)
  {
  }

  /** The as-written climb from root `r` for directory `d` stops at DivergedRoot. */
  lemma {:induction false} ClimbAsWrittenStops(r: Path, d: Path)
    ensures ClimbAsWritten(r, d) == DivergedRoot(r, d)
    decreases |r|
  {
    var c := CommonPrefix(r, d);
    if UriIsBaseOf(r, d) {
      if r != [] && d == [] {
        assert |r| == 1;
      } else if r != [] {
        CommonPrefixGreatest(r, d, r[..|r| - 1]);
        if c != r {
          assert c == r[..|c|];
          assert |c| == |r| - 1;
        }
      }
    } else {
      var parent := r[..|r| - 1];
      ClimbAsWrittenStops(parent, d);
      CommonPrefixClimb(r, d);
      if d == [] {
        assert parent[..1] == r[..1];
      } else if parent <= d {
        assert parent == d;
        CommonPrefixOfBase(parent, d);
      } else {
        assert c == parent[..|c|];
      }
    }
  }

  /**
   * A file in `m/A` and then one in `m/B`: the program's climb keeps the
   * root at `m/A`, which is not an ancestor of `m/B`, where the deepest
   * common ancestor is `m`.
   */
  lemma SiblingRootAsWritten()
    ensures var a, b := ["m", "A"], ["m", "B"];
      ClimbAsWritten(a, b) == a && !(a <= b) && CommonPrefix(a, b) == ["m"]
  {
    var a, b := ["m", "A"], ["m", "B"];
    assert UriIsBaseOf(a, b) by {
      assert a[..1] == ["m"] == b[..1];
    }
    assert CommonPrefix(a[1..], b[1..]) == [] by {
      assert a[1..][0] == "A" && b[1..][0] == "B";
      assert "A"[0] != "B"[0];
    }
    assert a[0] == b[0];
    assert !(a <= b) by {
      assert a[1] != b[1] by {
        assert "A"[0] != "B"[0];
      }
    }
  }

  /**
   * A file in `A/B` and then one directly in the drive root: IsBaseOf
   * compares `A/B` only up to `A/`, which the root's spelling matches, so the
   * climb stops at `A` rather than at the drive root.
   */
  lemma DriveRootAsWritten()
    ensures var a: Path := ["A", "B"];
      ClimbAsWritten(a, []) == ["A"] && !(["A"] <= []) && CommonPrefix(a, []) == []
  {
    var a: Path := ["A", "B"];
    assert !UriIsBaseOf(a, []);
    assert a[..1] == ["A"];
    assert UriIsBaseOf(["A"], []);
  }

  // ---- the dictionary ----

  /** The version an entry is recorded as. */
  function ToVersion(e: Entry): Version {
    var k := ParseKey(e.key, e.language);
    Version(e.language, k.parameters, k.optional, ParseLingoona(e.value), e.location)
  }

  /** The phrase an entry belongs to. */
  function NameOf(e: Entry): string {
    ParseKey(e.key, e.language).name
  }

  /** The versions of a phrase, none when the name is absent. */
  function VersionsOf(phrases: map<string, Phrase>, name: string): seq<Version> {
    if name in phrases then phrases[name].versions else []
  }

  /** Phrasebook.Add on a snapshot: the entry's version appended to its phrase, created if absent. */
  function AddEntry(phrases: map<string, Phrase>, e: Entry): map<string, Phrase> {
    phrases[NameOf(e) := Phrase(VersionsOf(phrases, NameOf(e)) + [ToVersion(e)])]
  }

  /** The entries added in order. */
  function AddEntries(phrases: map<string, Phrase>, entries: seq<Entry>): map<string, Phrase> {
    if entries == [] then phrases
    else AddEntry(AddEntries(phrases, entries[..|entries| - 1]), entries[|entries| - 1])
  }

  /** The version an entry gives the phrase `name`: its own if filed there, else none. */
  function VersionIf(e: Entry, name: string): seq<Version> {
    if NameOf(e) == name then [ToVersion(e)] else []
  }

  /** The versions that entries give a phrase, in order. */
  function NamedVersions(entries: seq<Entry>, name: string): seq<Version> {
    if entries == [] then []
    else NamedVersions(entries[..|entries| - 1], name) + VersionIf(entries[|entries| - 1], name)
  }

  /** The names entries are filed under. */
  function NamesOf(entries: seq<Entry>): set<string> {
    set e | e in entries :: NameOf(e)
  }

  lemma AddEntriesSnoc(phrases: map<string, Phrase>, entries: seq<Entry>, e: Entry)
    ensures AddEntries(phrases, entries + [e]) == AddEntry(AddEntries(phrases, entries), e)
  {
    assert (entries + [e])[..|entries|] == entries;
  }

  /** Adding one entry appends its version to its own phrase only. */
  lemma AddEntryVersions(phrases: map<string, Phrase>, e: Entry, name: string)
    ensures VersionsOf(AddEntry(phrases, e), name)
      == VersionsOf(phrases, name) + VersionIf(e, name)
  {
    var n := NameOf(e);
    if n != name {
      assert VersionsOf(phrases, name) + [] == VersionsOf(phrases, name);
    }
  }

  /** Adding entries appends, to each phrase, the versions of the entries of that name. */
  lemma {:induction false} AddEntriesVersions(phrases: map<string, Phrase>, entries: seq<Entry>, name: string)
    ensures VersionsOf(AddEntries(phrases, entries), name) == VersionsOf(phrases, name) + NamedVersions(entries, name)
    decreases |entries|
  {
    if entries != [] {
      var init, e := entries[..|entries| - 1], entries[|entries| - 1];
      AddEntriesVersions(phrases, init, name);
      AddEntryVersions(AddEntries(phrases, init), e, name);
      var start, named, extra := VersionsOf(phrases, name), NamedVersions(init, name), VersionIf(e, name);
      assert AddEntries(phrases, entries) == AddEntry(AddEntries(phrases, init), e);
      assert NamedVersions(entries, name) == named + extra;
      assert start + named + extra == start + (named + extra);
    }
  }

  /** Adding entries creates exactly the phrases they name that were missing. */
  lemma {:induction false} AddEntriesKeys(phrases: map<string, Phrase>, entries: seq<Entry>)
    ensures AddEntries(phrases, entries).Keys == phrases.Keys + NamesOf(entries)
    decreases |entries|
  {
    if entries != [] {
      var init, e := entries[..|entries| - 1], entries[|entries| - 1];
      var before := AddEntries(phrases, init);
      AddEntriesKeys(phrases, init);
      NamesOfLast(entries);
      AddEntryKeys(before, e);
    }
  }

  /** Adding one entry creates its phrase when absent. */
  lemma AddEntryKeys(phrases: map<string, Phrase>, e: Entry)
    ensures AddEntry(phrases, e).Keys == phrases.Keys + {NameOf(e)}
  {
  }

  /** The names of entries are the names of all but the last, and the last one's. */
  lemma NamesOfLast(entries: seq<Entry>)
    requires entries != []
    ensures NamesOf(entries) == NamesOf(entries[..|entries| - 1]) + {NameOf(entries[|entries| - 1])}
  {
    var init := entries[..|entries| - 1];
    assert entries == init + [entries[|entries| - 1]];
    assert forall x :: x in entries <==> x in init || x == entries[|entries| - 1];
  }

  /** The versions not read from `file`, in their order. */
  function Without(versions: seq<Version>, file: Path): seq<Version> {
    if versions == [] then []
    else
      var v := versions[|versions| - 1];
      Without(versions[..|versions| - 1], file) + (if v.location.file == file then [] else [v])
  }

  /** Removal keeps exactly the versions from other files. */
  lemma {:induction false} WithoutMembers(versions: seq<Version>, file: Path)
    ensures forall v :: v in Without(versions, file) <==> v in versions && v.location.file != file
    decreases |versions|
  {
    if versions != [] {
      var init := versions[..|versions| - 1];
      WithoutMembers(init, file);
      assert versions == init + [versions[|versions| - 1]];
    }
  }

  /** Removal works piecewise, so the versions kept stay in their relative order. */
  lemma {:induction false} WithoutAppend(a: seq<Version>, b: seq<Version>, file: Path)
    ensures Without(a + b, file) == Without(a, file) + Without(b, file)
    decreases |b|
  {
    if b == [] {
      assert a + b == a;
    } else {
      var init := b[..|b| - 1];
      WithoutAppend(a, init, file);
      assert (a + b)[..|a + b| - 1] == a + init;
    }
  }

  /** Removing twice is removing once. */
  lemma {:induction false} WithoutIdempotent(versions: seq<Version>, file: Path)
    ensures Without(Without(versions, file), file) == Without(versions, file)
    decreases |versions|
  {
    if versions != [] {
      var init, v := versions[..|versions| - 1], versions[|versions| - 1];
      WithoutIdempotent(init, file);
      WithoutAppend(Without(init, file), if v.location.file == file then [] else [v], file);
      if v.location.file != file {
        assert [v][..0] == [];
      }
    }
  }

  /** `versions.RemoveAll(v => v.location.file == file)` on every phrase; no phrase is deleted. */
  function RemoveFile(phrases: map<string, Phrase>, file: Path): map<string, Phrase> {
    map name | name in phrases :: Phrase(Without(phrases[name].versions, file))
  }

  // ---- reading a file ----

  /**
   * AddLocalizationKeys(LexNodes(StreamLines(file)), file) on a snapshot.
   * `disk` holds the lines of the files that can be opened.
   */
  function AfterIngest(phrases: map<string, Phrase>, file: Path, disk: map<Path, seq<string>>): (map<string, Phrase>, Outcome) {
    if file !in disk then (phrases, Unreadable)
    else
      var m := Run(Lex(disk[file]), file);
      (AddEntries(phrases, m.entries), if m.failed then Unbalanced else Done)
  }

  /** The entries a readable file yields. */
  function FileEntries(file: Path, disk: map<Path, seq<string>>): seq<Entry> {
    if file in disk then Run(Lex(disk[file]), file).entries else []
  }

  /** Phrasebook.AddFile on a snapshot. */
  function AfterAddFile(book: Book, path: Path, disk: map<Path, seq<string>>): (Book, Outcome)
    requires path != []
  {
    if path in book.files then (book, Done)
    else
      var dir := Directory(path);
      var start := if book.root.None? then dir else book.root.value;
      var (phrases, outcome) := AfterIngest(book.phrases, path, disk);
      (Book(phrases, book.files + {path}, Some(CommonPrefix(start, dir))), outcome)
  }

  /** Phrasebook.RefreshFile on a snapshot: remove the file's versions, then read it again. */
  function AfterRefresh(book: Book, path: Path, disk: map<Path, seq<string>>): (Book, Outcome) {
    var (phrases, outcome) := AfterIngest(RemoveFile(book.phrases, path), path, disk);
    (book.(phrases := phrases), outcome)
  }

  /** Phrasebook.RefreshRenamedFile on a snapshot: a refresh, only for a file already read. */
  function AfterRefreshRenamed(book: Book, path: Path, disk: map<Path, seq<string>>): (Book, Outcome) {
    if path !in book.files then (book, Done) else AfterRefresh(book, path, disk)
  }

  // ---- invariants and properties ----

  /** `q` is an ancestor of the directory of every file. */
  ghost predicate CoversAll(q: Path, files: set<Path>) {
    forall f :: f in files ==> f != [] && q <= Directory(f)
  }

  /**
   * The root is set exactly when a file has been added, and then it is the
   * deepest common ancestor of the directories of all the files.
   */
  ghost predicate Valid(book: Book) {
    (book.root.None? <==> book.files == {})
    && (forall f :: f in book.files ==> f != [])
    && (book.root.Some? ==>
          CoversAll(book.root.value, book.files)
          && forall q :: CoversAll(q, book.files) ==> q <= book.root.value)
  }

  /** AddFile keeps the root the deepest common ancestor of every file's directory. */
  lemma AddFileValid(book: Book, path: Path, disk: map<Path, seq<string>>)
    requires Valid(book) && path != []
    ensures Valid(AfterAddFile(book, path, disk).0)
  {
    if path !in book.files {
      var after := AfterAddFile(book, path, disk).0;
      var dir := Directory(path);
      var start := if book.root.None? then dir else book.root.value;
      var root := CommonPrefix(start, dir);
      assert CoversAll(root, after.files) by {
        forall f | f in after.files ensures f != [] && root <= Directory(f) {
          if f != path {
            assert start <= Directory(f);
          }
        }
      }
      forall q | CoversAll(q, after.files) ensures q <= root {
        assert q <= dir;
        assert CoversAll(q, book.files);
        if book.root.Some? {
          assert q <= start;
        }
        CommonPrefixGreatest(start, dir, q);
      }
    }
  }

  /** AddFile never moves the root down: the new root is an ancestor of the old one. */
  lemma AddFileWidens(book: Book, path: Path, disk: map<Path, seq<string>>)
    requires path != [] && book.root.Some?
    ensures AfterAddFile(book, path, disk).0.root.Some?
    ensures AfterAddFile(book, path, disk).0.root.value <= book.root.value
  {
  }

  /**
   * AddFile records the path before reading it: the path is tracked
   * whatever the outcome, so a second AddFile of it changes nothing.
   */
  lemma AddFileOnce(book: Book, path: Path, disk: map<Path, seq<string>>)
    requires path != []
    ensures var (after, _) := AfterAddFile(book, path, disk);
      path in after.files && after.files == book.files + {path}
      && AfterAddFile(after, path, disk) == (after, Done)
  {
  }

  /** AddFile of a new path adds the file's versions after the existing ones; other phrases are untouched. */
  lemma AddFileVersions(book: Book, path: Path, disk: map<Path, seq<string>>, name: string)
    requires path != [] && path !in book.files
    ensures VersionsOf(AfterAddFile(book, path, disk).0.phrases, name)
      == VersionsOf(book.phrases, name) + NamedVersions(FileEntries(path, disk), name)
  {
    if path in disk {
      AddEntriesVersions(book.phrases, FileEntries(path, disk), name);
    }
  }

  /** The phrases after reading a file: its entries added to those before. */
  lemma AfterIngestPhrases(phrases: map<string, Phrase>, path: Path, disk: map<Path, seq<string>>)
    ensures AfterIngest(phrases, path, disk).0 == AddEntries(phrases, FileEntries(path, disk))
  {
  }

  /**
   * A refresh leaves, for each phrase, the versions from other files in their
   * order, followed by the versions read afresh from the file.
   */
  lemma RefreshVersions(book: Book, path: Path, disk: map<Path, seq<string>>, name: string)
    ensures VersionsOf(AfterRefresh(book, path, disk).0.phrases, name)
      == Without(VersionsOf(book.phrases, name), path) + NamedVersions(FileEntries(path, disk), name)
  {
    var removed := RemoveFile(book.phrases, path);
    assert VersionsOf(removed, name) == Without(VersionsOf(book.phrases, name), path);
    AfterIngestPhrases(removed, path, disk);
    AddEntriesVersions(removed, FileEntries(path, disk), name);
  }

  /** Refreshing a file twice is refreshing it once. */
  lemma RefreshIdempotent(book: Book, path: Path, disk: map<Path, seq<string>>)
    ensures var once := AfterRefresh(book, path, disk);
      AfterRefresh(once.0, path, disk) == once
  {
    var once := AfterRefresh(book, path, disk).0;
    var twice := AfterRefresh(once, path, disk).0;
    forall name ensures VersionsOf(twice.phrases, name) == VersionsOf(once.phrases, name) {
      RefreshTwiceVersions(book, path, disk, name);
    }
    RefreshKeys(book, path, disk);
    RefreshKeys(once, path, disk);
    PhrasesByVersions(once.phrases, twice.phrases);
  }

  lemma RefreshTwiceVersions(book: Book, path: Path, disk: map<Path, seq<string>>, name: string)
    ensures var once := AfterRefresh(book, path, disk).0;
      VersionsOf(AfterRefresh(once, path, disk).0.phrases, name) == VersionsOf(once.phrases, name)
  {
    var once := AfterRefresh(book, path, disk).0;
    var reread := NamedVersions(FileEntries(path, disk), name);
    FileEntriesFrom(path, disk);
    NamedVersionsFrom(FileEntries(path, disk), name, path);
    RefreshVersions(book, path, disk, name);
    RefreshVersions(once, path, disk, name);
    RemoveReread(VersionsOf(book.phrases, name), reread, path);
  }

  /** Removing a file's versions and appending versions read from it, done twice, is done once. */
  lemma RemoveReread(versions: seq<Version>, reread: seq<Version>, file: Path)
    requires forall v :: v in reread ==> v.location.file == file
    ensures Without(Without(versions, file) + reread, file) + reread == Without(versions, file) + reread
  {
    var kept := Without(versions, file);
    WithoutAppend(kept, reread, file);
    WithoutIdempotent(versions, file);
    WithoutAll(reread, file);
  }

  /** Removing a file's versions from versions all read from it leaves none. */
  lemma {:induction false} WithoutAll(versions: seq<Version>, file: Path)
    requires forall v :: v in versions ==> v.location.file == file
    ensures Without(versions, file) == []
    decreases |versions|
  {
    if versions != [] {
      var init := versions[..|versions| - 1];
      assert forall v :: v in init ==> v in versions;
      WithoutAll(init, file);
    }
  }

  /** Every entry a file yields is located in that file. */
  lemma FileEntriesFrom(path: Path, disk: map<Path, seq<string>>)
    ensures forall e :: e in FileEntries(path, disk) ==> e.location.file == path
  {
    if path in disk {
      RunEntries(Lex(disk[path]), path);
    }
  }

  /** A refresh keeps every phrase, adds those the file names, and keeps the file set and the root. */
  lemma RefreshKeys(book: Book, path: Path, disk: map<Path, seq<string>>)
    ensures var after := AfterRefresh(book, path, disk).0;
      after.phrases.Keys == book.phrases.Keys + NamesOf(FileEntries(path, disk))
      && after.files == book.files && after.root == book.root
  {
    var removed := RemoveFile(book.phrases, path);
    AfterIngestPhrases(removed, path, disk);
    AddEntriesKeys(removed, FileEntries(path, disk));
  }

  /** Two dictionaries with the same names and the same versions under each name are equal. */
  lemma PhrasesByVersions(a: map<string, Phrase>, b: map<string, Phrase>)
    requires a.Keys == b.Keys
    requires forall name :: VersionsOf(a, name) == VersionsOf(b, name)
    ensures a == b
  {
    forall name | name in a ensures a[name] == b[name] {
      assert VersionsOf(a, name) == VersionsOf(b, name);
    }
  }

  /** A rename event for a file never read changes nothing. */
  lemma RenamedUntracked(book: Book, path: Path, disk: map<Path, seq<string>>)
    requires path !in book.files
    ensures AfterRefreshRenamed(book, path, disk) == (book, Done)
  {
  }

  /** Every version was read from a tracked file. */
  ghost predicate VersionsTracked(book: Book) {
    forall name, v :: name in book.phrases && v in book.phrases[name].versions ==> v.location.file in book.files
  }

  lemma {:induction false} NamedVersionsFrom(entries: seq<Entry>, name: string, file: Path)
    requires forall e :: e in entries ==> e.location.file == file
    ensures forall v :: v in NamedVersions(entries, name) ==> v.location.file == file
    decreases |entries|
  {
    if entries != [] {
      var init := entries[..|entries| - 1];
      assert forall x :: x in init ==> x in entries;
      NamedVersionsFrom(init, name, file);
    }
  }

  /**
   * AddFile, and a refresh of a tracked file, keep every version's file
   * tracked. (RefreshFile does not check that its path is tracked, so a
   * change event for another file can add versions from an untracked file.)
   */
  lemma VersionsStayTracked(book: Book, path: Path, disk: map<Path, seq<string>>)
    requires VersionsTracked(book) && path != []
    ensures VersionsTracked(AfterAddFile(book, path, disk).0)
    ensures path in book.files ==> VersionsTracked(AfterRefresh(book, path, disk).0)
    ensures VersionsTracked(AfterRefreshRenamed(book, path, disk).0)
  {
    var entries := FileEntries(path, disk);
    if path in disk {
      RunEntries(Lex(disk[path]), path);
    }
    var added := AfterAddFile(book, path, disk).0;
    forall name, v | name in added.phrases && v in added.phrases[name].versions
      ensures v.location.file in added.files
    {
      if path !in book.files {
        AddFileVersions(book, path, disk, name);
        NamedVersionsFrom(entries, name, path);
        assert v in VersionsOf(added.phrases, name);
      }
    }
    if path in book.files {
      var refreshed := AfterRefresh(book, path, disk).0;
      forall name, v | name in refreshed.phrases && v in refreshed.phrases[name].versions
        ensures v.location.file in refreshed.files
      {
        RefreshVersions(book, path, disk, name);
        NamedVersionsFrom(entries, name, path);
        WithoutMembers(VersionsOf(book.phrases, name), path);
        assert v in VersionsOf(refreshed.phrases, name);
      }
    }
  }

  // ---- the phrasebook object ----

  class Phrasebook {
    var phrases: map<string, Phrase>
    var files: set<Path>
    var root: Option<Path>

    function Model(): Book
      reads this
    {
      Book(phrases, files, root)
    }

    constructor()
      ensures Model() == Book(map[], {}, None)
    {
      phrases := map[];
      files := {};
      root := None;
    }

    /** Phrasebook.Add: file the value's version under the name read from the key. */
    method Add(language: string, key: string, value: string, location: SourceLocation)
      modifies this
      ensures phrases == AddEntry(old(phrases), Entry(language, key, value, location))
      ensures files == old(files) && root == old(root)
    {
      var k := ParseKey(key, language);
      if k.name !in phrases {
        phrases := phrases[k.name := Phrase([])];
      }
      phrases := phrases[k.name := Phrase(phrases[k.name].versions
        + [Version(language, k.parameters, k.optional, ParseLingoona(value), location)])];
    }

    /**
     * Phrasebook.AddLocalizationKeys: reduce the tokens, adding each entry
     * as it is found; returns false where the source throws on a `}` that
     * closes no block, with the earlier entries already added.
     */
    method AddLocalizationKeys(tokens: seq<LocatedToken>, file: Path) returns (balanced: bool)
      modifies this
      ensures phrases == AddEntries(old(phrases), Run(tokens, file).entries)
      ensures balanced == !Run(tokens, file).failed
      ensures files == old(files) && root == old(root)
    {
      var name := "";
      var stack: seq<string> := [];
      var i := 0;
      while i < |tokens|
        invariant 0 <= i <= |tokens|
        invariant !Run(tokens[..i], file).failed
        invariant Run(tokens[..i], file).name == name && Run(tokens[..i], file).stack == stack
        invariant phrases == AddEntries(old(phrases), Run(tokens[..i], file).entries)
        invariant files == old(files) && root == old(root)
      {
        var t := tokens[i];
        RunSnoc(tokens[..i], t, file);
        assert tokens[..i + 1] == tokens[..i] + [t];
        ghost var before := Run(tokens[..i], file).entries;
        ghost var m := Run(tokens[..i], file);
        ghost var next := Step(m, t, file);
        var token := t.token;
        if token == "{" {
          stack := stack + [name];
          name := "";
        }
        if token == "}" {
          if stack == [] {
            RunAfterFailure(tokens, i + 1, file);
            return false;
          }
          stack := stack[..|stack| - 1];
        }
        assert stack == StackAfter(m.stack, m.name, token);
        assert Run(tokens[..i + 1], file) == next;
        i := i + 1;
        if |stack| > 2 || (|stack| >= 1 && stack[0] != "Localization") {
          assert next.entries == m.entries;
          continue;
        }
        if '=' in token {
          if |stack| == 2 {
            var language := stack[1];
            AddToken(language, t, file);
            assert Run(tokens[..i], file).entries == before + [MakeEntry(language, t, file)];
            AddEntriesSnoc(old(phrases), before, MakeEntry(language, t, file));
          } else {
            assert Run(tokens[..i], file).entries == before + [] == before;
          }
        } else {
          assert next.entries == m.entries;
          name := Trim(token);
        }
      }
      assert tokens[..i] == tokens;
      return true;
    }

    /** The body of the `=` case: split the token at its first `=` and add the trimmed key and value. */
    method AddToken(language: string, t: LocatedToken, file: Path)
      requires '=' in t.token
      modifies this
      ensures phrases == AddEntry(old(phrases), MakeEntry(language, t, file))
      ensures files == old(files) && root == old(root)
    {
      var (k, v) := SplitOnce(t.token, '=');
      var location := SourceLocation(file, t.line, t.column + |k| + 1, t.column + |t.token|);
      assert Entry(language, Trim(k), Trim(v), location) == MakeEntry(language, t, file);
      Add(language, Trim(k), Trim(v), location);
    }

    /** AddLocalizationKeys(LexNodes(StreamLines(path)), path). */
    method Ingest(path: Path, disk: map<Path, seq<string>>) returns (outcome: Outcome)
      modifies this
      ensures (phrases, outcome) == AfterIngest(old(phrases), path, disk)
      ensures files == old(files) && root == old(root)
    {
      if path !in disk {
        return Unreadable;
      }
      var tokens := LexNodes(disk[path]);
      var balanced := AddLocalizationKeys(tokens, path);
      outcome := if balanced then Done else Unbalanced;
    }

    /**
     * Phrasebook.AddFile: a path seen before is ignored; otherwise it is
     * recorded, the root climbs until it is a base of the file's directory,
     * and the file is read.
     */
    method AddFile(path: Path, disk: map<Path, seq<string>>) returns (outcome: Outcome)
      requires path != []
      modifies this
      ensures (Model(), outcome) == AfterAddFile(old(Model()), path, disk)
    {
      if path in files {
        return Done;
      }
      files := files + {path};
      var directory := Directory(path);
      if root.None? {
        root := Some(directory);
      }
      ghost var start := root.value;
      var ancestor := root.value;
      while !(ancestor <= directory)
        invariant CommonPrefix(ancestor, directory) == CommonPrefix(start, directory)
        invariant phrases == old(phrases) && files == old(files) + {path} && root == Some(start)
        decreases |ancestor|
      {
        CommonPrefixClimb(ancestor, directory);
        ancestor := ancestor[..|ancestor| - 1];
      }
      CommonPrefixOfBase(ancestor, directory);
      root := Some(ancestor);
      outcome := Ingest(path, disk);
    }

    /** The RemoveAll loop of the refresh handlers: drop the file's versions from every phrase. */
    method RemoveVersionsOf(path: Path)
      modifies this
      ensures phrases == RemoveFile(old(phrases), path)
      ensures files == old(files) && root == old(root)
    {
      var pending := phrases.Keys;
      ghost var original := phrases;
      while pending != {}
        invariant pending <= original.Keys && phrases.Keys == original.Keys
        invariant forall name :: name in original && name !in pending ==>
          phrases[name] == Phrase(Without(original[name].versions, path))
        invariant forall name :: name in pending ==> phrases[name] == original[name]
        invariant files == old(files) && root == old(root)
        decreases pending
      {
        var name :| name in pending;
        phrases := phrases[name := Phrase(Without(phrases[name].versions, path))];
        pending := pending - {name};
      }
    }

    /** Phrasebook.RefreshFile: a change or creation event; the path is not checked against the files read. */
    method RefreshFile(path: Path, disk: map<Path, seq<string>>) returns (outcome: Outcome)
      modifies this
      ensures (Model(), outcome) == AfterRefresh(old(Model()), path, disk)
    {
      RemoveVersionsOf(path);
      outcome := Ingest(path, disk);
    }

    /** Phrasebook.RefreshRenamedFile: a rename event, acted on only for a file already read. */
    method RefreshRenamedFile(path: Path, disk: map<Path, seq<string>>) returns (outcome: Outcome)
      modifies this
      ensures (Model(), outcome) == AfterRefreshRenamed(old(Model()), path, disk)
    {
      if path !in files {
        return Done;
      }
      RemoveVersionsOf(path);
      outcome := Ingest(path, disk);
    }
  }

  /** Once a run has failed, later tokens change nothing. */
  lemma {:induction false} RunAfterFailure(tokens: seq<LocatedToken>, n: nat, file: Path)
    requires n <= |tokens| && Run(tokens[..n], file).failed
    ensures Run(tokens, file) == Run(tokens[..n], file)
    decreases |tokens| - n
  {
    if n < |tokens| {
      RunSnoc(tokens[..n], tokens[n], file);
      assert tokens[..n + 1] == tokens[..n] + [tokens[n]];
      RunAfterFailure(tokens, n + 1, file);
    } else {
      assert tokens[..n] == tokens;
    }
  }
}
