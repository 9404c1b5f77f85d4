/**
 * L10NQuickInfoSource: the editor hover that finds which phrase name the
 * mouse rests on, the initial load of the solution's `.cfg` files into the
 * shared phrasebook, and the count of live hover sources.
 */
module QuickInfo {
  import opened Strings
  import opened Phrases
  import opened PhrasebookIndex

  // ---- finding the phrase under the cursor ----

  /**
   * The key's first occurrence in the line covers the offset. An empty key
   * never covers anything, and a later occurrence is never looked at.
   */
  predicate Covers(text: string, key: string, offset: int) {
    |key| > 0 && var j := IndexOf(text, key, 0); j != -1 && j <= offset < j + |key|
  }

  /** The position, in enumeration order, of the first key that covers the offset. */
  function FirstCovering(keys: seq<string>, text: string, offset: int): (r: Option<nat>)
    ensures r.Some? ==>
      r.value < |keys| && Covers(text, keys[r.value], offset)
      && forall k :: 0 <= k < r.value ==> !Covers(text, keys[k], offset)
    ensures r.None? ==> forall k :: 0 <= k < |keys| ==> !Covers(text, keys[k], offset)
  {
    if keys == [] then None
    else if Covers(text, keys[0], offset) then Some(0)
    else match FirstCovering(keys[1..], text, offset)
      case None => None
      case Some(i) => Some(i + 1)
  }

  /** The phrase shown for a trigger point: none without a point, else the first covering key's phrase. */
  function Lookup(phrases: map<string, Phrase>, keys: seq<string>, text: string, point: Option<int>): Option<(string, Phrase)>
    requires forall k :: k in keys ==> k in phrases
  {
    if point.None? then None
    else match FirstCovering(keys, text, point.value)
      case None => None
      case Some(i) => Some((keys[i], phrases[keys[i]]))
  }

  /** A key covers the offset exactly when it is nonempty and its leftmost occurrence spans the offset. */
  lemma CoversMeaning(text: string, key: string, offset: int)
    ensures Covers(text, key, offset) <==>
      |key| > 0 && exists j :: (OccursAt(text, key, j) && j <= offset < j + |key|
        && forall i :: 0 <= i < j ==> !OccursAt(text, key, i))
  {
    var j := IndexOf(text, key, 0);
    if |key| > 0 && j != -1 {
      assert OccursAt(text, key, j) && forall i :: 0 <= i < j ==> !OccursAt(text, key, i);
      if !(j <= offset < j + |key|) {
        forall j' | OccursAt(text, key, j') && j' <= offset < j' + |key|
          ensures exists i :: 0 <= i < j' && OccursAt(text, key, i)
        {
          assert j < j';
        }
      }
    }
  }

  /** Only the first occurrence counts: the second `ab` of `ab ab` does not cover offset 3. */
  lemma FirstOccurrenceOnly()
    ensures OccursAt("ab ab", "ab", 3) && 3 <= 3 < 3 + |"ab"|
    ensures !Covers("ab ab", "ab", 3)
  {
    var text := "ab ab";
    assert text[0..2] == "ab";
    assert IndexOf(text, "ab", 0) == 0;
    assert text[3..5] == "ab";
  }

  // ---- the initial load ----

  /** file.FullPath.EndsWith(".cfg") on the path's last segment. */
  predicate IsCfg(path: Path) {
    path != [] && EndsWith(path[|path| - 1], ".cfg")
  }

  lemma JoinSnoc(init: seq<string>, last: string, c: char)
    requires init != []
    ensures Join(init + [last], c) == Join(init, c) + [c] + last
    decreases |init|
  {
    if |init| == 1 {
      assert (init + [last])[1..] == [last];
    } else {
      assert (init + [last])[1..] == init[1..] + [last];
      JoinSnoc(init[1..], last, c);
    }
  }

  /** A string ending in a separator and then `last` ends in `.cfg` exactly when `last` does. */
  lemma CfgAfterSeparator(head: string, last: string)
    ensures EndsWith(head + ['\\'] + last, ".cfg") <==> EndsWith(last, ".cfg")
  {
    var full := head + ['\\'] + last;
    var n := |full|;
    if |last| >= 4 {
      assert full[n - 4..] == last[|last| - 4..];
    } else if n >= 4 {
      var tail := full[n - 4..];
      assert tail[3 - |last|] == full[n - |last| - 1] == '\\';
      assert tail != ".cfg";
    }
  }

  /**
   * The full path, its segments joined by the directory separator, ends in
   * `.cfg` exactly when its last segment does.
   */
  lemma CfgFullPath(path: Path)
    requires path != []
    ensures EndsWith(Join(path, '\\'), ".cfg") <==> IsCfg(path)
  {
    if |path| > 1 {
      var init, last := path[..|path| - 1], path[|path| - 1];
      assert path == init + [last];
      JoinSnoc(init, last, '\\');
      CfgAfterSeparator(Join(init, '\\'), last);
    }
  }

  /**
   * The load loop on a snapshot: each `.cfg` path is added in turn; the
   * first failure ends the loop and is kept, the later paths are skipped.
   */
  function AfterLoad(book: Book, candidates: seq<Path>, disk: map<Path, seq<string>>): (Book, Option<Outcome>)
    decreases |candidates|
  {
    if candidates == [] then (book, None)
    else if !IsCfg(candidates[0]) then AfterLoad(book, candidates[1..], disk)
    else
      var (after, outcome) := AfterAddFile(book, candidates[0], disk);
      if outcome != Done then (after, Some(outcome)) else AfterLoad(after, candidates[1..], disk)
  }

  /** Only `.cfg` candidates are added, and after a load without failure every one of them is tracked. */
  lemma {:induction false} LoadTracks(book: Book, candidates: seq<Path>, disk: map<Path, seq<string>>)
    ensures var (after, err) := AfterLoad(book, candidates, disk);
      book.files <= after.files
      && (forall f :: f in after.files ==> f in book.files || (f in candidates && IsCfg(f)))
      && (err.None? ==> forall c :: c in candidates && IsCfg(c) ==> c in after.files)
    decreases |candidates|
  {
    if candidates != [] {
      var rest := candidates[1..];
      assert forall c :: c in candidates <==> c == candidates[0] || c in rest;
      if !IsCfg(candidates[0]) {
        LoadTracks(book, rest, disk);
      } else {
        var (added, outcome) := AfterAddFile(book, candidates[0], disk);
        AddFileOnce(book, candidates[0], disk);
        if outcome == Done {
          LoadTracks(added, rest, disk);
        }
      }
    }
  }

  /** A load keeps the root the deepest common ancestor of the directories of the files read. */
  lemma {:induction false} LoadValid(book: Book, candidates: seq<Path>, disk: map<Path, seq<string>>)
    requires Valid(book)
    ensures Valid(AfterLoad(book, candidates, disk).0)
    decreases |candidates|
  {
    if candidates != [] && IsCfg(candidates[0]) {
      AddFileValid(book, candidates[0], disk);
      LoadValid(AfterAddFile(book, candidates[0], disk).0, candidates[1..], disk);
    } else if candidates != [] {
      LoadValid(book, candidates[1..], disk);
    }
  }

  /** Loading files that are all tracked already changes nothing. */
  lemma {:induction false} LoadTracked(book: Book, candidates: seq<Path>, disk: map<Path, seq<string>>)
    requires forall c :: c in candidates && IsCfg(c) ==> c in book.files
    ensures AfterLoad(book, candidates, disk) == (book, None)
    decreases |candidates|
  {
    if candidates != [] {
      assert forall c :: c in candidates[1..] ==> c in candidates;
      LoadTracked(book, candidates[1..], disk);
    }
  }

  /** A load that ends without failure, repeated, changes nothing. */
  lemma LoadIdempotent(book: Book, candidates: seq<Path>, disk: map<Path, seq<string>>)
    requires AfterLoad(book, candidates, disk).1.None?
    ensures var after := AfterLoad(book, candidates, disk).0;
      AfterLoad(after, candidates, disk) == (after, None)
  {
    LoadTracks(book, candidates, disk);
    LoadTracked(AfterLoad(book, candidates, disk).0, candidates, disk);
  }

  /** The constructor's load loop: add every `.cfg` file until the first failure, which is returned. */
  method LoadSolutionFiles(book: Phrasebook, candidates: seq<Path>, disk: map<Path, seq<string>>) returns (err: Option<Outcome>)
    modifies book
    ensures (book.Model(), err) == AfterLoad(old(book.Model()), candidates, disk)
  {
    var i := 0;
    while i < |candidates|
      invariant 0 <= i <= |candidates|
      invariant AfterLoad(book.Model(), candidates[i..], disk) == AfterLoad(old(book.Model()), candidates, disk)
    {
      var path := candidates[i];
      assert candidates[i..][1..] == candidates[i + 1..];
      if IsCfg(path) {
        var outcome := book.AddFile(path, disk);
        if outcome != Done {
          return Some(outcome);
        }
      }
      i := i + 1;
    }
    return None;
  }

  // ---- the live-instance count ----

  /** instance_count_, shared by all hover sources; the ghost set holds the sources not yet disposed. */
  class InstanceCount {
    var count: int
    ghost var live: set<object>

    ghost predicate Valid()
      reads this
    {
      count == |live|
    }

    constructor()
      ensures Valid() && live == {}
    {
      count := 0;
      live := {};
    }
  }

  class QuickInfoSource {
    const counter: InstanceCount
    const book: Phrasebook
    var isDisposed: bool

    /** The count counts this source exactly while it is not disposed. */
    ghost predicate Valid()
      reads this, counter
    {
      counter.Valid() && (this in counter.live <==> !isDisposed)
    }

    /** Counts the new source, then loads the solution's `.cfg` files; a failure is kept and never read. */
    constructor(counter: InstanceCount, book: Phrasebook, candidates: seq<Path>, disk: map<Path, seq<string>>)
      requires counter.Valid()
      modifies counter, book
      ensures this.counter == counter && this.book == book
      ensures Valid() && !isDisposed
      ensures counter.count == old(counter.count) + 1 && counter.live == old(counter.live) + {this}
      ensures book.Model() == AfterLoad(old(book.Model()), candidates, disk).0
    {
      this.counter := counter;
      this.book := book;
      isDisposed := false;
      new;
      counter.count := counter.count + 1;
      counter.live := counter.live + {this};
      var err := LoadSolutionFiles(book, candidates, disk);
    }

    /** Uncounts the source the first time only; later calls change nothing. */
    method Dispose()
      requires Valid()
      modifies this, counter
      ensures Valid() && isDisposed
      ensures counter.count == old(counter.count) - (if old(isDisposed) then 0 else 1)
      ensures counter.live == old(counter.live) - {this}
    {
      if !isDisposed {
        counter.count := counter.count - 1;
        counter.live := counter.live - {this};
        isDisposed := true;
      }
    }

    /**
     * GetQuickInfoItemAsync: for each key in enumeration order, look for its
     * first occurrence in the line and return the key and its phrase when that
     * occurrence spans the trigger point's offset in the line.
     */
    method GetQuickInfoItem(point: Option<int>, text: string, keys: seq<string>) returns (r: Option<(string, Phrase)>)
      requires forall k :: k in keys <==> k in book.phrases
      ensures r == Lookup(book.phrases, keys, text, point)
    {
      if point.None? {
        return None;
      }
      var offset := point.value;
      var i := 0;
      while i < |keys|
        invariant 0 <= i <= |keys|
        invariant forall k :: 0 <= k < i ==> !Covers(text, keys[k], offset)
      {
        var key := keys[i];
        var foundIndex := 0;
        while foundIndex < |key|
          invariant foundIndex == 0 || (foundIndex >= |key| && !Covers(text, key, offset))
          decreases |key| - foundIndex
        {
          foundIndex := IndexOf(text, key, foundIndex);
          if foundIndex == -1 {
            break;
          }
          if foundIndex <= offset < foundIndex + |key| {
            FirstCoveringAt(keys, text, offset, i);
            return Some((key, book.phrases[key]));
          }
          foundIndex := foundIndex + |key|;
        }
        i := i + 1;
      }
      return None;
    }
  }

  /** When no earlier key covers the offset, the first covering key is the one at `i`. */
  lemma {:induction false} FirstCoveringAt(keys: seq<string>, text: string, offset: int, i: nat)
    requires i < |keys| && Covers(text, keys[i], offset)
    requires forall k :: 0 <= k < i ==> !Covers(text, keys[k], offset)
    ensures FirstCovering(keys, text, offset) == Some(i)
    decreases i
  {
    if i > 0 {
      var rest := keys[1..];
      assert forall k :: 0 <= k < i - 1 ==> rest[k] == keys[k + 1];
      FirstCoveringAt(rest, text, offset, i - 1);
    }
  }
}
