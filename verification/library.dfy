/**
 * The game-library view model: the scan folders read from the
 * configuration, the folder scan that imports every game image it finds,
 * the single-file add, and the full listing. The filesystem is an input:
 * for every folder that exists, the paths its recursive glob lists.
 */
module GameLibrary {
  import opened GameModel
  import opened GameTable
  import opened Database
  import Text
  import Config
  import FolderList

  /** For each existing folder, the file paths found anywhere below it, in enumeration order. */
  type FileSystem = map<string, seq<string>>

  /** The scan's glob patterns *.iso, *.xex and *.elf, as the suffixes they require, in the order scanned. */
  const GameSuffixes: seq<string> := [".iso", ".xex", ".elf"]

  /** rglob('*' + suffix) matches a file whose name ends in the suffix (case-sensitively). */
  predicate MatchesSuffix(file: string, suffix: string) {
    Text.EndsWith(Text.Name(file), suffix)
  }

  predicate IsGameFile(file: string) {
    MatchesSuffix(file, ".iso") || MatchesSuffix(file, ".xex") || MatchesSuffix(file, ".elf")
  }

  /** folder.rglob('*' + suffix): the files below the folder that match, in enumeration order. */
  function Matching(files: seq<string>, suffix: string): (r: seq<string>)
    ensures forall f :: f in r <==> f in files && MatchesSuffix(f, suffix)
  {
    if files == [] then []
    else
      var init := files[..|files| - 1];
      var last := files[|files| - 1];
      assert files == init + [last];
      Matching(init, suffix) + (if MatchesSuffix(last, suffix) then [last] else [])
  }

  /** The files one existing folder contributes: all its .iso files, then its .xex files, then its .elf files. */
  function FolderMatches(files: seq<string>, suffixes: seq<string>): (r: seq<string>)
    ensures forall f | f in r :: f in files && exists s | s in suffixes :: MatchesSuffix(f, s)
  {
    if suffixes == [] then []
    else FolderMatches(files, suffixes[..|suffixes| - 1]) + Matching(files, suffixes[|suffixes| - 1])
  }

  /** A folder contributes exactly its files that match one of the patterns. */
  lemma {:induction false} FolderMatchesMembers(files: seq<string>, suffixes: seq<string>)
    ensures forall f :: f in FolderMatches(files, suffixes) <==> f in files && exists s | s in suffixes :: MatchesSuffix(f, s)
  {
    if suffixes != [] {
      var init := suffixes[..|suffixes| - 1];
      var last := suffixes[|suffixes| - 1];
      assert suffixes == init + [last];
      FolderMatchesMembers(files, init);
    }
  }

  /** The pattern loop's step: one more pattern appends that pattern's matches. */
  lemma FolderMatchesStep(files: seq<string>, suffixes: seq<string>, j: nat)
    requires j < |suffixes|
    ensures FolderMatches(files, suffixes[..j + 1]) == FolderMatches(files, suffixes[..j]) + Matching(files, suffixes[j])
  {
    assert suffixes[..j + 1][..j] == suffixes[..j];
  }

  /** Every path the scan tries to insert, in order; folders that do not exist contribute nothing. */
  function ScanCandidates(folders: seq<string>, fs: FileSystem): (r: seq<string>)
    ensures forall f | f in r :: IsGameFile(f)
  {
    if folders == [] then []
    else
      GameSuffixesOnly();
      var last := folders[|folders| - 1];
      ScanCandidates(folders[..|folders| - 1], fs) + (if last in fs then FolderMatches(fs[last], GameSuffixes) else [])
  }

  lemma GameSuffixesOnly()
    ensures forall f | exists s | s in GameSuffixes :: MatchesSuffix(f, s) :: IsGameFile(f)
  {
    forall f | exists s | s in GameSuffixes :: MatchesSuffix(f, s) ensures IsGameFile(f) {
      GameSuffixMatch(f);
    }
  }

  /** The file lies below one of the folders that exist. */
  predicate FoundUnder(folders: seq<string>, fs: FileSystem, file: string) {
    exists i | 0 <= i < |folders| :: folders[i] in fs && file in fs[folders[i]]
  }

  lemma GameSuffixMatch(f: string)
    ensures (exists s | s in GameSuffixes :: MatchesSuffix(f, s)) <==> IsGameFile(f)
  {
    if IsGameFile(f) {
      if MatchesSuffix(f, ".iso") {
        assert GameSuffixes[0] == ".iso";
      } else if MatchesSuffix(f, ".xex") {
        assert GameSuffixes[1] == ".xex";
      } else {
        assert GameSuffixes[2] == ".elf";
      }
    }
  }

  /** The scan tries exactly the game files found below the existing scan folders. */
  lemma {:induction false} ScanCandidatesExactly(folders: seq<string>, fs: FileSystem)
    ensures forall f :: f in ScanCandidates(folders, fs) <==> FoundUnder(folders, fs, f) && IsGameFile(f)
  {
    if folders != [] {
      var init, last := folders[..|folders| - 1], folders[|folders| - 1];
      ScanCandidatesExactly(init, fs);
      if last in fs {
        FolderMatchesMembers(fs[last], GameSuffixes);
      }
      forall f ensures f in ScanCandidates(folders, fs) <==> FoundUnder(folders, fs, f) && IsGameFile(f) {
        GameSuffixMatch(f);
        FoundUnderStep(folders, fs, f);
      }
    }
  }

  lemma FoundUnderStep(folders: seq<string>, fs: FileSystem, f: string)
    requires folders != []
    ensures var init, last := folders[..|folders| - 1], folders[|folders| - 1];
      FoundUnder(folders, fs, f) <==> FoundUnder(init, fs, f) || (last in fs && f in fs[last])
  {
    var init := folders[..|folders| - 1];
    if FoundUnder(folders, fs, f) {
      var i :| 0 <= i < |folders| && folders[i] in fs && f in fs[folders[i]];
      if i < |init| {
        assert init[i] == folders[i];
      }
    }
    if FoundUnder(init, fs, f) {
      var i :| 0 <= i < |init| && init[i] in fs && f in fs[init[i]];
      assert folders[i] == init[i];
    }
  }

  lemma {:induction false} ScanCandidatesAppend(a: seq<string>, b: seq<string>, fs: FileSystem)
    ensures ScanCandidates(a + b, fs) == ScanCandidates(a, fs) + ScanCandidates(b, fs)
    decreases |b|
  {
    if b == [] {
      assert a + b == a;
    } else {
      var b', last := b[..|b| - 1], b[|b| - 1];
      var extra := if last in fs then FolderMatches(fs[last], GameSuffixes) else [];
      assert (a + b)[..|a + b| - 1] == a + b' && (a + b)[|a + b| - 1] == last;
      assert ScanCandidates(a + b, fs) == ScanCandidates(a + b', fs) + extra;
      assert ScanCandidates(b, fs) == ScanCandidates(b', fs) + extra;
      ScanCandidatesAppend(a, b', fs);
    }
  }

  /** A configured folder that does not exist is skipped: the scan is the scan of the other folders. */
  lemma MissingFolderSkipped(before: seq<string>, missing: string, after: seq<string>, fs: FileSystem)
    requires missing !in fs
    ensures ScanCandidates(before + [missing] + after, fs) == ScanCandidates(before + after, fs)
  {
    ScanCandidatesAppend(before + [missing], after, fs);
    ScanCandidatesAppend(before, [missing], fs);
    ScanCandidatesAppend(before, after, fs);
    assert ScanCandidates([missing], fs) == [] by {
      assert [missing][..0] == [];
    }
  }

  /** The effect of a scan on the table. */
  function Scan(t: Table, folders: seq<string>, fs: FileSystem): (r: Table)
    requires WellFormed(t)
    ensures WellFormed(r)
  {
    InsertAll(t, ScanCandidates(folders, fs))
  }

  /**
   * What a scan adds: every game file below an existing scan folder has a
   * row afterwards; the rows already there are kept unchanged and in place;
   * every added row is for a game file below an existing scan folder (never,
   * say, a readme.txt), titled with its stem, with play_count 0, no cover
   * and no last_played.
   */
  lemma ScanEffect(t: Table, folders: seq<string>, fs: FileSystem)
    requires WellFormed(t)
    ensures forall f | FoundUnder(folders, fs, f) && IsGameFile(f) :: HasPath(Scan(t, folders, fs).rows, f)
    ensures |t.rows| <= |Scan(t, folders, fs).rows|
    ensures Scan(t, folders, fs).rows[..|t.rows|] == t.rows
    ensures forall k | |t.rows| <= k < |Scan(t, folders, fs).rows| ::
              var e := Scan(t, folders, fs).rows[k];
              && FoundUnder(folders, fs, e.filePath) && IsGameFile(e.filePath)
              && AddedFor(e, ScanCandidates(folders, fs), t.lastId)
  {
    var c := ScanCandidates(folders, fs);
    ScanCandidatesExactly(folders, fs);
    InsertAllCovers(t, c);
    InsertAllExtends(t, c);
  }

  /** Scanning twice over an unchanged filesystem adds nothing the second time. */
  lemma ScanIdempotent(t: Table, folders: seq<string>, fs: FileSystem)
    requires WellFormed(t)
    ensures Scan(Scan(t, folders, fs), folders, fs) == Scan(t, folders, fs)
  {
    InsertAllIdempotent(t, ScanCandidates(folders, fs));
  }

  /** The insert loop's step: one more file inserts that file after the others. */
  lemma InsertAllStep(t: Table, files: seq<string>, k: nat)
    requires WellFormed(t) && k < |files|
    ensures InsertAll(t, files[..k + 1]) == Insert(InsertAll(t, files[..k]), Text.Stem(files[k]), files[k])
  {
    assert files[..k + 1][..k] == files[..k];
  }

  /** The scan paths: the configured string split on ';' with empty pieces dropped, in order. */
  function ScanPathsOf(c: Config.Config): (r: seq<string>)
    ensures forall p :: p in r <==> p != "" && p in FolderList.Split(Config.GetOr(c, "library", "scan_folders", ""))
    ensures Config.Get(c, "library", "scan_folders").None? ==> r == []
  {
    FolderList.Parse(Config.GetOr(c, "library", "scan_folders", ""))
  }

  class GameLibraryViewModel {
    const scanPaths: seq<string>
    const store: Store

    constructor (config: Config.Config, store: Store)
      ensures scanPaths == ScanPathsOf(config)
      ensures forall p | p in scanPaths :: p != ""
      ensures this.store == store
    {
      scanPaths := ScanPathsOf(config);
      this.store := store;
    }

    /**
     * scan_library: for each existing folder, for each pattern, insert every
     * matching file with its stem as title; files already known are skipped.
     */
    method ScanLibrary(fs: FileSystem)
      requires store.Ready()
      modifies store
      ensures store.Ready()
      ensures store.State() == Scan(old(store.State()), scanPaths, fs)
    {
      ghost var start := store.State();
      var i := 0;
      while i < |scanPaths|
        invariant 0 <= i <= |scanPaths|
        invariant store.Ready()
        invariant store.State() == InsertAll(start, ScanCandidates(scanPaths[..i], fs))
      {
        var folder := scanPaths[i];
        ghost var done := ScanCandidates(scanPaths[..i], fs);
        assert scanPaths[..i + 1][..i] == scanPaths[..i];
        if folder in fs {
          ScanFolder(fs[folder]);
          InsertAllAppend(start, done, FolderMatches(fs[folder], GameSuffixes));
          assert ScanCandidates(scanPaths[..i + 1], fs) == done + FolderMatches(fs[folder], GameSuffixes);
        } else {
          assert ScanCandidates(scanPaths[..i + 1], fs) == done + [];
          assert done + [] == done;
        }
        i := i + 1;
      }
      assert scanPaths[..i] == scanPaths;
    }

    /** The body of the folder loop for a folder that exists: each pattern in turn. */
    method ScanFolder(files: seq<string>)
      requires store.Ready()
      modifies store
      ensures store.Ready()
      ensures store.State() == InsertAll(old(store.State()), FolderMatches(files, GameSuffixes))
    {
      ghost var start := store.State();
      var j := 0;
      while j < |GameSuffixes|
        invariant 0 <= j <= |GameSuffixes|
        invariant store.Ready()
        invariant store.State() == InsertAll(start, FolderMatches(files, GameSuffixes[..j]))
      {
        var matches := Matching(files, GameSuffixes[j]);
        InsertEach(matches);
        InsertAllAppend(start, FolderMatches(files, GameSuffixes[..j]), matches);
        FolderMatchesStep(files, GameSuffixes, j);
        j := j + 1;
      }
      assert GameSuffixes[..j] == GameSuffixes;
    }

    /** The innermost loop: insert each globbed file, its IntegrityError swallowed. */
    method InsertEach(files: seq<string>)
      requires store.Ready()
      modifies store
      ensures store.Ready()
      ensures store.State() == InsertAll(old(store.State()), files)
    {
      ghost var start := store.State();
      var k := 0;
      while k < |files|
        invariant 0 <= k <= |files|
        invariant store.Ready()
        invariant store.State() == InsertAll(start, files[..k])
      {
        var file := files[k];
        InsertAllStep(start, files, k);
        var _ := store.InsertGame(Text.Stem(file), file);
        k := k + 1;
      }
      assert files[..k] == files;
    }

    /** add_game: insert one file with its stem as title; a known path is silently skipped. */
    method AddGame(path: string)
      requires store.Ready()
      modifies store
      ensures store.Ready()
      ensures store.State() == Insert(old(store.State()), Text.Stem(path), path)
    {
      var _ := store.InsertGame(Text.Stem(path), path);
    }

    /** get_all_games: every row once per stored copy, sorted by title. */
    method GetAllGames() returns (games: seq<GameEntry>)
      requires store.Ready()
      ensures SortedByTitle(games)
      ensures multiset(games) == multiset(store.rows)
    {
      games := store.SelectAllByTitle();
    }
  }
}
