/**
 * The main window: its view model (cover size, title visibility, view mode
 * and search filter persisted in or derived from the configuration) and the
 * view's grid population, driven by the search bar and the cover-size slider.
 */
module MainWindow {
  import opened Wrappers
  import opened Config
  import opened GameModel
  import opened GameTable
  import opened Database
  import opened GameLibrary
  import opened Presentation

  /**
   * _load_cover_width: [ui] cover_width read as an integer, 300 when the
   * section or the key is missing; None stands for the ValueError getint
   * raises on a value that is not an integer.
   */
  function LoadCoverWidth(c: Config): (r: Option<int>)
    ensures Get(c, "ui", "cover_width") == None ==> r == Some(DefaultCoverWidth)
    ensures Get(c, "ui", "cover_width").Some? ==> r == ParseInt(Get(c, "ui", "cover_width").value)
  {
    if "ui" !in c then Some(DefaultCoverWidth)
    else match Get(c, "ui", "cover_width")
      case None => Some(DefaultCoverWidth)
      case Some(v) => ParseInt(v)
  }

  /** getboolean('appearance', 'show_titles', fallback=True); None stands for the ValueError on an unknown word. */
  function LoadShowTitles(c: Config): (r: Option<bool>)
    ensures Get(c, "appearance", "show_titles") == None ==> r == Some(true)
    ensures Get(c, "appearance", "show_titles").Some? ==> r == ParseBool(Get(c, "appearance", "show_titles").value)
  {
    match Get(c, "appearance", "show_titles")
    case None => Some(true)
    case Some(v) => ParseBool(v)
  }

  /** A width saved by save_cover_width is the width loaded next time. */
  lemma LoadSavedCoverWidth(c: Config, width: int)
    ensures LoadCoverWidth(Set(c, "ui", "cover_width", FormatInt(width))) == Some(width)
  {
    ParseFormatInt(width);
  }

  /** A flag saved by set_show_titles is the flag loaded next time. */
  lemma LoadSavedShowTitles(c: Config, show: bool)
    ensures LoadShowTitles(Set(c, "appearance", "show_titles", FormatBool(show))) == Some(show)
  {
  }

  /** GameLibraryViewModel() followed by scan_library(), as both windows open. */
  method OpenLibrary(config: Config, store: Store, fs: FileSystem) returns (library: GameLibraryViewModel)
    requires store.Ready()
    modifies store
    ensures library.store == store && library.scanPaths == ScanPathsOf(config)
    ensures store.Ready()
    ensures store.State() == Scan(old(store.State()), ScanPathsOf(config), fs)
  {
    library := new GameLibraryViewModel(config, store);
    library.ScanLibrary(fs);
  }

  class MainWindowViewModel {
    /** The parsed config.ini; writing it back to disk is not modelled. */
    var config: Config
    var coverWidth: int
    var coverHeight: int
    var showTitles: bool
    var listMode: bool
    var currentFilter: string
    var allGames: seq<GameEntry>
    const library: GameLibraryViewModel

    /**
     * Loads the settings, scans the configured folders and lists the
     * library. The source raises when cover_width or show_titles does not
     * parse, so both are required to.
     */
    constructor (config: Config, store: Store, fs: FileSystem)
      requires store.Ready()
      requires LoadCoverWidth(config).Some? && LoadShowTitles(config).Some?
      modifies store
      ensures this.config == config
      ensures coverWidth == LoadCoverWidth(config).value && coverHeight == CoverHeight(coverWidth)
      ensures showTitles == LoadShowTitles(config).value
      ensures !listMode && currentFilter == ""
      ensures library.store == store && library.scanPaths == ScanPathsOf(config)
      ensures store.Ready()
      ensures store.State() == Scan(old(store.State()), ScanPathsOf(config), fs)
      ensures SortedByTitle(allGames) && multiset(allGames) == multiset(store.rows)
    {
      var lib := OpenLibrary(config, store, fs);
      var games := lib.GetAllGames();
      this.config := config;
      coverWidth := LoadCoverWidth(config).value;
      coverHeight := CoverHeight(LoadCoverWidth(config).value);
      showTitles := LoadShowTitles(config).value;
      listMode := false;
      currentFilter := "";
      library := lib;
      allGames := games;
    }

    /** save_cover_width: persists the width; the height follows it and the width reads back. */
    method SaveCoverWidth(newWidth: int)
      modifies this`config, this`coverWidth, this`coverHeight
      ensures config == Set(old(config), "ui", "cover_width", FormatInt(newWidth))
      ensures coverWidth == newWidth && coverHeight == CoverHeight(newWidth)
      ensures LoadCoverWidth(config) == Some(newWidth)
    {
      config := Set(config, "ui", "cover_width", FormatInt(newWidth));
      coverWidth := newWidth;
      coverHeight := CoverHeight(newWidth);
      LoadSavedCoverWidth(old(config), newWidth);
    }

    /** set_show_titles: persists str(show) and the flag reads back. */
    method SetShowTitles(show: bool)
      modifies this`config, this`showTitles
      ensures config == Set(old(config), "appearance", "show_titles", FormatBool(show))
      ensures showTitles == show
      ensures LoadShowTitles(config) == Some(show)
    {
      config := Set(config, "appearance", "show_titles", FormatBool(show));
      showTitles := show;
      LoadSavedShowTitles(old(config), show);
    }

    /** set_list_mode changes list_mode and nothing else. */
    method SetListMode(isList: bool)
      modifies this`listMode
      ensures listMode == isList
    {
      listMode := isList;
    }

    /** set_filter stores the search text lower-cased and stripped. */
    method SetFilter(filterText: string)
      modifies this`currentFilter
      ensures currentFilter == NormalizeFilter(filterText)
    {
      currentFilter := NormalizeFilter(filterText);
    }

    /** refresh_games: scan again, then list the library again. */
    method RefreshGames(fs: FileSystem)
      requires library.store.Ready()
      modifies library.store, this`allGames
      ensures library.store.Ready()
      ensures library.store.State() == Scan(old(library.store.State()), library.scanPaths, fs)
      ensures SortedByTitle(allGames) && multiset(allGames) == multiset(library.store.rows)
    {
      library.ScanLibrary(fs);
      allGames := library.GetAllGames();
    }

    /** get_filtered_games: the listed games that pass the current filter, in listing order. */
    function GetFilteredGames(): (r: seq<GameEntry>)
      reads this
      ensures forall g :: g in r <==> g in allGames && Matches(g, currentFilter)
      ensures SubsequenceOf(r, allGames)
    {
      FilteredGamesMembers(allGames, currentFilter);
      FilteredGamesSubsequence(allGames, currentFilter);
      FilteredGames(allGames, currentFilter)
    }
  }

  /**
   * The grid shows the games of some listing of rows sorted by title that
   * pass the normalised search text, laid out in cols columns.
   */
  ghost predicate GridShows(grid: Grid, rows: seq<GameEntry>, searchText: string, cols: int)
    requires cols >= 1
  {
    exists games: seq<GameEntry> ::
      ListingOf(games, rows) &&
      grid == GridOf(FilteredGames(games, NormalizeFilter(searchText)), NormalizeFilter(searchText), cols)
  }

  /** games is what SELECT ... ORDER BY title returns for rows: the same rows, sorted by title. */
  predicate ListingOf(games: seq<GameEntry>, rows: seq<GameEntry>) {
    SortedByTitle(games) && multiset(games) == multiset(rows)
  }

  lemma ListingMembers(games: seq<GameEntry>, rows: seq<GameEntry>)
    requires ListingOf(games, rows)
    ensures forall e :: e in games <==> e in rows
  {
    forall e ensures e in games <==> e in rows {
      assert e in games <==> e in multiset(games);
    }
  }

  /**
   * The grid built from a listing sorted by title of the given rows: its
   * placeholder, its covers and their order.
   */
  lemma GridOfListing(games: seq<GameEntry>, rows: seq<GameEntry>, text: string, cols: int)
    requires cols >= 1 && SortedByTitle(games)
    requires forall e :: e in games <==> e in rows
    ensures var grid := GridOf(FilteredGames(games, text), text, cols);
      && (grid.Placeholder? <==> (forall e | e in rows :: !Matches(e, text)))
      && (grid.Cells? ==> forall k | 0 <= k < |grid.cells| :: grid.cells[k].game in rows && Matches(grid.cells[k].game, text))
      && (grid.Cells? ==> forall e | e in rows && Matches(e, text) :: exists k | 0 <= k < |grid.cells| :: grid.cells[k].game == e)
      && (grid.Cells? ==> forall i, j | 0 <= i < j < |grid.cells| :: TitleLe(grid.cells[i].game.title, grid.cells[j].game.title))
  {
    var shown := FilteredGames(games, text);
    var grid := GridOf(shown, text, cols);
    FilteredGamesMembers(games, text);
    FilteredGamesSorted(games, text);
    if grid.Cells? {
      assert shown[0] in shown;
      forall e | e in rows && Matches(e, text) ensures exists k | 0 <= k < |grid.cells| :: grid.cells[k].game == e {
        var k :| 0 <= k < |shown| && shown[k] == e;
        assert grid.cells[k].game == e;
      }
      forall k | 0 <= k < |grid.cells| ensures grid.cells[k].game in rows && Matches(grid.cells[k].game, text) {
        assert grid.cells[k].game == shown[k] && shown[k] in shown;
      }
      forall i, j | 0 <= i < j < |grid.cells| ensures TitleLe(grid.cells[i].game.title, grid.cells[j].game.title) {
        assert grid.cells[i].game == shown[i] && grid.cells[j].game == shown[j];
      }
    }
  }

  /** Cell k of a grid of covers sits at row k div cols and column k mod cols. */
  lemma GridPositions(shown: seq<GameEntry>, text: string, cols: int)
    requires cols >= 1 && shown != []
    ensures var cells := GridOf(shown, text, cols).cells;
      forall k | 0 <= k < |cells| :: cells[k].row == k / cols && cells[k].col == k % cols
  {
    var cells := GridOf(shown, text, cols).cells;
    forall k | 0 <= k < |cells| ensures cells[k].row == k / cols && cells[k].col == k % cols {
      DivModUnique(k, cols, cells[k].row, cells[k].col);
    }
  }

  /**
   * What the user sees after populate_grid: the placeholder exactly when no
   * row passes the search (with the message chosen by whether there is
   * search text); otherwise every passing row and nothing else, sorted by
   * title, the k-th at row k div cols, column k mod cols.
   */
  lemma GridShowsContents(grid: Grid, rows: seq<GameEntry>, searchText: string, cols: int)
    requires cols >= 1 && GridShows(grid, rows, searchText, cols)
    ensures grid.Placeholder? <==> (forall e | e in rows :: !Matches(e, NormalizeFilter(searchText)))
    ensures grid.Placeholder? ==>
              grid.message == (if NormalizeFilter(searchText) != [] then NoMatchMessage else EmptyLibraryMessage)
    ensures grid.Cells? ==> forall k | 0 <= k < |grid.cells| ::
              grid.cells[k].game in rows && Matches(grid.cells[k].game, NormalizeFilter(searchText))
    ensures grid.Cells? ==> forall e | e in rows && Matches(e, NormalizeFilter(searchText)) ::
              exists k | 0 <= k < |grid.cells| :: grid.cells[k].game == e
    ensures grid.Cells? ==> forall i, j | 0 <= i < j < |grid.cells| ::
              TitleLe(grid.cells[i].game.title, grid.cells[j].game.title)
    ensures grid.Cells? ==> forall k | 0 <= k < |grid.cells| ::
              grid.cells[k].row == k / cols && grid.cells[k].col == k % cols
  {
    var text := NormalizeFilter(searchText);
    var games: seq<GameEntry> :| ListingOf(games, rows) && grid == GridOf(FilteredGames(games, text), text, cols);
    ListingMembers(games, rows);
    GridOfListing(games, rows, text, cols);
    if grid.Cells? {
      GridPositions(FilteredGames(games, text), text, cols);
    }
  }

  /**
   * The body of populate_grid after the widgets are cleared: list all
   * games, keep those passing the search text, and place them.
   */
  method BuildGrid(library: GameLibraryViewModel, searchText: string, coverWidth: int, viewportWidth: int)
    returns (grid: Grid)
    requires library.store.Ready() && coverWidth + Spacing > 0
    ensures GridShows(grid, library.store.rows, searchText, ColumnCount(viewportWidth, Spacing, coverWidth))
  {
    var games := library.GetAllGames();
    var text := NormalizeFilter(searchText);
    var shown := FilteredGames(games, text);
    var cols := ColumnCount(viewportWidth, Spacing, coverWidth);
    grid := LayoutGrid(shown, text, cols);
  }

  class MainWindowView {
    var showTitles: bool
    var listMode: bool
    var coverWidth: int
    var coverHeight: int
    /** The search bar's current text. */
    var searchText: string
    /** What the grid currently holds. */
    var grid: Grid
    const library: GameLibraryViewModel

    /** The slider keeps the width within its range and the height follows the width. */
    predicate Valid()
      reads this
    {
      MinCoverWidth <= coverWidth <= MaxCoverWidth && coverHeight == CoverHeight(coverWidth)
    }

    /**
     * Opens on a 300x450 cover with titles shown and an empty search bar,
     * scans the configured folders and populates the grid for a viewport
     * of the given width.
     */
    constructor (config: Config, store: Store, fs: FileSystem, viewportWidth: int)
      requires store.Ready()
      modifies store
      ensures Valid() && coverWidth == DefaultCoverWidth && coverHeight == 450
      ensures showTitles && !listMode && searchText == ""
      ensures library.store == store && store.Ready()
      ensures store.State() == Scan(old(store.State()), ScanPathsOf(config), fs)
      ensures GridShows(grid, store.rows, searchText, ColumnCount(viewportWidth, Spacing, coverWidth))
    {
      var lib := OpenLibrary(config, store, fs);
      var shown := BuildGrid(lib, "", DefaultCoverWidth, viewportWidth);
      DefaultCoverHeight();
      showTitles := true;
      listMode := false;
      coverWidth := DefaultCoverWidth;
      coverHeight := 450;
      searchText := "";
      library := lib;
      grid := shown;
    }

    /**
     * populate_grid: switches to the grid, lists all games, keeps those
     * passing the search text and places them column by column.
     */
    method PopulateGrid(viewportWidth: int)
      requires Valid() && library.store.Ready()
      modifies this`listMode, this`grid
      ensures !listMode
      ensures GridShows(grid, library.store.rows, searchText, ColumnCount(viewportWidth, Spacing, coverWidth))
    {
      listMode := false;
      grid := BuildGrid(library, searchText, coverWidth, viewportWidth);
    }

    /** The search bar's textChanged signal repopulates the grid. */
    method OnSearchTextChanged(text: string, viewportWidth: int)
      requires Valid() && library.store.Ready()
      modifies this`searchText, this`listMode, this`grid
      ensures searchText == text && !listMode
      ensures GridShows(grid, library.store.rows, text, ColumnCount(viewportWidth, Spacing, coverWidth))
    {
      searchText := text;
      PopulateGrid(viewportWidth);
    }

    /** on_slider_value_changed: the new width, its height, and a repopulated grid. */
    method OnSliderValueChanged(value: int, viewportWidth: int)
      requires Valid() && library.store.Ready()
      requires MinCoverWidth <= value <= MaxCoverWidth
      modifies this`coverWidth, this`coverHeight, this`listMode, this`grid
      ensures Valid() && coverWidth == value && coverHeight == CoverHeight(value)
      ensures !listMode
      ensures GridShows(grid, library.store.rows, searchText, ColumnCount(viewportWidth, Spacing, value))
    {
      coverWidth := value;
      coverHeight := CoverHeight(value);
      PopulateGrid(viewportWidth);
    }
  }
}
