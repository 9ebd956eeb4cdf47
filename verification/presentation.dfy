/**
 * The arithmetic and filtering behind the library's main window: cover
 * height from cover width, the case-insensitive title filter, the grid's
 * column count and the row-major placement of covers.
 */
module Presentation {
  import opened GameModel
  import opened GameTable
  import opened Text

  // ----- cover size -----

  /**
   * int(width * 1.5): the product truncated toward zero, so for a
   * non-negative width the height is the floor of one and a half widths.
   */
  function CoverHeight(width: int): (height: int)
    ensures width >= 0 ==> 0 <= 2 * height <= 3 * width < 2 * height + 2
    ensures width < 0 ==> 2 * height - 2 < 3 * width <= 2 * height
  {
    if width >= 0 then (3 * width) / 2 else -((3 * -width) / 2)
  }

  /** The smallest and largest cover widths the slider offers. */
  const MinCoverWidth := 100
  const MaxCoverWidth := 600
  const DefaultCoverWidth := 300

  /** The slider's default width gives the initial 300x450 cover. */
  lemma DefaultCoverHeight()
    ensures CoverHeight(DefaultCoverWidth) == 450
  {
    assert 3 * DefaultCoverWidth == 900;
  }

  // ----- the search filter -----

  /** set_filter and populate_grid: the search text lower-cased, then stripped of surrounding whitespace. */
  function NormalizeFilter(text: string): (r: string)
    ensures forall k | 0 <= k < |r| :: !('A' <= r[k] <= 'Z')
    ensures r == [] || (!IsSpace(r[0]) && !IsSpace(r[|r| - 1]))
    ensures exists i, j :: SpaceOutside(Lower(text), i, j) && r == Lower(text)[i..j]
  {
    var lowered := Lower(text);
    assert forall c | c in lowered :: !('A' <= c <= 'Z');
    StripChars(lowered);
    StripSlice(lowered);
    Strip(lowered)
  }

  /** Normalising an already normalised filter changes nothing. */
  lemma NormalizeFilterIdempotent(text: string)
    ensures NormalizeFilter(NormalizeFilter(text)) == NormalizeFilter(text)
  {
    NormalizedIsFixed(NormalizeFilter(text));
  }

  /** A filter with no upper-case letter and no surrounding whitespace is left as it is. */
  lemma NormalizedIsFixed(f: string)
    requires forall k | 0 <= k < |f| :: !('A' <= f[k] <= 'Z')
    requires f == [] || (!IsSpace(f[0]) && !IsSpace(f[|f| - 1]))
    ensures NormalizeFilter(f) == f
  {
    LowerOfLowerCase(f);
    assert Lower(f) == f;
    StripUntrimmed(f);
  }

  /** A game passes a filter when its lower-cased title contains the filter. */
  predicate Matches(g: GameEntry, filter: string)
    ensures Matches(g, filter) <==>
            exists i | 0 <= i <= |g.title| - |filter| :: Lower(g.title)[i..][..|filter|] == filter
  {
    ContainsAt(Lower(g.title), filter);
    Contains(Lower(g.title), filter)
  }

  /** The comprehension [g for g in games if filter in g.title.lower()]. */
  function Select(games: seq<GameEntry>, filter: string): (r: seq<GameEntry>)
    ensures |r| <= |games|
    ensures forall g | g in r :: g in games && Matches(g, filter)
    ensures forall g | g in games && Matches(g, filter) :: g in r
  {
    if games == [] then []
    else
      var rest := Select(games[..|games| - 1], filter);
      assert forall g | g in games :: g in games[..|games| - 1] || g == games[|games| - 1];
      if Matches(games[|games| - 1], filter) then rest + [games[|games| - 1]] else rest
  }

  /** get_filtered_games: all games for an empty filter, otherwise those passing it. */
  function FilteredGames(games: seq<GameEntry>, filter: string): (r: seq<GameEntry>)
    ensures filter == [] ==> r == games
    ensures |r| <= |games|
    ensures forall g | g in r :: g in games
    ensures filter != [] ==> forall g | g in r :: Matches(g, filter)
  {
    if filter == [] then games else Select(games, filter)
  }

  /** The empty-filter shortcut returns what the comprehension would have returned. */
  lemma {:induction false} SelectEmptyFilter(games: seq<GameEntry>)
    ensures Select(games, "") == games
  {
    if games != [] {
      var init, last := games[..|games| - 1], games[|games| - 1];
      SelectEmptyFilter(init);
      ContainsEmpty(Lower(last.title));
      assert Select(games, "") == Select(init, "") + [last];
      assert init + [last] == games;
    }
  }

  /** A game is shown exactly when it is in the list and its lower-cased title contains the filter. */
  lemma FilteredGamesMembers(games: seq<GameEntry>, filter: string)
    ensures forall g :: g in FilteredGames(games, filter) <==> g in games && Matches(g, filter)
  {
    if filter == [] {
      forall g | g in games ensures Matches(g, filter) {
        ContainsEmpty(Lower(g.title));
      }
    }
  }

  /** xs keeps some of the elements of ys, in the order ys has them. */
  predicate SubsequenceOf(xs: seq<GameEntry>, ys: seq<GameEntry>)
    decreases |ys|
  {
    if xs == [] then true
    else if ys == [] then false
    else if xs[|xs| - 1] == ys[|ys| - 1] then SubsequenceOf(xs[..|xs| - 1], ys[..|ys| - 1])
    else SubsequenceOf(xs, ys[..|ys| - 1])
  }

  /** Filtering keeps the list's order: the result is a subsequence of the full list. */
  lemma {:induction false} FilteredGamesSubsequence(games: seq<GameEntry>, filter: string)
    ensures SubsequenceOf(FilteredGames(games, filter), games)
  {
    if filter == [] {
      SubsequenceOfSelf(games);
    } else {
      SelectSubsequence(games, filter);
    }
  }

  lemma {:induction false} SubsequenceOfSelf(xs: seq<GameEntry>)
    ensures SubsequenceOf(xs, xs)
  {
    if xs != [] {
      SubsequenceOfSelf(xs[..|xs| - 1]);
    }
  }

  lemma {:induction false} SelectSubsequence(games: seq<GameEntry>, filter: string)
    ensures SubsequenceOf(Select(games, filter), games)
  {
    if games != [] {
      var init := games[..|games| - 1];
      SelectSubsequence(init, filter);
      if Matches(games[|games| - 1], filter) {
        var r := Select(games, filter);
        assert r[..|r| - 1] == Select(init, filter);
      } else if Select(games, filter) != [] {
        var r := Select(games, filter);
        assert r[|r| - 1] in r;
      }
    }
  }

  /** Filtering a list sorted by title leaves it sorted by title. */
  lemma {:induction false} FilteredGamesSorted(games: seq<GameEntry>, filter: string)
    requires SortedByTitle(games)
    ensures SortedByTitle(FilteredGames(games, filter))
  {
    if filter != [] {
      SelectSorted(games, filter);
    }
  }

  lemma {:induction false} SelectSorted(games: seq<GameEntry>, filter: string)
    requires SortedByTitle(games)
    ensures SortedByTitle(Select(games, filter))
  {
    if games != [] {
      var init := games[..|games| - 1];
      var last := games[|games| - 1];
      assert SortedByTitle(init);
      SelectSorted(init, filter);
      if Matches(last, filter) {
        var rest := Select(init, filter);
        var r := rest + [last];
        forall i, j | 0 <= i < j < |r| ensures TitleLe(r[i].title, r[j].title) {
          if j == |r| - 1 {
            assert rest[i] in init;
            var m :| 0 <= m < |init| && init[m] == rest[i];
            assert games[m] == rest[i];
          } else {
            assert r[i] == rest[i] && r[j] == rest[j];
          }
        }
      }
    }
  }

  // ----- the grid -----

  /** The grid layout's spacing between covers, in pixels. */
  const Spacing := 10

  /**
   * max(1, (width + spacing) // (cover_width + spacing)): the most covers
   * that fit side by side with spacing between them, but at least one.
   * Python's // floors, which for the positive divisor is Dafny's /.
   */
  function ColumnCount(width: int, spacing: int, coverWidth: int): (cols: int)
    requires coverWidth + spacing > 0
    ensures cols >= 1
    ensures cols > 1 ==> cols * coverWidth + (cols - 1) * spacing <= width
    ensures (cols + 1) * coverWidth + cols * spacing > width
  {
    var q := (width + spacing) / (coverWidth + spacing);
    var cols := if q > 1 then q else 1;
    assert q * (coverWidth + spacing) <= width + spacing < (q + 1) * (coverWidth + spacing);
    cols
  }

  /** One cover widget placed in the grid. */
  datatype Cell = Cell(game: GameEntry, row: nat, col: nat)

  /** What populate_grid puts in the grid: one centred message, or the covers. */
  datatype Grid = Placeholder(message: string) | Cells(cells: seq<Cell>)

  const NoMatchMessage := "No games match your search."
  const EmptyLibraryMessage := "No games found. Use File > Add Game..."

  /**
   * The grid populate_grid builds from the shown games: the placeholder
   * message when nothing is shown, otherwise the k-th game at row k div
   * cols and column k mod cols.
   */
  function GridOf(shown: seq<GameEntry>, text: string, cols: int): (grid: Grid)
    requires cols >= 1
    ensures grid.Placeholder? <==> shown == []
    ensures grid.Placeholder? ==> grid.message == (if text != [] then NoMatchMessage else EmptyLibraryMessage)
    ensures grid.Cells? ==> |grid.cells| == |shown|
    ensures grid.Cells? ==>
              forall k | 0 <= k < |shown| ::
                grid.cells[k].game == shown[k] && grid.cells[k].col < cols &&
                grid.cells[k].row * cols + grid.cells[k].col == k
  {
    if shown == [] then
      Placeholder(if text != [] then NoMatchMessage else EmptyLibraryMessage)
    else
      Cells(seq(|shown|, k requires 0 <= k < |shown| => Cell(shown[k], k / cols, k % cols)))
  }

  /** The quotient and remainder of k by cols are the only row and column with row * cols + col == k. */
  lemma DivModUnique(k: int, cols: int, row: int, col: int)
    requires cols >= 1 && 0 <= col < cols && row * cols + col == k
    ensures row == k / cols && col == k % cols
  {
    var q := k / cols;
    assert (row - q) * cols == k % cols - col;
    if row > q {
      MulAtLeast(row - q, cols);
    } else if row < q {
      MulAtLeast(q - row, cols);
    }
  }

  lemma MulMono(a: int, b: int, c: int)
    requires a <= b && c >= 0
    ensures a * c <= b * c
  {
    assert b * c == a * c + (b - a) * c;
  }

  lemma MulAtLeast(a: int, b: int)
    requires a >= 1 && b >= 1
    ensures a * b >= b
  {
    assert a * b == (a - 1) * b + b;
  }

  /**
   * The placement loop of populate_grid: col advances after each cover and
   * wraps to 0 with row advancing once it reaches cols.
   */
  method LayoutGrid(shown: seq<GameEntry>, text: string, cols: int) returns (grid: Grid)
    requires cols >= 1
    ensures grid == GridOf(shown, text, cols)
  {
    if shown == [] {
      grid := Placeholder(if text != [] then NoMatchMessage else EmptyLibraryMessage);
      return;
    }
    var cells: seq<Cell> := [];
    var row: nat, col: nat := 0, 0;
    for k := 0 to |shown|
      invariant |cells| == k
      invariant col < cols && row * cols + col == k
      invariant forall m | 0 <= m < k :: cells[m] == Cell(shown[m], m / cols, m % cols)
    {
      DivModUnique(k, cols, row, col);
      cells := cells + [Cell(shown[k], row, col)];
      col := col + 1;
      if col >= cols {
        col := 0;
        row := row + 1;
      }
    }
    grid := Cells(cells);
  }

  /**
   * Row-major filling: the cover after the k-th sits in the next column of
   * the same row, or, when the k-th closed its row, in column 0 of the next row.
   */
  lemma RowMajorNext(shown: seq<GameEntry>, text: string, cols: int, k: int)
    requires cols >= 1 && 0 <= k && k + 1 < |shown|
    ensures var cells := GridOf(shown, text, cols).cells;
      if cells[k].col + 1 < cols then
        cells[k + 1].row == cells[k].row && cells[k + 1].col == cells[k].col + 1
      else
        cells[k].col == cols - 1 && cells[k + 1].row == cells[k].row + 1 && cells[k + 1].col == 0
  {
    var cells := GridOf(shown, text, cols).cells;
    if cells[k].col + 1 < cols {
      DivModUnique(k + 1, cols, cells[k].row, cells[k].col + 1);
    } else {
      DivModUnique(k + 1, cols, cells[k].row + 1, 0);
    }
  }

  /** Every row but the last holds exactly cols covers. */
  lemma RowsFilled(shown: seq<GameEntry>, text: string, cols: int, r: nat, c: nat)
    requires cols >= 1 && shown != [] && c < cols
    requires r < GridOf(shown, text, cols).cells[|shown| - 1].row
    ensures r * cols + c < |shown|
    ensures GridOf(shown, text, cols).cells[r * cols + c].row == r
    ensures GridOf(shown, text, cols).cells[r * cols + c].col == c
  {
    var last := GridOf(shown, text, cols).cells[|shown| - 1];
    MulMono(r + 1, last.row, cols);
    assert (r + 1) * cols == r * cols + cols;
    DivModUnique(r * cols + c, cols, r, c);
  }
}
