# Perch game library: a verified model

Perch is a desktop launcher for Xbox 360 games run through the Xenia
emulator. The user lists folders to scan. The launcher stores every
`.iso`, `.xex` or `.elf` file found under them in a SQLite table `games`,
and shows the games as a grid of covers that a search box filters. Launching a
game from the library bumps its play count. Covers can be set or removed, and
rows can be deleted.

This project models the sequential core of that launcher in Dafny and
proves what it promises:

- **The games table** (`game_table.dfy`, `database.dfy`). The schema
  (`id INTEGER PRIMARY KEY AUTOINCREMENT`, `file_path TEXT NOT NULL UNIQUE`,
  `play_count INTEGER DEFAULT 0`, nullable `cover_path` and `last_played`)
  becomes the invariant `WellFormed`. Under it:
  - ids strictly increase along the rows;
  - every id is at most the AUTOINCREMENT counter `lastId`;
  - no two rows share a file path.

  Each SQL statement is a pure function on a `Table` value: insert-or-ignore,
  `UPDATE ... WHERE id = ?`, `DELETE ... WHERE id = ?`,
  `SELECT file_path ... WHERE id = ?` and `ORDER BY title`. The class `Store`
  holds the mutable table and runs each statement as a method whose
  `ensures` ties the new state to that function.
- **The library view model** (`library.dfy`). Scan paths come from the
  `scan_folders` setting. `scan_library` is three nested loops (folders ×
  patterns × files) that insert each matching file with its stem as title.
  `add_game` inserts a single file, and `get_all_games` lists every row sorted
  by title. The filesystem is an input: a map from each existing folder to
  the file paths `rglob` lists under it. The scan is proved against
  `InsertAll` and `Scan`. Both are shown idempotent: a second scan over the
  same filesystem adds nothing.
- **The controllers** (`controllers.dfy`). The per-game widget controller
  and the list controller look up a file path, launch a game and record
  the launch, set or remove a cover, and delete a game.
  `launch_xenia_with_flags` becomes a `LaunchResult` parameter (it returned
  normally, or raised with a message). `datetime('now')` becomes a `now`
  parameter.
- **Settings** (`config.dfy`, `folder_list.dfy`, `settings.dfy`). The INI
  file is modelled as a map from section to key to value. The `scan_folders`
  codec splits on `;` and drops empty segments when read. It removes
  duplicates in first-occurrence order and joins with `;` when written. The
  other keys have fixed defaults. getint/getboolean parsing and `str()` of
  ints and booleans are written out, with their round trips proved.
- **Presentation** (`text.dfy`, `presentation.dfy`, `main_window.dfy`).
  Covered here:
  - the search filter: the text is lower-cased and stripped, then a game
    is kept when its lower-cased title contains it;
  - the cover height `int(width * 1.5)`;
  - the grid's column count `max(1, (w + spacing) // (cover_width + spacing))`;
  - the row/column placement loop of `populate_grid`;
  - the main window view model and the main window's grid state.

Two points about the order of the listing:

- `ORDER BY title` names no collation, so SQLite's default BINARY collation
  applies. The order is by code point and case-sensitive (`"Zelda" < "halo"`).
- SQLite does not fix the relative order of rows with equal titles. The
  listing contracts therefore state "sorted by title and a permutation of the
  rows", not one particular order.

## Model

| member | source | states |
|---|---|---|
| GameTable.EmptyTableWellFormed | Launcher/DB/PHDatabase.py:23-33 | The freshly created empty table, with no id handed out yet, satisfies the schema invariant (ids unique and increasing, ids at most the AUTOINCREMENT counter, file paths unique). |
| GameTable.Insert | Launcher/ViewModels/PHGameLibraryViewModel.py:40-47 | INSERT with the UNIQUE file_path constraint. A path already present leaves the table unchanged. Otherwise exactly one row is appended: the given title and path, no cover, no last_played, play_count 0, and an id above every id ever assigned. The old rows are kept, the schema invariant is preserved, and the outcome is Inserted with the new id. |
| GameTable.InsertIdempotent | Launcher/ViewModels/PHGameLibraryViewModel.py:40-47 | Inserting the same path a second time, under any title, is a no-op. |
| GameTable.InsertAll | Launcher/ViewModels/PHGameLibraryViewModel.py:19-31 | A run of inserts keeps the schema invariant. |
| GameTable.InsertAllAppend | Launcher/ViewModels/PHGameLibraryViewModel.py:19-31 | Inserting a + b equals inserting a and then b. |
| GameTable.InsertAllExtends | Launcher/ViewModels/PHGameLibraryViewModel.py:19-31 | After a run of inserts the old rows are an unchanged prefix. Each added row is for a listed path, with its stem as title, no cover, no last_played, play_count 0 and an id above the old counter. |
| GameTable.InsertAllCovers | Launcher/ViewModels/PHGameLibraryViewModel.py:19-31 | Every listed path is in the table afterwards. |
| GameTable.InsertAllPresent | Launcher/ViewModels/PHGameLibraryViewModel.py:26-31 | When every listed path is already stored, the run of inserts changes nothing. |
| GameTable.InsertAllIdempotent | Launcher/ViewModels/PHGameLibraryViewModel.py:17-33 | Repeating the same run of inserts adds no row. |
| GameTable.PathOf | Launcher/Controllers/PHGameWidgetController.py:20-26 | Looking up a file path by id yields '' when no row has the id, and otherwise the file_path of a row with that id. |
| GameTable.PathOfRow | Launcher/Controllers/PHGameWidgetController.py:20-26 | With unique ids, the lookup returns exactly the file_path of the row carrying the id. |
| GameTable.UpdateWhere | Launcher/Controllers/PHGameListController.py:69-80 | UPDATE ... WHERE id = ?: the table keeps its length, the row with the id receives the update, and every other row is unchanged. |
| GameTable.UpdateKeepsKeys | Launcher/Controllers/PHGameWidgetController.py:38-49 | An update keeps the schema invariant and the file path looked up for every id. |
| GameTable.UpdateMissingIsNoop | Launcher/Controllers/PHGameWidgetController.py:62-70 | An update addressed to an id with no row leaves the table unchanged. |
| GameTable.RecordLaunchCountsOnce | Launcher/Controllers/PHGameWidgetController.py:40-47 | Recording a launch raises the table's total play_count by exactly one when the id has a row, and by zero otherwise. |
| GameTable.DeleteWhere | Launcher/Controllers/PHGameWidgetController.py:86 | DELETE ... WHERE id = ? never lengthens the table and keeps only old rows whose id differs. |
| GameTable.DeleteWhereRows | Launcher/Controllers/PHGameWidgetController.py:83-88 | After DELETE ... WHERE id = ? no row has the id. The remaining rows are exactly the old rows with other ids. |
| GameTable.DeleteKeepsWellFormed | Launcher/Controllers/PHGameListController.py:82-90 | Deleting keeps the schema invariant, including the AUTOINCREMENT counter bounding every id, so deleted ids are never handed out again. |
| GameTable.DeleteMissingIsNoop | Launcher/Controllers/PHGameListController.py:82-90 | Deleting an id with no row leaves the table unchanged. |
| GameTable.DeleteEffect | Launcher/Controllers/PHGameWidgetController.py:83-88 | After a delete the path lookup for that id yields '', and deleting again changes nothing. Every other id's path lookup is unchanged. |
| GameTable.DeleteKeepsOtherPaths | Launcher/Controllers/PHGameListController.py:82-90 | Deleting one id leaves the file path of every other id as it was. |
| GameTable.TitleLeTotal | Launcher/ViewModels/PHGameLibraryViewModel.py:52-55 | The BINARY title order is total. |
| GameTable.TitleLeTrans | Launcher/ViewModels/PHGameLibraryViewModel.py:52-55 | The BINARY title order is transitive. |
| GameTable.InsertByTitle | Launcher/ViewModels/PHGameLibraryViewModel.py:52-55 | Inserting a row into a listing lengthens it by one. |
| GameTable.InsertByTitlePermutes | Launcher/ViewModels/PHGameLibraryViewModel.py:52-55 | Inserting a row into a listing adds exactly that row to its multiset. |
| GameTable.InsertByTitleSorted | Launcher/ViewModels/PHGameLibraryViewModel.py:52-55 | Inserting a row into a title-sorted listing keeps it sorted. |
| GameTable.SortByTitle | Launcher/ViewModels/PHGameLibraryViewModel.py:52-55 | ORDER BY title returns as many rows as the table holds; SortByTitleCorrect proves it sorted and a permutation. |
| GameTable.SortByTitleCorrect | Launcher/ViewModels/PHGameLibraryViewModel.py:52-55 | ORDER BY title returns the rows sorted non-decreasingly by title, and as a permutation of the table (each row exactly once). |
| Database.Store.constructor | Launcher/DB/PHDatabase.py:12-18 | The database starts either with an existing table (a copied or earlier file) or with no games table at all. |
| Database.Store.InitializeDb | Launcher/DB/PHDatabase.py:20-36 | CREATE TABLE IF NOT EXISTS: an existing table and its rows stay unchanged, and a missing table is created empty. The table is ready afterwards. |
| Database.Store.InsertGame | Launcher/ViewModels/PHGameLibraryViewModel.py:40-47 | The new state is the insert-or-ignore of the old one. The outcome is Inserted exactly when the path was not stored before. |
| Database.Store.SelectAllByTitle | Launcher/ViewModels/PHGameLibraryViewModel.py:52-55 | The result is sorted by title and is a permutation of the stored rows. |
| Database.Store.SelectFilePath | Launcher/Controllers/PHGameWidgetController.py:23-26 | The result is '' when no row has the id, and otherwise that row's file_path. |
| Database.Store.UpdateRow | Launcher/Controllers/PHGameWidgetController.py:40-47 | The rows become the UPDATE of the old rows and the AUTOINCREMENT counter is unchanged; the schema invariant holds. |
| Database.Store.DeleteRow | Launcher/Controllers/PHGameWidgetController.py:86 | The rows become the DELETE of the old rows and the AUTOINCREMENT counter is unchanged; the schema invariant holds. |
| GameLibrary.Matching | Launcher/ViewModels/PHGameLibraryViewModel.py:22-23 | rglob for one pattern yields exactly the listed files whose name ends with the suffix. |
| GameLibrary.FolderMatches | Launcher/ViewModels/PHGameLibraryViewModel.py:22-23 | Every file the pattern passes over a folder yield is one of its files and matches one of the patterns. |
| GameLibrary.FolderMatchesMembers | Launcher/ViewModels/PHGameLibraryViewModel.py:22-23 | The three rglob passes over a folder yield exactly the files matching one of the patterns. |
| GameLibrary.GameSuffixMatch | Launcher/ViewModels/PHGameLibraryViewModel.py:22 | Matching one of '*.iso', '*.xex', '*.elf' is exactly being a game file; a file such as readme.txt is not one. |
| GameLibrary.ScanCandidates | Launcher/ViewModels/PHGameLibraryViewModel.py:19-23 | Every file the scan tries to insert is a game file (.iso, .xex or .elf). |
| GameLibrary.ScanCandidatesExactly | Launcher/ViewModels/PHGameLibraryViewModel.py:19-23 | The files a scan tries to insert are exactly the game files under a configured folder that exists. |
| GameLibrary.ScanCandidatesAppend | Launcher/ViewModels/PHGameLibraryViewModel.py:19 | Scanning the folders a + b tries the files of a and then those of b. |
| GameLibrary.MissingFolderSkipped | Launcher/ViewModels/PHGameLibraryViewModel.py:20-21 | A configured folder that does not exist contributes nothing, and the folders after it are still scanned. |
| GameLibrary.Scan | Launcher/ViewModels/PHGameLibraryViewModel.py:15-33 | A scan keeps the schema invariant: no duplicate paths, even with overlapping folders. |
| GameLibrary.ScanEffect | Launcher/ViewModels/PHGameLibraryViewModel.py:15-33 | After a scan every game file under an existing configured folder is stored, and the old rows are an unchanged prefix. Each new row is a game file under a configured folder, with its stem as title, default columns and a fresh id. |
| GameLibrary.ScanIdempotent | Launcher/ViewModels/PHGameLibraryViewModel.py:15-33 | A second scan over an unchanged filesystem adds no row. |
| GameLibrary.ScanPathsOf | Launcher/ViewModels/PHGameLibraryViewModel.py:12-13 | A folder is a scan path exactly when it is a non-empty segment of the ';'-split of library/scan_folders (default ''); none is configured when the key is unset. |
| GameLibrary.GameLibraryViewModel.constructor | Launcher/ViewModels/PHGameLibraryViewModel.py:7-13 | The scan paths are ScanPathsOf(config): the ';'-split of library/scan_folders (default ''), empty segments dropped. None of them is empty, and their order is the split's, as DropEmptySingle and DropEmptyAppend state segment by segment. |
| GameLibrary.GameLibraryViewModel.ScanLibrary | Launcher/ViewModels/PHGameLibraryViewModel.py:15-33 | The folder loop leaves the store in the state Scan gives for the scan paths and the filesystem. |
| GameLibrary.GameLibraryViewModel.ScanFolder | Launcher/ViewModels/PHGameLibraryViewModel.py:22-31 | The pattern loop over one folder equals inserting its .iso, then .xex, then .elf matches in order. |
| GameLibrary.GameLibraryViewModel.InsertEach | Launcher/ViewModels/PHGameLibraryViewModel.py:23-31 | The file loop equals inserting each file, stem as title, in order, ignoring duplicates. |
| GameLibrary.GameLibraryViewModel.AddGame | Launcher/ViewModels/PHGameLibraryViewModel.py:35-48 | Adding a file is the insert-or-ignore of that path with its stem as title. |
| GameLibrary.GameLibraryViewModel.GetAllGames | Launcher/ViewModels/PHGameLibraryViewModel.py:50-60 | Every stored row is returned exactly once, sorted by title. |
| Controllers.LaunchAndRecord | Launcher/Controllers/PHGameWidgetController.py:28-49 | With no file path nothing is launched. A launch that raises reports the error and leaves the table unchanged. A launch that returns applies play_count + 1 and last_played = now to that id only, and keeps the counter. |
| Controllers.GameWidgetController.GetFilePath | Launcher/Controllers/PHGameWidgetController.py:20-26 | The result is the stored file_path for this game's id, or '' when the row is missing. |
| Controllers.GameWidgetController.LaunchGame | Launcher/Controllers/PHGameWidgetController.py:28-49 | The launch and stats update for this game's id, with the same outcomes as LaunchAndRecord. |
| Controllers.GameWidgetController.SetCover | Launcher/Controllers/PHGameWidgetController.py:62-70 | Only this id's cover_path changes, and it becomes the given path; every other column and row is unchanged. |
| Controllers.GameWidgetController.RemoveCover | Launcher/Controllers/PHGameWidgetController.py:72-81 | This id's cover_path becomes ''; every other column and row is unchanged. |
| Controllers.GameWidgetController.DeleteGame | Launcher/Controllers/PHGameWidgetController.py:83-88 | The row with this id is removed, others are untouched, and a later path lookup for it yields ''. |
| Controllers.Summaries | Launcher/Controllers/PHGameListController.py:16-28 | There is one tuple per row, in the rows' order, and tuple i carries row i's id, title, cover_path, last_played and play_count. |
| Controllers.GameListController.FetchGames | Launcher/Controllers/PHGameListController.py:16-28 | There is one tuple per stored row, ordered by title. Every row's tuple is present, and every tuple comes from a row. |
| Controllers.GameListController.LaunchGame | Launcher/Controllers/PHGameListController.py:30-52 | Nothing happens for a missing id. A raised launch returns before any update. A normal launch records one play and last_played for that id only. |
| Controllers.GameListController.SetCover | Launcher/Controllers/PHGameListController.py:69-80 | Only the given id's cover_path changes, and it becomes the given path. |
| Controllers.GameListController.DeleteGame | Launcher/Controllers/PHGameListController.py:82-90 | Only the given id's row is removed, and its path lookup yields '' afterwards. |
| Controllers.GameListController.GetFilePath | Launcher/Controllers/PHGameListController.py:92-98 | The result is the stored file_path for the id, or '' for a missing id. |
| Config.GetOr | Launcher/ViewModels/PHSettingsDialogViewModel.py:15-17 | get with a fallback: the fallback when the section or key is missing, the stored value otherwise. |
| Config.Set | Launcher/ViewModels/PHSettingsDialogViewModel.py:19-24 | Setting a key creates its section if missing, and the value reads back. Every other (section, key) pair keeps its value. |
| Config.FormatNat | Launcher/ViewModels/PHMainWindowViewModel.py:35 | str() of a natural number is a non-empty string of decimal digits, with a leading '0' only for 0 itself. |
| Config.FormatInt | Launcher/ViewModels/PHMainWindowViewModel.py:35 | str() of an integer is text int() accepts (an optional sign, then digits), and it starts with '-' exactly when the integer is negative. |
| Config.DigitsOfFormat | Launcher/ViewModels/PHMainWindowViewModel.py:35 | The digits str() writes read back as the same number. |
| Config.ParseInt | Launcher/ViewModels/PHMainWindowViewModel.py:29 | getint succeeds exactly when the stripped value is an optional sign followed by at least one digit. A plain run of digits reads as its decimal value, and a signed one as that value negated for '-' and unchanged for '+'. |
| Config.ParseFormatInt | Launcher/ViewModels/PHMainWindowViewModel.py:27-39 | getint reads back exactly the integer that save_cover_width wrote with str(), negative values included. |
| Config.ParseBool | Launcher/ViewModels/PHMainWindowViewModel.py:18 | getboolean yields true exactly for 1/yes/true/on and false exactly for 0/no/false/off, case-insensitively; anything else is an error. |
| Config.FormatBool | Launcher/ViewModels/PHMainWindowViewModel.py:41-47 | The word str(b) writes for set_show_titles is one getboolean reads back as b. |
| FolderList.Join | Launcher/ViewModels/PHSettingsDialogViewModel.py:40 | ';'.join of a non-empty list begins with the first folder. |
| FolderList.Split | Launcher/ViewModels/PHSettingsDialogViewModel.py:28-29 | str.split(';') always yields at least one segment. |
| FolderList.DropEmpty | Launcher/ViewModels/PHSettingsDialogViewModel.py:29 | Dropping empty segments keeps every non-empty segment, yields no empty one and invents nothing. |
| FolderList.DropEmptySingle | Launcher/ViewModels/PHSettingsDialogViewModel.py:29 | A single segment is kept exactly when it is non-empty. |
| FolderList.DropEmptyAppend | Launcher/ViewModels/PHSettingsDialogViewModel.py:29 | The comprehension works segment by segment: dropping from a + b is dropping from a followed by dropping from b, so order and repetitions of the kept segments are preserved. |
| FolderList.Parse | Launcher/ViewModels/PHSettingsDialogViewModel.py:28-29 | The getter's list holds exactly the non-empty segments of the ';'-split, and none contains ';'. |
| FolderList.Dedup | Launcher/ViewModels/PHSettingsDialogViewModel.py:35-39 | The append loop's list is no longer than its input and holds only folders from it. |
| FolderList.Format | Launcher/ViewModels/PHSettingsDialogViewModel.py:35-40 | For a non-empty list of ';'-free folders, splitting the stored string on ';' gives the deduplicated list. |
| FolderList.SplitJoin | Launcher/ViewModels/PHSettingsDialogViewModel.py:40 | Splitting a ';'-join of ';'-free parts gives the parts back. |
| FolderList.JoinSplit | Launcher/ViewModels/PHSettingsDialogViewModel.py:28 | Joining a split with ';' gives the original string back. |
| FolderList.DropEmptyNonEmpty | Launcher/ViewModels/PHSettingsDialogViewModel.py:29 | Dropping empty segments from a list without any is the identity. |
| FolderList.DedupElements | Launcher/ViewModels/PHSettingsDialogViewModel.py:35-39 | The deduplicated list has exactly the elements of the input. |
| FolderList.DedupDistinct | Launcher/ViewModels/PHSettingsDialogViewModel.py:35-39 | The deduplicated list has no repeated folder. |
| FolderList.DedupOfDistinct | Launcher/ViewModels/PHSettingsDialogViewModel.py:35-39 | Deduplicating a list without repeats changes nothing. |
| FolderList.DedupFirstOccurrenceOrder | Launcher/ViewModels/PHSettingsDialogViewModel.py:35-39 | The deduplicated list keeps the order of first occurrences in the input. |
| FolderList.ParseFormat | Launcher/ViewModels/PHSettingsDialogViewModel.py:26-41 | Reading scan_folders after setting a list of non-empty, ';'-free folders yields that list deduplicated. |
| FolderList.FormatDistinct | Launcher/ViewModels/PHSettingsDialogViewModel.py:26-41 | That read-back list contains no repeats. |
| Settings.SettingsDialogViewModel.constructor | Launcher/ViewModels/PHSettingsDialogViewModel.py:5-13 | The dialog's view model holds the loaded configuration. |
| Settings.SettingsDialogViewModel.EmulatorPath | Launcher/ViewModels/PHSettingsDialogViewModel.py:15-17 | The emulator path is paths/xenia_path, or '' when unset. |
| Settings.SettingsDialogViewModel.SetEmulatorPath | Launcher/ViewModels/PHSettingsDialogViewModel.py:19-24 | The paths section exists afterwards and the value reads back. Every other key is unchanged. |
| Settings.SettingsDialogViewModel.ScanFolders | Launcher/ViewModels/PHSettingsDialogViewModel.py:26-29 | A folder is listed exactly when it is a non-empty segment of the ';'-split of library/scan_folders (default ''); the list is [] when the key is unset. |
| Settings.SettingsDialogViewModel.SetScanFolders | Launcher/ViewModels/PHSettingsDialogViewModel.py:31-41 | The append loop stores the ';'-join of the deduplicated list; every other key is unchanged. For non-empty, ';'-free folders, reading back yields the deduplicated list, which has no repeats. |
| Settings.SettingsDialogViewModel.Theme | Launcher/ViewModels/PHSettingsDialogViewModel.py:43-45 | The theme is appearance/theme, or 'System Default' when unset. |
| Settings.SettingsDialogViewModel.SetTheme | Launcher/ViewModels/PHSettingsDialogViewModel.py:47-52 | The theme reads back and every other key is unchanged. |
| Settings.SettingsDialogViewModel.CustomColor | Launcher/ViewModels/PHSettingsDialogViewModel.py:60-62 | A custom colour is its CustomTheme value, or '' when unset. |
| Settings.SettingsDialogViewModel.CustomBgColor | Launcher/ViewModels/PHSettingsDialogViewModel.py:60-62 | bg_color is its CustomTheme value, or '' when unset. |
| Settings.SettingsDialogViewModel.CustomTextColor | Launcher/ViewModels/PHSettingsDialogViewModel.py:71-73 | text_color is its CustomTheme value, or '' when unset. |
| Settings.SettingsDialogViewModel.CustomAccentColor | Launcher/ViewModels/PHSettingsDialogViewModel.py:82-84 | accent_color is its CustomTheme value, or '' when unset. |
| Settings.SettingsDialogViewModel.SetCustomColor | Launcher/ViewModels/PHSettingsDialogViewModel.py:64-69 | The colour reads back, the other colours keep their values, and every other key is unchanged. |
| Settings.SettingsDialogViewModel.SetCustomBgColor | Launcher/ViewModels/PHSettingsDialogViewModel.py:64-69 | bg_color reads back, and text_color and accent_color are unchanged. |
| Settings.SettingsDialogViewModel.SetCustomTextColor | Launcher/ViewModels/PHSettingsDialogViewModel.py:75-80 | text_color reads back, and bg_color and accent_color are unchanged. |
| Settings.SettingsDialogViewModel.SetCustomAccentColor | Launcher/ViewModels/PHSettingsDialogViewModel.py:86-91 | accent_color reads back, and bg_color and text_color are unchanged. |
| Text.TrimStart | Launcher/ViewModels/PHMainWindowViewModel.py:53 | Left strip: the result is a suffix of the input, everything removed is whitespace, and the result does not start with whitespace. |
| Text.TrimEnd | Launcher/ViewModels/PHMainWindowViewModel.py:53 | Right strip: the result is a prefix of the input, everything removed is whitespace, and the result does not end with whitespace. |
| Text.Strip | Launcher/ViewModels/PHMainWindowViewModel.py:53 | A stripped string neither starts nor ends with whitespace. |
| Text.StripSlice | Launcher/ViewModels/PHMainWindowViewModel.py:53 | strip() returns one contiguous slice of the input, with only whitespace outside it. |
| Text.StripChars | Launcher/ViewModels/PHMainWindowViewModel.py:53 | Every character of a stripped string occurs in the input. |
| Text.StripUntrimmed | Launcher/ViewModels/PHMainWindowViewModel.py:53 | strip() leaves a string without surrounding whitespace unchanged. |
| Text.Lower | Launcher/ViewModels/PHMainWindowViewModel.py:53 | lower() keeps the length, turns every upper-case ASCII letter into its lower-case letter (code point + 32), and keeps every other character. |
| Text.LowerOfLowerCase | Launcher/ViewModels/PHMainWindowViewModel.py:53 | lower() leaves a string without upper-case letters unchanged. |
| Text.ContainsAt | Launcher/ViewModels/PHMainWindowViewModel.py:62 | The substring test holds exactly when the needle occurs at some offset of the title. |
| Text.ContainsEmpty | Launcher/ViewModels/PHMainWindowViewModel.py:60-61 | The empty filter occurs in every title. |
| Text.Name | Launcher/ViewModels/PHGameLibraryViewModel.py:24 | A path's name is no longer than the path. |
| Text.NameSpec | Launcher/ViewModels/PHGameLibraryViewModel.py:24 | A path's name is its final component: a suffix of the path with no '/', preceded by '/' when shorter than the path. |
| Text.RFind | Launcher/ViewModels/PHGameLibraryViewModel.py:24 | The result is the index of the last occurrence of the character, or -1 when it does not occur. |
| Text.Stem | Launcher/ViewModels/PHGameLibraryViewModel.py:24 | The stem is a prefix of the name, empty only when the name is. It is the whole name when the name has no '.', has its only '.' in front (.iso) or ends in '.'. Otherwise it stops just before the last '.', which is neither the first nor the last character. |
| Text.StemDropsExtension | Launcher/ViewModels/PHGameLibraryViewModel.py:24 | The stem of a file named x + '.ext' is x, so /games/Halo3.iso gets the title Halo3. |
| Presentation.CoverHeight | Launcher/ViewModels/PHMainWindowViewModel.py:17 | int(width * 1.5) truncates toward zero: floor(3w/2) for width >= 0 and ceil(3w/2) for width < 0. |
| Presentation.DefaultCoverHeight | Launcher/Views/PHMainWindowView.py:33-35 | The default width 300 gives the default height 450. |
| Presentation.NormalizeFilter | Launcher/ViewModels/PHMainWindowViewModel.py:52-53 | The stored filter is one slice of the lower-cased text with only whitespace outside it. It has no upper-case letters and no surrounding whitespace. |
| Presentation.NormalizeFilterIdempotent | Launcher/ViewModels/PHMainWindowViewModel.py:52-53 | Normalising an already normalised filter changes nothing. |
| Presentation.NormalizedIsFixed | Launcher/ViewModels/PHMainWindowViewModel.py:52-53 | A filter with no upper-case letter and no surrounding whitespace is its own normal form. |
| Presentation.Matches | Launcher/ViewModels/PHMainWindowViewModel.py:62 | A game passes exactly when the filter occurs at some offset of its lower-cased title. |
| Presentation.Select | Launcher/ViewModels/PHMainWindowViewModel.py:62 | The comprehension keeps exactly the games whose lower-cased title contains the filter. |
| Presentation.FilteredGames | Launcher/ViewModels/PHMainWindowViewModel.py:59-62 | An empty filter returns all games. Otherwise the result is no longer than the list and holds only listed games that pass the filter. |
| Presentation.SelectEmptyFilter | Launcher/ViewModels/PHMainWindowViewModel.py:60-61 | With an empty filter the list is returned unchanged. |
| Presentation.FilteredGamesMembers | Launcher/ViewModels/PHMainWindowViewModel.py:59-62 | The filtered games are exactly the games matching the filter. |
| Presentation.FilteredGamesSubsequence | Launcher/ViewModels/PHMainWindowViewModel.py:59-62 | The filtered list is an order-preserving subsequence of all games. |
| Presentation.SelectSubsequence | Launcher/ViewModels/PHMainWindowViewModel.py:62 | The comprehension's result is an order-preserving subsequence of its input. |
| Presentation.FilteredGamesSorted | Launcher/Views/PHMainWindowView.py:153-157 | Filtering a title-sorted list keeps it sorted. |
| Presentation.SelectSorted | Launcher/Views/PHMainWindowView.py:157 | The comprehension keeps title order. |
| Presentation.ColumnCount | Launcher/Views/PHMainWindowView.py:168-170 | The column count is at least 1. When above 1, that many covers and the gaps between them fit in the viewport; one more column never fits. |
| Presentation.GridOf | Launcher/Views/PHMainWindowView.py:159-185 | An empty list shows one placeholder: the no-match message if the search text is non-empty, the add-game hint otherwise. Otherwise the k-th game gets a cell with column < cols and row * cols + column = k. |
| Presentation.DivModUnique | Launcher/Views/PHMainWindowView.py:172-185 | A cell with column < cols and row * cols + column = k sits at row k div cols, column k mod cols. |
| Presentation.LayoutGrid | Launcher/Views/PHMainWindowView.py:172-185 | The row/column loop produces exactly the grid GridOf describes. |
| Presentation.RowMajorNext | Launcher/Views/PHMainWindowView.py:181-185 | The next game goes one column to the right in the same row, or to column 0 of the next row once the last column is used. |
| Presentation.RowsFilled | Launcher/Views/PHMainWindowView.py:181-185 | Every row before the last used one is completely filled. |
| MainWindow.LoadCoverWidth | Launcher/ViewModels/PHMainWindowViewModel.py:27-30 | The width is 300 when the ui section or its cover_width key is missing. Otherwise it is exactly what getint makes of the stored value: its integer, or the error when it does not parse. |
| MainWindow.LoadShowTitles | Launcher/ViewModels/PHMainWindowViewModel.py:18 | show_titles is true when unset. Otherwise it is exactly what getboolean makes of the stored value: its boolean, or the error for an unknown word. |
| MainWindow.LoadSavedCoverWidth | Launcher/ViewModels/PHMainWindowViewModel.py:32-39 | After save_cover_width(w) the configuration loads width w. |
| MainWindow.LoadSavedShowTitles | Launcher/ViewModels/PHMainWindowViewModel.py:41-47 | After set_show_titles(b) the configuration loads b. |
| MainWindow.OpenLibrary | Launcher/ViewModels/PHMainWindowViewModel.py:22-24 | Creating the library view model and scanning leaves the store in the state Scan gives for the configured scan paths. |
| MainWindow.MainWindowViewModel.constructor | Launcher/ViewModels/PHMainWindowViewModel.py:8-25 | Width and show_titles are loaded and the height is int(width * 1.5). The view starts in grid mode with an empty filter. The library is scanned, and all games are the scanned rows sorted by title. |
| MainWindow.MainWindowViewModel.SaveCoverWidth | Launcher/ViewModels/PHMainWindowViewModel.py:32-39 | str(width) is stored under ui/cover_width and reads back. The width is set, and the height becomes int(width * 1.5). |
| MainWindow.MainWindowViewModel.SetShowTitles | Launcher/ViewModels/PHMainWindowViewModel.py:41-47 | str(show) is stored under appearance/show_titles and reads back, and the flag is set. |
| MainWindow.MainWindowViewModel.SetListMode | Launcher/ViewModels/PHMainWindowViewModel.py:49-50 | Only list_mode changes, to the given value. |
| MainWindow.MainWindowViewModel.SetFilter | Launcher/ViewModels/PHMainWindowViewModel.py:52-53 | The stored filter is the text lower-cased and stripped. |
| MainWindow.MainWindowViewModel.RefreshGames | Launcher/ViewModels/PHMainWindowViewModel.py:55-57 | The library is rescanned, and all games become the new rows sorted by title. |
| MainWindow.MainWindowViewModel.GetFilteredGames | Launcher/ViewModels/PHMainWindowViewModel.py:59-62 | Exactly the games matching the current filter are returned, as an order-preserving subsequence of all games. |
| MainWindow.GridOfListing | Launcher/Views/PHMainWindowView.py:153-165 | For a title-sorted listing of the rows: the placeholder shows exactly when no row matches; cells hold only matching rows and every matching row; the cells are in title order. |
| MainWindow.GridPositions | Launcher/Views/PHMainWindowView.py:172-185 | The k-th cell is at row k div cols, column k mod cols. |
| MainWindow.GridShowsContents | Launcher/Views/PHMainWindowView.py:138-185 | The grid populate_grid draws shows the right placeholder message exactly when no stored game matches the stripped, lower-cased search text. Otherwise it shows every matching game and nothing else, in title order, the k-th at row k div cols, column k mod cols. |
| MainWindow.BuildGrid | Launcher/Views/PHMainWindowView.py:153-185 | Listing, filtering, column count and placement together produce the grid that populate_grid draws. |
| MainWindow.MainWindowView.constructor | Launcher/Views/PHMainWindowView.py:19-124 | The window opens with a 300x450 cover, titles shown, grid mode and an empty search. The library is scanned and the grid is populated for the viewport. |
| MainWindow.MainWindowView.PopulateGrid | Launcher/Views/PHMainWindowView.py:138-185 | The view switches to grid mode and the grid shows the filtered, sorted library laid out for the viewport. |
| MainWindow.MainWindowView.OnSearchTextChanged | Launcher/Views/PHMainWindowView.py:46-48 | A new search text repopulates the grid for that text. |
| MainWindow.MainWindowView.OnSliderValueChanged | Launcher/Views/PHMainWindowView.py:197-200 | A slider value in 100..600 becomes the cover width, the height becomes int(value * 1.5), and the grid is repopulated with the column count for the new width. |

## Left out

- Qt widgets, layouts, dialogs, icons, themes and the list view's rendering
  are out. So are the rest of the main window:
  - `open_settings`, `add_game` (a file dialog followed by repeated
    `add_game` calls);
  - `on_toggle_titles`, `populate_list`, `resizeEvent`;
  - the slider's tick and step configuration.
- `reveal_in_file_browser` in both controllers is out: it spawns a
  platform-specific process.
- `launch_xenia_with_flags` is out; its result is an input,
  `LaunchResult`. The `emulator_path` both controllers read in
  `__init__` is never used by the methods modelled, so it is not modelled.
- The timestamp of `datetime('now')` is an input. Opening, committing and
  closing connections, creating `~/.perch` and copying the bundled database
  file are out; `Store.constructor` takes the table as it was found.
- Writing the INI file is out, and so are these configparser behaviours:
  - `%` interpolation;
  - key lower-casing;
  - whitespace stripping of values on reload;
  - the DEFAULT section.
- `rglob` is out beyond its listing. The file paths under each existing
  folder are an input, in enumeration order. The listing is taken as
  given: its case sensitivity on each platform, symlinks, and directories
  whose names end in `.iso` are not modelled. Paths are `/`-separated
  strings, with no pathlib normalisation.
- `Text.Lower` and `Text.Strip` cover ASCII only. Python lower-cases and
  strips the whole of Unicode.
- `Config.ParseInt` strips ASCII whitespace and accepts an optional sign and
  decimal digits. It does not model the non-ASCII whitespace, `_` separators
  and non-ASCII digits that Python's `int()` also accepts.
- `Presentation.CoverHeight` computes `int(width * 1.5)` exactly. The
  source goes through a float. The float product is exact while
  `|3 * width| < 2^53`, so the two agree for every width the slider allows
  (100..600). They first differ near `2^53 / 3`, e.g. at
  width 3002399751580333.
- `MainWindow.MainWindowViewModel.constructor` requires `cover_width` and
  `show_titles` to parse. The source raises `ValueError` otherwise, and that
  failure is not modelled.
- `FolderList.ParseFormat` does not round-trip a folder that is empty or
  contains `;`, and neither does the source. The contract states the round
  trip only for folders that are non-empty and free of `;`.
- `GameTable.SortByTitleCorrect` does not fix the order of rows with equal
  titles, because SQLite leaves it unspecified.
- `Launcher/Controllers/PHMainWindowController.py` is not part of this
  model. It calls methods `GameLibraryViewModel` does not define.
- The launch in `PHGameWidgetView.mouseDoubleClickEvent` skips the
  play-count update, and the duplicate schema and record in
  `Launcher/DB/database.py` and `Launcher/Models/game.py` are not part of
  this model.
- `main.py` is not part of this model.
