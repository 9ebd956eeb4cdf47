/**
 * The two controllers that read and change single rows: one bound to a game
 * id when it is made (the grid's game widget), one taking the id with each
 * call (the list view). Both run the same statements on the same table.
 */
module Controllers {
  import opened Wrappers
  import opened GameModel
  import opened GameTable
  import opened Database

  /** What the external emulator launch did: returned normally, or raised with a message. */
  datatype LaunchResult = Started | Raised(message: string)

  /** How launch_game ended: no path to launch, an error shown to the user, or a launch recorded. */
  datatype LaunchOutcome = NothingToLaunch | LaunchError(message: string) | Launched

  /**
   * The launch_game body both controllers share. The emulator is started
   * only for a non-empty path; play_count and last_played are updated only
   * after it returned normally; a missing row, an empty path or a raised
   * launch leaves the table as it was.
   */
  method LaunchAndRecord(store: Store, id: nat, launch: LaunchResult, now: string) returns (outcome: LaunchOutcome)
    requires store.Ready()
    modifies store
    ensures store.Ready()
    ensures PathOf(old(store.rows), id) == "" ==> outcome == NothingToLaunch
    ensures PathOf(old(store.rows), id) != "" ==>
              outcome == (if launch.Started? then Launched else LaunchError(launch.message))
    ensures outcome == Launched ==>
              store.rows == UpdateWhere(old(store.rows), id, RecordLaunch(now)) && store.lastId == old(store.lastId)
    ensures outcome != Launched ==> store.State() == old(store.State())
  {
    var path := store.SelectFilePath(id);
    PathOfRow(store.rows, id);
    if path == "" {
      return NothingToLaunch;
    }
    match launch
    case Raised(message) =>
      return LaunchError(message);
    case Started =>
      store.UpdateRow(id, RecordLaunch(now));
      return Launched;
  }

  /** GameWidgetController: the operations of one game widget, whose id is fixed when it is made. */
  class GameWidgetController {
    const gameId: nat
    const store: Store

    constructor (gameId: nat, store: Store)
      ensures this.gameId == gameId && this.store == store
    {
      this.gameId := gameId;
      this.store := store;
    }

    /** get_file_path: the path stored for this game, or '' when its row is gone. */
    method GetFilePath() returns (path: string)
      requires store.Ready()
      ensures !HasId(store.rows, gameId) ==> path == ""
      ensures forall i | 0 <= i < |store.rows| && store.rows[i].id == gameId :: path == store.rows[i].filePath
    {
      path := store.SelectFilePath(gameId);
    }

    /** launch_game: start the emulator on the game's file, then record the launch. */
    method LaunchGame(launch: LaunchResult, now: string) returns (outcome: LaunchOutcome)
      requires store.Ready()
      modifies store
      ensures store.Ready()
      ensures PathOf(old(store.rows), gameId) == "" ==> outcome == NothingToLaunch
      ensures PathOf(old(store.rows), gameId) != "" ==>
                outcome == (if launch.Started? then Launched else LaunchError(launch.message))
      ensures outcome == Launched ==>
                store.rows == UpdateWhere(old(store.rows), gameId, RecordLaunch(now)) && store.lastId == old(store.lastId)
      ensures outcome != Launched ==> store.State() == old(store.State())
    {
      outcome := LaunchAndRecord(store, gameId, launch, now);
    }

    /** set_cover: overwrite this game's cover_path; nothing else changes. */
    method SetCover(coverPath: string)
      requires store.Ready()
      modifies store
      ensures store.Ready()
      ensures store.rows == UpdateWhere(old(store.rows), gameId, RowUpdate.SetCover(coverPath))
      ensures store.lastId == old(store.lastId)
      ensures forall i | 0 <= i < |store.rows| && store.rows[i].id == gameId :: store.rows[i].coverPath == Some(coverPath)
    {
      store.UpdateRow(gameId, RowUpdate.SetCover(coverPath));
    }

    /** remove_cover: set this game's cover_path to the empty string, the placeholder marker. */
    method RemoveCover()
      requires store.Ready()
      modifies store
      ensures store.Ready()
      ensures store.rows == UpdateWhere(old(store.rows), gameId, RowUpdate.SetCover(""))
      ensures store.lastId == old(store.lastId)
      ensures forall i | 0 <= i < |store.rows| && store.rows[i].id == gameId :: store.rows[i].coverPath == Some("")
    {
      store.UpdateRow(gameId, RowUpdate.SetCover(""));
    }

    /** delete_game: remove this game's row; its path then reads as ''. */
    method DeleteGame()
      requires store.Ready()
      modifies store
      ensures store.Ready()
      ensures store.rows == DeleteWhere(old(store.rows), gameId)
      ensures store.lastId == old(store.lastId)
      ensures PathOf(store.rows, gameId) == ""
    {
      store.DeleteRow(gameId);
      DeleteEffect(old(store.rows), gameId);
    }
  }

  /** One line of the list view's query: (id, title, cover_path, last_played, play_count). */
  datatype GameSummary = GameSummary(
    id: nat, title: string, coverPath: Option<string>, lastPlayed: Option<string>, playCount: nat)

  function Summary(e: GameEntry): GameSummary {
    GameSummary(e.id, e.title, e.coverPath, e.lastPlayed, e.playCount)
  }

  function Summaries(s: seq<GameEntry>): (r: seq<GameSummary>)
    ensures |r| == |s|
    ensures forall i | 0 <= i < |s| ::
              && r[i].id == s[i].id && r[i].title == s[i].title && r[i].coverPath == s[i].coverPath
              && r[i].lastPlayed == s[i].lastPlayed && r[i].playCount == s[i].playCount
  {
    seq(|s|, i requires 0 <= i < |s| => Summary(s[i]))
  }

  /** GameListController: the list view's operations, each given the game id. */
  class GameListController {
    const store: Store

    constructor (store: Store)
      ensures this.store == store
    {
      this.store := store;
    }

    /**
     * fetch_games: one line per row, ordered by title ascending; each line
     * is the projection of a stored row, and every stored row has its line.
     */
    method FetchGames() returns (lines: seq<GameSummary>)
      requires store.Ready()
      ensures |lines| == |store.rows|
      ensures forall i, j | 0 <= i < j < |lines| :: TitleLe(lines[i].title, lines[j].title)
      ensures forall e | e in store.rows :: Summary(e) in lines
      ensures forall l | l in lines :: exists e | e in store.rows :: Summary(e) == l
    {
      var games := store.SelectAllByTitle();
      lines := Summaries(games);
      assert |games| == |multiset(store.rows)| == |store.rows|;
      forall e | e in store.rows ensures Summary(e) in lines {
        assert e in multiset(games);
        var k :| 0 <= k < |games| && games[k] == e;
        assert lines[k] == Summary(e);
      }
      forall l | l in lines ensures exists e | e in store.rows :: Summary(e) == l {
        var k :| 0 <= k < |lines| && lines[k] == l;
        assert games[k] in multiset(store.rows);
        assert Summary(games[k]) == l;
      }
    }

    /** launch_game(game_id): as the widget's launch, for the given id. */
    method LaunchGame(gameId: nat, launch: LaunchResult, now: string) returns (outcome: LaunchOutcome)
      requires store.Ready()
      modifies store
      ensures store.Ready()
      ensures PathOf(old(store.rows), gameId) == "" ==> outcome == NothingToLaunch
      ensures PathOf(old(store.rows), gameId) != "" ==>
                outcome == (if launch.Started? then Launched else LaunchError(launch.message))
      ensures outcome == Launched ==>
                store.rows == UpdateWhere(old(store.rows), gameId, RecordLaunch(now)) && store.lastId == old(store.lastId)
      ensures outcome != Launched ==> store.State() == old(store.State())
    {
      outcome := LaunchAndRecord(store, gameId, launch, now);
    }

    /** set_cover(game_id, cover_path): only that row's cover_path changes. */
    method SetCover(gameId: nat, coverPath: string)
      requires store.Ready()
      modifies store
      ensures store.Ready()
      ensures store.rows == UpdateWhere(old(store.rows), gameId, RowUpdate.SetCover(coverPath))
      ensures store.lastId == old(store.lastId)
      ensures forall i | 0 <= i < |store.rows| && store.rows[i].id == gameId :: store.rows[i].coverPath == Some(coverPath)
    {
      store.UpdateRow(gameId, RowUpdate.SetCover(coverPath));
    }

    /** delete_game(game_id): only that row goes. */
    method DeleteGame(gameId: nat)
      requires store.Ready()
      modifies store
      ensures store.Ready()
      ensures store.rows == DeleteWhere(old(store.rows), gameId)
      ensures store.lastId == old(store.lastId)
      ensures PathOf(store.rows, gameId) == ""
    {
      store.DeleteRow(gameId);
      DeleteEffect(old(store.rows), gameId);
    }

    /** get_file_path(game_id): the stored path, or '' for an id with no row. */
    method GetFilePath(gameId: nat) returns (path: string)
      requires store.Ready()
      ensures !HasId(store.rows, gameId) ==> path == ""
      ensures forall i | 0 <= i < |store.rows| && store.rows[i].id == gameId :: path == store.rows[i].filePath
    {
      path := store.SelectFilePath(gameId);
    }
  }
}
