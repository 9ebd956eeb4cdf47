/**
 * The user's database file as the launcher sees it: whether the games table
 * exists yet, its rows, and the sqlite_sequence entry AUTOINCREMENT keeps
 * for it. Each method is one SQL statement run on its own connection.
 */
module Database {
  import opened Wrappers
  import opened GameModel
  import opened GameTable

  class Store {
    var hasTable: bool
    var rows: seq<GameEntry>
    var lastId: nat

    function State(): Table
      reads this
    {
      Table(rows, lastId)
    }

    /** The games table exists and obeys its schema. */
    predicate Ready()
      reads this
    {
      hasTable && WellFormed(State())
    }

    /** Opens the database file; `existing` is the games table the file already holds, if any. */
    constructor (existing: Option<Table>)
      requires existing.Some? ==> WellFormed(existing.value)
      ensures hasTable == existing.Some?
      ensures State() == if existing.Some? then existing.value else EmptyTable
    {
      hasTable := existing.Some?;
      if existing.Some? {
        rows, lastId := existing.value.rows, existing.value.lastId;
      } else {
        rows, lastId := [], 0;
      }
    }

    /**
     * initialize_db: CREATE TABLE IF NOT EXISTS games (...). Afterwards the
     * table exists; a table that existed already keeps all its rows.
     */
    method InitializeDb()
      requires hasTable ==> WellFormed(State())
      modifies this
      ensures Ready()
      ensures old(hasTable) ==> State() == old(State())
      ensures !old(hasTable) ==> State() == EmptyTable
    {
      if !hasTable {
        hasTable := true;
        rows, lastId := [], 0;
      }
    }

    /** INSERT INTO games (title, file_path) VALUES (?, ?), with the IntegrityError of a known path swallowed. */
    method InsertGame(title: string, path: string) returns (outcome: InsertOutcome)
      requires Ready()
      modifies this
      ensures Ready()
      ensures State() == Insert(old(State()), title, path)
      ensures outcome == InsertOutcomeOf(old(State()), path)
      ensures outcome.Inserted? <==> !HasPath(old(rows), path)
    {
      outcome := InsertOutcomeOf(State(), path);
      var t := Insert(State(), title, path);
      rows, lastId := t.rows, t.lastId;
    }

    /** SELECT ... FROM games ORDER BY title ASC: every row, exactly as often as it is stored, in title order. */
    method SelectAllByTitle() returns (games: seq<GameEntry>)
      requires Ready()
      ensures SortedByTitle(games)
      ensures multiset(games) == multiset(rows)
    {
      games := SortByTitle(rows);
      SortByTitleCorrect(rows);
    }

    /** SELECT file_path FROM games WHERE id = ?: the row's path, or '' when no row has the id. */
    method SelectFilePath(id: nat) returns (path: string)
      requires Ready()
      ensures !HasId(rows, id) ==> path == ""
      ensures forall i | 0 <= i < |rows| && rows[i].id == id :: path == rows[i].filePath
    {
      path := PathOf(rows, id);
      PathOfRow(rows, id);
    }

    /** UPDATE games SET ... WHERE id = ?: only the row with this id changes, and no id or path does. */
    method UpdateRow(id: nat, u: RowUpdate)
      requires Ready()
      modifies this
      ensures Ready()
      ensures rows == UpdateWhere(old(rows), id, u)
      ensures lastId == old(lastId)
    {
      UpdateKeepsKeys(State(), id, u);
      rows := UpdateWhere(rows, id, u);
    }

    /** DELETE FROM games WHERE id = ?: the row with this id goes, every other row stays in order. */
    method DeleteRow(id: nat)
      requires Ready()
      modifies this
      ensures Ready()
      ensures rows == DeleteWhere(old(rows), id)
      ensures lastId == old(lastId)
    {
      DeleteKeepsWellFormed(State(), id);
      rows := DeleteWhere(rows, id);
    }
  }
}
