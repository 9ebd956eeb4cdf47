/**
 * The games table as a value, and what each SQL statement the launcher
 * issues does to it. The schema's constraints become the predicate
 * WellFormed; every statement is shown to keep it.
 */
module GameTable {
  import opened Wrappers
  import opened GameModel
  import Text

  /**
   * The rows in rowid order, and the AUTOINCREMENT high-water mark SQLite
   * keeps for the table in sqlite_sequence (the largest id ever handed out).
   */
  datatype Table = Table(rows: seq<GameEntry>, lastId: nat)

  predicate HasPath(rows: seq<GameEntry>, path: string) {
    exists i | 0 <= i < |rows| :: rows[i].filePath == path
  }

  predicate HasId(rows: seq<GameEntry>, id: nat) {
    exists i | 0 <= i < |rows| :: rows[i].id == id
  }

  /** A non-empty row list has the id when its first row does or the rest has it. */
  lemma HasIdCons(rows: seq<GameEntry>, id: nat)
    requires rows != []
    ensures HasId(rows, id) <==> rows[0].id == id || HasId(rows[1..], id)
  {
    if HasId(rows, id) && rows[0].id != id {
      var i :| 0 <= i < |rows| && rows[i].id == id;
      assert rows[1..][i - 1].id == id;
    }
    if HasId(rows[1..], id) {
      var i :| 0 <= i < |rows[1..]| && rows[1..][i].id == id;
      assert rows[i + 1].id == id;
    }
  }

  /** Rows are kept in ascending id order, so no two rows share an id. */
  predicate IdsIncreasing(rows: seq<GameEntry>) {
    forall i, j | 0 <= i < j < |rows| :: rows[i].id < rows[j].id
  }

  /** The UNIQUE constraint on file_path. */
  predicate PathsUnique(rows: seq<GameEntry>) {
    forall i, j | 0 <= i < j < |rows| :: rows[i].filePath != rows[j].filePath
  }

  /** The schema's invariant: unique ids, all handed out by AUTOINCREMENT (1 .. lastId), unique paths. */
  predicate WellFormed(t: Table) {
    && IdsIncreasing(t.rows)
    && (forall i | 0 <= i < |t.rows| :: 1 <= t.rows[i].id <= t.lastId)
    && PathsUnique(t.rows)
  }

  /** The table CREATE TABLE IF NOT EXISTS makes: no rows, no id handed out yet. */
  const EmptyTable: Table := Table([], 0)

  lemma EmptyTableWellFormed()
    ensures WellFormed(EmptyTable)
  {
  }

  // ----- INSERT INTO games (title, file_path) VALUES (?, ?) -----

  /** Whether the INSERT added a row (and with which id) or hit the UNIQUE constraint. */
  datatype InsertOutcome = Inserted(id: nat) | AlreadyPresent

  /** The row an INSERT naming only title and file_path creates: the other columns take their defaults. */
  function NewEntry(id: nat, title: string, path: string): GameEntry {
    GameEntry(id, title, path, None, None, 0)
  }

  function InsertOutcomeOf(t: Table, path: string): InsertOutcome {
    if HasPath(t.rows, path) then AlreadyPresent else Inserted(t.lastId + 1)
  }

  /**
   * The INSERT with its IntegrityError swallowed. A path already present
   * leaves the table unchanged; otherwise exactly one row is appended, with
   * the given title and path, play_count 0, no cover and no last_played, and
   * an id above every id handed out before. Existing rows are untouched.
   */
  function Insert(t: Table, title: string, path: string): (r: Table)
    requires WellFormed(t)
    ensures WellFormed(r)
    ensures HasPath(r.rows, path)
    ensures HasPath(t.rows, path) ==> r == t
    ensures !HasPath(t.rows, path) ==>
              && |r.rows| == |t.rows| + 1
              && r.rows[..|t.rows|] == t.rows
              && r.rows[|t.rows|].title == title
              && r.rows[|t.rows|].filePath == path
              && r.rows[|t.rows|].coverPath == None
              && r.rows[|t.rows|].lastPlayed == None
              && r.rows[|t.rows|].playCount == 0
              && r.rows[|t.rows|].id > t.lastId
              && InsertOutcomeOf(t, path) == Inserted(r.rows[|t.rows|].id)
  {
    if HasPath(t.rows, path) then t
    else
      var id := t.lastId + 1;
      var r := Table(t.rows + [NewEntry(id, title, path)], id);
      assert r.rows[|t.rows|].filePath == path;
      r
  }

  /** Inserting the same path twice leaves exactly what inserting it once did. */
  lemma InsertIdempotent(t: Table, title: string, title': string, path: string)
    requires WellFormed(t)
    ensures Insert(Insert(t, title, path), title', path) == Insert(t, title, path)
  {
  }

  /** Each path inserted in turn, with its file stem as title: the inserts of a scan or of several adds. */
  function InsertAll(t: Table, paths: seq<string>): (r: Table)
    requires WellFormed(t)
    ensures WellFormed(r)
  {
    if paths == [] then t
    else
      var last := paths[|paths| - 1];
      Insert(InsertAll(t, paths[..|paths| - 1]), Text.Stem(last), last)
  }

  lemma {:induction false} InsertAllAppend(t: Table, a: seq<string>, b: seq<string>)
    requires WellFormed(t)
    ensures InsertAll(t, a + b) == InsertAll(InsertAll(t, a), b)
    decreases |b|
  {
    if b == [] {
      assert a + b == a;
    } else {
      var b' := b[..|b| - 1];
      assert (a + b)[..|a + b| - 1] == a + b';
      InsertAllAppend(t, a, b');
    }
  }

  /** A row some insert of the list added: a fresh row for one of the paths, titled with its stem. */
  predicate AddedFor(e: GameEntry, paths: seq<string>, lastId: nat) {
    && e.filePath in paths
    && e.title == Text.Stem(e.filePath)
    && e.coverPath == None
    && e.lastPlayed == None
    && e.playCount == 0
    && e.id > lastId
  }

  /** The table r extends t: t's rows are kept in place, and every row after them was added for one of the paths. */
  predicate ExtendsWith(t: Table, r: Table, paths: seq<string>) {
    && |t.rows| <= |r.rows|
    && r.rows[..|t.rows|] == t.rows
    && t.lastId <= r.lastId
    && forall k | |t.rows| <= k < |r.rows| :: AddedFor(r.rows[k], paths, t.lastId)
  }

  /** Rows added for some of the paths were added for the whole list. */
  lemma ExtendsWithWider(t: Table, m: Table, init: seq<string>, paths: seq<string>)
    requires ExtendsWith(t, m, init)
    requires forall p | p in init :: p in paths
    ensures ExtendsWith(t, m, paths)
  {
    forall k | |t.rows| <= k < |m.rows| ensures AddedFor(m.rows[k], paths, t.lastId) {
      assert AddedFor(m.rows[k], init, t.lastId);
    }
  }

  /** Appending one more added row keeps the extension. */
  lemma ExtendsWithAppend(t: Table, m: Table, e: GameEntry, lastId: nat, paths: seq<string>)
    requires ExtendsWith(t, m, paths) && AddedFor(e, paths, t.lastId) && m.lastId <= lastId
    ensures ExtendsWith(t, Table(m.rows + [e], lastId), paths)
  {
    var r := m.rows + [e];
    assert r[..|m.rows|] == m.rows;
    assert r[..|t.rows|] == r[..|m.rows|][..|t.rows|];
    forall k | |t.rows| <= k < |r| ensures AddedFor(r[k], paths, t.lastId) {
      if k < |m.rows| {
        assert r[k] == m.rows[k];
      }
    }
  }

  lemma InsertStep(t: Table, m: Table, paths: seq<string>)
    requires paths != []
    requires WellFormed(m) && ExtendsWith(t, m, paths[..|paths| - 1])
    ensures ExtendsWith(t, Insert(m, Text.Stem(paths[|paths| - 1]), paths[|paths| - 1]), paths)
  {
    var init, last := paths[..|paths| - 1], paths[|paths| - 1];
    assert forall p | p in init :: p in paths;
    ExtendsWithWider(t, m, init, paths);
    if !HasPath(m.rows, last) {
      var e := NewEntry(m.lastId + 1, Text.Stem(last), last);
      assert Insert(m, Text.Stem(last), last) == Table(m.rows + [e], m.lastId + 1);
      assert AddedFor(e, paths, t.lastId);
      ExtendsWithAppend(t, m, e, m.lastId + 1, paths);
    }
  }

  /**
   * Inserting a list of paths keeps every existing row unchanged and in
   * place, and every row it adds is a fresh row for one of the paths, titled
   * with that path's stem, with play_count 0, no cover and no last_played.
   */
  lemma {:induction false} InsertAllExtends(t: Table, paths: seq<string>)
    requires WellFormed(t)
    ensures ExtendsWith(t, InsertAll(t, paths), paths)
  {
    if paths != [] {
      var init := paths[..|paths| - 1];
      InsertAllExtends(t, init);
      InsertStep(t, InsertAll(t, init), paths);
    } else {
      assert t.rows[..|t.rows|] == t.rows;
    }
  }

  /** After inserting a list of paths, every one of them has a row. */
  lemma {:induction false} InsertAllCovers(t: Table, paths: seq<string>)
    requires WellFormed(t)
    ensures forall p | p in paths :: HasPath(InsertAll(t, paths).rows, p)
  {
    if paths != [] {
      var init := paths[..|paths| - 1];
      var last := paths[|paths| - 1];
      InsertAllCovers(t, init);
      var m := InsertAll(t, init);
      var r := InsertAll(t, paths);
      forall p | p in paths ensures HasPath(r.rows, p) {
        if p != last {
          assert p in init;
          var i :| 0 <= i < |m.rows| && m.rows[i].filePath == p;
          assert r.rows[i] == m.rows[i];
        }
      }
    }
  }

  /** Inserting paths that all have rows already changes nothing. */
  lemma {:induction false} InsertAllPresent(t: Table, paths: seq<string>)
    requires WellFormed(t)
    requires forall p | p in paths :: HasPath(t.rows, p)
    ensures InsertAll(t, paths) == t
  {
    if paths != [] {
      var init := paths[..|paths| - 1];
      assert forall p | p in init :: p in paths;
      InsertAllPresent(t, init);
    }
  }

  /** Repeating the same inserts adds nothing: the dedup-by-path that makes scanning idempotent. */
  lemma InsertAllIdempotent(t: Table, paths: seq<string>)
    requires WellFormed(t)
    ensures InsertAll(InsertAll(t, paths), paths) == InsertAll(t, paths)
  {
    InsertAllCovers(t, paths);
    InsertAllPresent(InsertAll(t, paths), paths);
  }

  // ----- SELECT file_path FROM games WHERE id = ? -----

  /** The fetched file_path, or '' when no row has this id. */
  function PathOf(rows: seq<GameEntry>, id: nat): (r: string)
    ensures !HasId(rows, id) ==> r == ""
    ensures HasId(rows, id) ==> exists i | 0 <= i < |rows| :: rows[i].id == id && rows[i].filePath == r
  {
    if rows == [] then ""
    else if rows[0].id == id then rows[0].filePath
    else
      var r := PathOf(rows[1..], id);
      assert HasId(rows[1..], id) ==> HasId(rows, id);
      assert HasId(rows, id) ==> HasId(rows[1..], id) by {
        if HasId(rows, id) {
          var i :| 0 <= i < |rows| && rows[i].id == id;
          assert rows[1..][i - 1].id == id;
        }
      }
      r
  }

  /** With unique ids, the fetched path is the path of the row that has the id. */
  lemma {:induction false} PathOfRow(rows: seq<GameEntry>, id: nat)
    requires IdsIncreasing(rows)
    ensures forall i | 0 <= i < |rows| && rows[i].id == id :: PathOf(rows, id) == rows[i].filePath
  {
    if HasId(rows, id) {
      var j :| 0 <= j < |rows| && rows[j].id == id && rows[j].filePath == PathOf(rows, id);
      assert forall i | 0 <= i < |rows| && rows[i].id == id :: i == j;
    }
  }

  // ----- UPDATE games SET ... WHERE id = ? -----

  /** The two UPDATE statements: the stats update after a launch, and the cover update. */
  datatype RowUpdate = RecordLaunch(now: string) | SetCover(coverPath: string)

  function Apply(u: RowUpdate, e: GameEntry): GameEntry {
    match u
    case RecordLaunch(now) => e.(playCount := e.playCount + 1, lastPlayed := Some(now))
    case SetCover(c) => e.(coverPath := Some(c))
  }

  /** An UPDATE ... WHERE id = ?: the row with that id gets the update, every other row stays as it was. */
  function UpdateWhere(rows: seq<GameEntry>, id: nat, u: RowUpdate): (r: seq<GameEntry>)
    ensures |r| == |rows|
    ensures forall i | 0 <= i < |rows| :: r[i] == if rows[i].id == id then Apply(u, rows[i]) else rows[i]
  {
    if rows == [] then []
    else [if rows[0].id == id then Apply(u, rows[0]) else rows[0]] + UpdateWhere(rows[1..], id, u)
  }

  /** An UPDATE never changes ids or paths, so the schema's invariant and every path lookup survive it. */
  lemma UpdateKeepsKeys(t: Table, id: nat, u: RowUpdate)
    requires WellFormed(t)
    ensures WellFormed(Table(UpdateWhere(t.rows, id, u), t.lastId))
    ensures forall x :: PathOf(UpdateWhere(t.rows, id, u), x) == PathOf(t.rows, x)
  {
    var r := UpdateWhere(t.rows, id, u);
    assert forall i | 0 <= i < |r| :: r[i].id == t.rows[i].id && r[i].filePath == t.rows[i].filePath;
    SameKeysWellFormed(t, r);
    forall x ensures PathOf(r, x) == PathOf(t.rows, x) {
      PathOfSameKeys(t.rows, r, x);
    }
  }

  /** Rows with the same ids and paths, position by position, satisfy the schema's invariant together. */
  lemma SameKeysWellFormed(t: Table, r: seq<GameEntry>)
    requires WellFormed(t) && |r| == |t.rows|
    requires forall i | 0 <= i < |r| :: r[i].id == t.rows[i].id && r[i].filePath == t.rows[i].filePath
    ensures WellFormed(Table(r, t.lastId))
  {
  }

  lemma {:induction false} PathOfSameKeys(a: seq<GameEntry>, b: seq<GameEntry>, x: nat)
    requires |a| == |b|
    requires forall i | 0 <= i < |a| :: a[i].id == b[i].id && a[i].filePath == b[i].filePath
    ensures PathOf(a, x) == PathOf(b, x)
  {
    if a != [] {
      PathOfSameKeys(a[1..], b[1..], x);
    }
  }

  /** An UPDATE addressed to an id with no row leaves the table as it was. */
  lemma UpdateMissingIsNoop(rows: seq<GameEntry>, id: nat, u: RowUpdate)
    requires !HasId(rows, id)
    ensures UpdateWhere(rows, id, u) == rows
  {
    var r := UpdateWhere(rows, id, u);
    assert forall i | 0 <= i < |rows| :: r[i] == rows[i];
  }

  /** The sum of play_count over all rows. */
  function TotalPlays(rows: seq<GameEntry>): nat {
    if rows == [] then 0 else rows[0].playCount + TotalPlays(rows[1..])
  }

  /**
   * Recording a launch raises the library's total play count by exactly one
   * when the id has a row, and by nothing otherwise: ids are unique, so one
   * row at most is bumped.
   */
  lemma {:induction false} RecordLaunchCountsOnce(rows: seq<GameEntry>, id: nat, now: string)
    requires IdsIncreasing(rows)
    ensures TotalPlays(UpdateWhere(rows, id, RecordLaunch(now))) ==
            TotalPlays(rows) + (if HasId(rows, id) then 1 else 0)
  {
    if rows != [] {
      var r := UpdateWhere(rows, id, RecordLaunch(now));
      assert r[1..] == UpdateWhere(rows[1..], id, RecordLaunch(now));
      assert TotalPlays(r) == r[0].playCount + TotalPlays(r[1..]);
      RecordLaunchCountsOnce(rows[1..], id, now);
      HasIdCons(rows, id);
      if rows[0].id == id {
        forall i | 0 <= i < |rows[1..]| ensures rows[1..][i].id != id {
          assert rows[0].id < rows[i + 1].id;
        }
      }
    }
  }

  // ----- DELETE FROM games WHERE id = ? -----

  /** The rows left after the DELETE: all rows whose id differs, in their order. */
  function DeleteWhere(rows: seq<GameEntry>, id: nat): (r: seq<GameEntry>)
    ensures |r| <= |rows|
    ensures forall e | e in r :: e in rows && e.id != id
  {
    if rows == [] then []
    else (if rows[0].id == id then [] else [rows[0]]) + DeleteWhere(rows[1..], id)
  }

  /** The DELETE removes exactly the rows with this id: no row with it is left, every other row is kept. */
  lemma {:induction false} DeleteWhereRows(rows: seq<GameEntry>, id: nat)
    ensures !HasId(DeleteWhere(rows, id), id)
    ensures forall e :: e in DeleteWhere(rows, id) <==> e in rows && e.id != id
  {
    var r := DeleteWhere(rows, id);
    if rows != [] {
      DeleteWhereRows(rows[1..], id);
      var rest := DeleteWhere(rows[1..], id);
      assert rows == [rows[0]] + rows[1..];
      if rows[0].id == id {
        assert r == rest;
      } else {
        assert r == [rows[0]] + rest;
      }
    }
    forall i | 0 <= i < |r| ensures r[i].id != id {
      assert r[i] in r;
    }
  }

  /** Whatever holds of every row still holds of every row the DELETE keeps (ids above a bound, a path avoided). */
  lemma {:induction false} DeleteKeepsBounds(rows: seq<GameEntry>, id: nat, low: int, high: int, path: string)
    requires forall i | 0 <= i < |rows| :: low < rows[i].id <= high && rows[i].filePath != path
    ensures forall j | 0 <= j < |DeleteWhere(rows, id)| ::
              low < DeleteWhere(rows, id)[j].id <= high && DeleteWhere(rows, id)[j].filePath != path
  {
    if rows != [] {
      DeleteKeepsBounds(rows[1..], id, low, high, path);
    }
  }

  /** A row in front of well-formed rows with larger ids and other paths keeps the invariant. */
  lemma ConsWellFormed(e: GameEntry, rest: seq<GameEntry>, lastId: nat)
    requires WellFormed(Table(rest, lastId)) && 1 <= e.id <= lastId
    requires forall j | 0 <= j < |rest| :: e.id < rest[j].id && e.filePath != rest[j].filePath
    ensures WellFormed(Table([e] + rest, lastId))
  {
    var r := [e] + rest;
    forall i, j | 0 <= i < j < |r| ensures r[i].id < r[j].id && r[i].filePath != r[j].filePath {
      assert r[j] == rest[j - 1];
      if i > 0 {
        assert r[i] == rest[i - 1];
      }
    }
  }

  /** Deleting keeps the schema's invariant. */
  lemma {:induction false} DeleteKeepsWellFormed(t: Table, id: nat)
    requires WellFormed(t)
    ensures WellFormed(Table(DeleteWhere(t.rows, id), t.lastId))
    decreases |t.rows|
  {
    if t.rows != [] {
      var rows := t.rows;
      var rest := DeleteWhere(rows[1..], id);
      DeleteKeepsWellFormed(Table(rows[1..], t.lastId), id);
      if rows[0].id != id {
        DeleteKeepsBounds(rows[1..], id, rows[0].id, t.lastId, rows[0].filePath);
        assert DeleteWhere(rows, id) == [rows[0]] + rest;
        ConsWellFormed(rows[0], rest, t.lastId);
      } else {
        assert DeleteWhere(rows, id) == rest;
      }
    }
  }

  /** Deleting an id that has no row changes nothing. */
  lemma {:induction false} DeleteMissingIsNoop(rows: seq<GameEntry>, id: nat)
    requires !HasId(rows, id)
    ensures DeleteWhere(rows, id) == rows
  {
    if rows != [] {
      assert rows[0].id != id;
      assert !HasId(rows[1..], id);
      DeleteMissingIsNoop(rows[1..], id);
    }
  }

  /**
   * After a delete the id's path reads as '', deleting again is a no-op,
   * and every other id reads the same path as before.
   */
  lemma DeleteEffect(rows: seq<GameEntry>, id: nat)
    ensures PathOf(DeleteWhere(rows, id), id) == ""
    ensures DeleteWhere(DeleteWhere(rows, id), id) == DeleteWhere(rows, id)
    ensures forall x | x != id :: PathOf(DeleteWhere(rows, id), x) == PathOf(rows, x)
  {
    DeleteWhereRows(rows, id);
    DeleteMissingIsNoop(DeleteWhere(rows, id), id);
    forall x | x != id ensures PathOf(DeleteWhere(rows, id), x) == PathOf(rows, x) {
      DeleteKeepsOtherPaths(rows, id, x);
    }
  }

  lemma {:induction false} DeleteKeepsOtherPaths(rows: seq<GameEntry>, id: nat, x: nat)
    requires x != id
    ensures PathOf(DeleteWhere(rows, id), x) == PathOf(rows, x)
  {
    if rows != [] {
      DeleteKeepsOtherPaths(rows[1..], id, x);
      var rest := DeleteWhere(rows[1..], id);
      if rows[0].id != id {
        assert DeleteWhere(rows, id) == [rows[0]] + rest;
        assert ([rows[0]] + rest)[1..] == rest;
      } else {
        assert DeleteWhere(rows, id) == rest;
      }
    }
  }

  // ----- SELECT ... FROM games ORDER BY title ASC -----

  /**
   * SQLite's default BINARY collation: titles compare character by
   * character on code points (the byte order of their UTF-8 form), so
   * upper-case letters sort before lower-case ones and a prefix comes first.
   */
  predicate TitleLe(a: string, b: string)
    decreases |a|
  {
    |a| == 0 || (|b| > 0 && (a[0] < b[0] || (a[0] == b[0] && TitleLe(a[1..], b[1..]))))
  }

  lemma {:induction false} TitleLeTotal(a: string, b: string)
    ensures TitleLe(a, b) || TitleLe(b, a)
    decreases |a|
  {
    if |a| > 0 && |b| > 0 && a[0] == b[0] {
      TitleLeTotal(a[1..], b[1..]);
    }
  }

  lemma {:induction false} TitleLeTrans(a: string, b: string, c: string)
    requires TitleLe(a, b) && TitleLe(b, c)
    ensures TitleLe(a, c)
    decreases |a|
  {
    if |a| > 0 && a[0] == b[0] && b[0] == c[0] {
      TitleLeTrans(a[1..], b[1..], c[1..]);
    }
  }

  predicate SortedByTitle(s: seq<GameEntry>) {
    forall i, j | 0 <= i < j < |s| :: TitleLe(s[i].title, s[j].title)
  }

  function InsertByTitle(e: GameEntry, s: seq<GameEntry>): (r: seq<GameEntry>)
    ensures |r| == |s| + 1
  {
    if s == [] then [e]
    else if TitleLe(e.title, s[0].title) then [e] + s
    else [s[0]] + InsertByTitle(e, s[1..])
  }

  /** The order ORDER BY title ASC produces; rows with equal titles may come in any order. */
  function SortByTitle(s: seq<GameEntry>): (r: seq<GameEntry>)
    ensures |r| == |s|
  {
    if s == [] then [] else InsertByTitle(s[0], SortByTitle(s[1..]))
  }

  /** A row whose title is at most every title of a sorted list can go in front of it. */
  lemma SortedCons(x: GameEntry, rest: seq<GameEntry>)
    requires SortedByTitle(rest)
    requires forall j | 0 <= j < |rest| :: TitleLe(x.title, rest[j].title)
    ensures SortedByTitle([x] + rest)
  {
    var r := [x] + rest;
    forall i, j | 0 <= i < j < |r| ensures TitleLe(r[i].title, r[j].title) {
      assert r[j] == rest[j - 1];
      if i > 0 {
        assert r[i] == rest[i - 1];
      }
    }
  }

  /** Inserting a row adds exactly that row. */
  lemma {:induction false} InsertByTitlePermutes(e: GameEntry, s: seq<GameEntry>)
    ensures multiset(InsertByTitle(e, s)) == multiset(s) + multiset{e}
  {
    if s != [] && !TitleLe(e.title, s[0].title) {
      InsertByTitlePermutes(e, s[1..]);
      assert s == [s[0]] + s[1..];
    }
  }

  lemma {:induction false} InsertByTitleElems(e: GameEntry, s: seq<GameEntry>)
    ensures forall j | 0 <= j < |InsertByTitle(e, s)| :: InsertByTitle(e, s)[j] == e || InsertByTitle(e, s)[j] in s
  {
    if s != [] && !TitleLe(e.title, s[0].title) {
      InsertByTitleElems(e, s[1..]);
      var rest := InsertByTitle(e, s[1..]);
      forall j | 0 <= j < |rest| ensures rest[j] == e || rest[j] in s {
        if rest[j] != e {
          assert rest[j] in s[1..];
        }
      }
    }
  }

  lemma {:induction false} InsertByTitleSorted(e: GameEntry, s: seq<GameEntry>)
    requires SortedByTitle(s)
    ensures SortedByTitle(InsertByTitle(e, s))
  {
    if s == [] {
    } else if TitleLe(e.title, s[0].title) {
      forall j | 0 <= j < |s| ensures TitleLe(e.title, s[j].title) {
        if j > 0 {
          TitleLeTrans(e.title, s[0].title, s[j].title);
        }
      }
      SortedCons(e, s);
    } else {
      TitleLeTotal(e.title, s[0].title);
      var tail := s[1..];
      assert SortedByTitle(tail);
      InsertByTitleSorted(e, tail);
      InsertByTitleElems(e, tail);
      var rest := InsertByTitle(e, tail);
      forall j | 0 <= j < |rest| ensures TitleLe(s[0].title, rest[j].title) {
        if rest[j] != e {
          var k :| 0 <= k < |tail| && tail[k] == rest[j];
          assert s[k + 1] == rest[j];
        }
      }
      SortedCons(s[0], rest);
    }
  }

  /** The listing holds every row exactly as often as the table does, sorted by title. */
  lemma {:induction false} SortByTitleCorrect(s: seq<GameEntry>)
    ensures SortedByTitle(SortByTitle(s))
    ensures multiset(SortByTitle(s)) == multiset(s)
  {
    if s != [] {
      SortByTitleCorrect(s[1..]);
      InsertByTitleSorted(s[0], SortByTitle(s[1..]));
      InsertByTitlePermutes(s[0], SortByTitle(s[1..]));
      assert s == [s[0]] + s[1..];
    }
  }
}
