/** One row of the games table, with the columns in the order the queries select them. */
module GameModel {
  import opened Wrappers

  datatype GameEntry = GameEntry(
    id: nat,                     // INTEGER PRIMARY KEY AUTOINCREMENT
    title: string,               // TEXT NOT NULL
    filePath: string,            // TEXT NOT NULL UNIQUE
    coverPath: Option<string>,   // TEXT, NULL until a cover is set
    lastPlayed: Option<string>,  // TEXT, NULL until the first recorded launch
    playCount: nat               // INTEGER DEFAULT 0
  )
}
