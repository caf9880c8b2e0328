/** save_to_sqlite: the SQLite databases the pipeline writes, as a map from database file
    to the tables in it. */
module Sqlite {
  import opened Frames
  import opened Paths

  /** A table as df.to_sql(..., index=False) stores it: the column names and the records,
      without the index labels. */
  datatype Table = Table(columns: seq<string>, records: seq<seq<Value>>)

  /** Every database file the pipeline has written, each with its tables by name. */
  type Databases = map<string, map<string, Table>>

  /** The frame as stored: the index labels are dropped, the rows are kept in order. */
  function ToTable(f: Frame): (t: Table)
    ensures t.columns == f.columns && |t.records| == |f.rows|
    ensures forall i | 0 <= i < |f.rows| :: t.records[i] == f.rows[i].cells
  {
    Table(f.columns, Cells(f.rows))
  }

  /** The file behind the engine (pipeline.py:53): "<directory>/<db_name>.db". For a
      relative name it is the directory, one '/' unless the directory already ends in one,
      then "<db_name>.db" and nothing else; an absolute name replaces the directory. */
  function DbPath(directory: string, dbName: string): (p: string)
    ensures EndsWith(p, dbName + ".db")
    ensures (|dbName| == 0 || dbName[0] != '/') ==>
      var sep := if directory == [] || directory[|directory| - 1] == '/' then 0 else 1;
      |p| == |directory| + sep + |dbName| + 3 && p[..|directory|] == directory &&
      (sep == 1 ==> p[|directory|] == '/')
    ensures |dbName| > 0 && dbName[0] == '/' ==> p == dbName + ".db"
    ensures '/' !in dbName ==> Basename(p) == dbName + ".db"
  {
    var p := Join(directory, dbName + ".db");
    if '/' in dbName then p
    else
      assert '/' !in dbName + ".db";
      BasenameJoin(directory, dbName + ".db");
      p
  }

  /** The databases after save_to_sqlite (pipeline.py:49-60). With no frame nothing is
      written. When the write fails (writeFails: creating the directory or the engine, or
      to_sql, raised) the exception is caught and nothing is written either. Otherwise
      to_sql(if_exists='replace') makes the table exactly the frame, whether or not it
      existed. */
  function Saved(dbs: Databases, df: Option<Frame>, dbName: string, tableName: string,
                 directory: string, writeFails: bool): (r: Databases)
    ensures df.None? || writeFails ==> r == dbs
    ensures df.Some? && !writeFails ==> r.Keys == dbs.Keys + {DbPath(directory, dbName)}
  {
    if df.None? || writeFails then dbs
    else
      var path := DbPath(directory, dbName);
      var tables := if path in dbs then dbs[path] else map[];
      dbs[path := tables[tableName := ToTable(df.value)]]
  }

  /** Saving None, or a save that fails, changes nothing. Otherwise the named table in the
      named database holds exactly the frame's columns and records, and every other table of
      every database is as it was. */
  lemma SavedSpec(dbs: Databases, df: Option<Frame>, dbName: string, tableName: string,
                  directory: string, writeFails: bool)
    ensures var r := Saved(dbs, df, dbName, tableName, directory, writeFails);
      var path := DbPath(directory, dbName);
      (df.None? || writeFails ==> r == dbs) &&
      (df.Some? && !writeFails ==>
        path in r && tableName in r[path] && r[path][tableName] == ToTable(df.value) &&
        (forall p | p != path :: (p in r <==> p in dbs) && (p in dbs ==> r[p] == dbs[p])) &&
        (forall t | t != tableName ::
          (t in r[path] <==> path in dbs && t in dbs[path]) &&
          (path in dbs && t in dbs[path] ==> r[path][t] == dbs[path][t])))
  {
  }

  /** A save that happens puts the frame in the named table. */
  lemma SavedTable(dbs: Databases, df: Frame, dbName: string, tableName: string, directory: string)
    ensures var r := Saved(dbs, Some(df), dbName, tableName, directory, false);
      DbPath(directory, dbName) in r && tableName in r[DbPath(directory, dbName)] &&
      r[DbPath(directory, dbName)][tableName] == ToTable(df)
  {
  }

  /** A save leaves the tables of every other database file as they were. */
  lemma SavedElsewhere(dbs: Databases, df: Option<Frame>, dbName: string, tableName: string,
                       directory: string, writeFails: bool, path: string)
    requires path != DbPath(directory, dbName) && path in dbs
    ensures var r := Saved(dbs, df, dbName, tableName, directory, writeFails);
      path in r && r[path] == dbs[path]
  {
  }

  /** Replacing a table twice leaves only the second write. */
  lemma LastSaveWins(dbs: Databases, first: Frame, second: Frame, dbName: string,
                     tableName: string, directory: string)
    ensures Saved(Saved(dbs, Some(first), dbName, tableName, directory, false),
                  Some(second), dbName, tableName, directory, false)
         == Saved(dbs, Some(second), dbName, tableName, directory, false)
  {
    var path := DbPath(directory, dbName);
    var tables := if path in dbs then dbs[path] else map[];
    UpdateTwice(tables, tableName, ToTable(first), ToTable(second));
    UpdateTwice(dbs, path, tables[tableName := ToTable(first)], tables[tableName := ToTable(second)]);
  }

  lemma UpdateTwice<K, V>(m: map<K, V>, k: K, a: V, b: V)
    ensures m[k := a][k := b] == m[k := b]
  {
  }

  /** Saving the same frame again, with the same outcome of the write, changes nothing:
      if_exists='replace' makes a repeated save harmless. */
  lemma SavedTwice(dbs: Databases, df: Option<Frame>, dbName: string, tableName: string,
                   directory: string, writeFails: bool)
    ensures var once := Saved(dbs, df, dbName, tableName, directory, writeFails);
      Saved(once, df, dbName, tableName, directory, writeFails) == once
  {
    if df.Some? && !writeFails {
      LastSaveWins(dbs, df.value, df.value, dbName, tableName, directory);
    }
  }

  /** Saves to two different databases do not interfere: either order gives the same result. */
  lemma SavesCommute(dbs: Databases, f: Option<Frame>, g: Option<Frame>, db1: string, t1: string,
                     db2: string, t2: string, directory: string, fails1: bool, fails2: bool)
    requires DbPath(directory, db1) != DbPath(directory, db2)
    ensures Saved(Saved(dbs, f, db1, t1, directory, fails1), g, db2, t2, directory, fails2)
         == Saved(Saved(dbs, g, db2, t2, directory, fails2), f, db1, t1, directory, fails1)
  {
  }

  /** The databases the pipeline writes to. */
  class Store {
    var databases: Databases

    constructor ()
      ensures databases == map[]
    {
      databases := map[];
    }

    /** save_to_sqlite (pipeline.py:49-60). */
    method SaveToSqlite(df: Option<Frame>, dbName: string, tableName: string, directory: string,
                        writeFails: bool)
      modifies this
      ensures databases == Saved(old(databases), df, dbName, tableName, directory, writeFails)
    {
      if df.Some? && !writeFails {
        var dbPath := DbPath(directory, dbName);
        var tables := if dbPath in databases then databases[dbPath] else map[];
        databases := databases[dbPath := tables[tableName := ToTable(df.value)]];
      }
    }
  }
}
