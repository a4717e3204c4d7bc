/**
 * The one-off migration script (src/app/scripts/migrate_cases.js): an old
 * `cases` table with a `content` column is rebuilt as the current one, with
 * `description` in its place, inside a transaction.
 */
module Migration {
  import opened Schema

  /** A column's value in a row; a column the row lacks reads as NULL. */
  function Get(r: RawRow, c: string): Value
  {
    if c in r then r[c] else Null
  }

  /** The columns `SELECT id, name, content, date, type FROM cases_old` reads. */
  const OldColumns: seq<string> := ["id", "name", "content", "date", "type"]

  /** The row the copy inserts for an old row: `content` moves to `description`. */
  function CopyRow(r: RawRow): (n: RawRow)
    ensures n.Keys == set c | c in CasesColumns
    ensures n["id"] == Get(r, "id") && n["name"] == Get(r, "name") && n["description"] == Get(r, "content")
    ensures n["date"] == Get(r, "date") && n["type"] == Get(r, "type")
  {
    map["id" := Get(r, "id"), "name" := Get(r, "name"), "description" := Get(r, "content"),
        "date" := Get(r, "date"), "type" := Get(r, "type")]
  }

  function CopyRows(rows: seq<RawRow>): (r: seq<RawRow>)
    ensures |r| == |rows| && forall i :: 0 <= i < |rows| ==> r[i] == CopyRow(rows[i])
  {
    seq(|rows|, i requires 0 <= i < |rows| => CopyRow(rows[i]))
  }

  /**
   * The copy succeeds on `source`: it has the five columns it selects, every
   * row has an integer id, the ids are distinct and new to `target`, and no
   * NOT NULL column of the new table receives NULL.
   */
  predicate Copyable(source: RawTable, target: RawTable)
  {
    && (forall c :: c in OldColumns ==> c in source.columns)
    && (forall i :: 0 <= i < |source.rows| ==>
          && Get(source.rows[i], "id").Int?
          && Get(source.rows[i], "name") != Null && Get(source.rows[i], "content") != Null
          && Get(source.rows[i], "date") != Null && Get(source.rows[i], "type") != Null)
    && (forall i, j :: 0 <= i < j < |source.rows| ==> Get(source.rows[i], "id") != Get(source.rows[j], "id"))
    && (forall i, j :: 0 <= i < |source.rows| && 0 <= j < |target.rows| ==>
          Get(source.rows[i], "id") != Get(target.rows[j], "id"))
  }

  /** A connection to the database file, with the snapshot a transaction rolls back to. */
  class Connection {
    var file: DbFile
    var snapshot: DbFile
    var inTransaction: bool

    constructor (f: DbFile)
      ensures file == f && !inTransaction
    {
      file := f;
      snapshot := f;
      inTransaction := false;
    }

    /** `BEGIN TRANSACTION`. */
    method Begin()
      requires !inTransaction
      modifies this
      ensures inTransaction && snapshot == file && file == old(file)
    {
      snapshot := file;
      inTransaction := true;
    }

    /** `ALTER TABLE from RENAME TO to`: refused when `from` is missing or `to` is taken. */
    method Rename(from: string, to: string) returns (ok: bool)
      modifies this`file
      ensures ok <==> from in old(file) && to !in old(file)
      ensures ok ==> file == (old(file) - {from})[to := old(file)[from]]
      ensures !ok ==> file == old(file)
    {
      if from in file && to !in file {
        file := (file - {from})[to := file[from]];
        return true;
      }
      return false;
    }

    /** `CREATE TABLE name (...)`: refused when the name is taken. */
    method Create(name: string, columns: seq<string>) returns (ok: bool)
      modifies this`file
      ensures ok <==> name !in old(file)
      ensures ok ==> file == old(file)[name := RawTable(columns, [])]
      ensures !ok ==> file == old(file)
    {
      if name in file {
        return false;
      }
      file := file[name := RawTable(columns, [])];
      return true;
    }

    /** `INSERT INTO cases (id, name, description, date, type) SELECT id, name, content, date, type FROM cases_old`. */
    method CopyCases() returns (ok: bool)
      modifies this`file
      ensures ok <==> "cases" in old(file) && "cases_old" in old(file)
                      && Copyable(old(file)["cases_old"], old(file)["cases"])
      ensures ok ==> file == old(file)["cases" := RawTable(old(file)["cases"].columns,
                                 old(file)["cases"].rows + CopyRows(old(file)["cases_old"].rows))]
      ensures !ok ==> file == old(file)
    {
      if "cases" !in file || "cases_old" !in file || !Copyable(file["cases_old"], file["cases"]) {
        return false;
      }
      var target := file["cases"];
      file := file["cases" := RawTable(target.columns, target.rows + CopyRows(file["cases_old"].rows))];
      return true;
    }

    /** `DROP TABLE name`: refused when there is no such table. */
    method Drop(name: string) returns (ok: bool)
      modifies this`file
      ensures ok <==> name in old(file)
      ensures ok ==> file == old(file) - {name}
      ensures !ok ==> file == old(file)
    {
      if name !in file {
        return false;
      }
      file := file - {name};
      return true;
    }

    /** `COMMIT`: the changes stay. */
    method Commit()
      requires inTransaction
      modifies this`inTransaction
      ensures !inTransaction
    {
      inTransaction := false;
    }

    /** `ROLLBACK`: the file is as it was at `BEGIN`. */
    method Rollback()
      requires inTransaction
      modifies this`file, this`inTransaction
      ensures file == snapshot && !inTransaction
    {
      file := snapshot;
      inTransaction := false;
    }
  }

  /** The migration applies: `cases` exists and has no `description` column yet. */
  predicate Pending(f: DbFile)
  {
    "cases" in f && "description" !in f["cases"].columns
  }

  /** Every statement of the transaction succeeds. */
  predicate Succeeds(f: DbFile)
  {
    Pending(f) && "cases_old" !in f && Copyable(f["cases"], RawTable(CasesColumns, []))
  }

  /** The file after the script, when the file exists. */
  function Migrated(f: DbFile): DbFile
  {
    if Succeeds(f) then f["cases" := RawTable(CasesColumns, CopyRows(f["cases"].rows))]
    else f
  }

  /**
   * The script: exit code 1 and no change when the file is missing, exit
   * code 0 otherwise. A failing statement is followed by ROLLBACK and the
   * script still ends normally.
   */
  method Migrate(conn: Connection, fileExists: bool) returns (code: int)
    requires !conn.inTransaction
    modifies conn
    ensures !conn.inTransaction
    ensures !fileExists ==> code == 1 && conn.file == old(conn.file)
    ensures fileExists ==> code == 0 && conn.file == Migrated(old(conn.file))
  {
    if !fileExists {
      return 1;
    }
    if "cases" !in conn.file {
      return 0;
    }
    var hasDescription := "description" in conn.file["cases"].columns;
    if hasDescription {
      return 0;
    }
    ghost var f := conn.file;
    conn.Begin();
    var ok := conn.Rename("cases", "cases_old");
    if ok {
      ok := conn.Create("cases", CasesColumns);
      assert ok;
      ok := conn.CopyCases();
    }
    if ok {
      ok := conn.Drop("cases_old");
      assert ok;
      assert Succeeds(f);
      var rows := CopyRows(f["cases"].rows);
      assert [] + rows == rows;
      var expected := f["cases" := RawTable(CasesColumns, rows)];
      assert conn.file.Keys == expected.Keys;
      assert conn.file == expected;
      conn.Commit();
    } else {
      conn.Rollback();
    }
    code := 0;
  }

  /** Running the script twice does what running it once does. */
  lemma MigrateIdempotent(f: DbFile)
    ensures Migrated(Migrated(f)) == Migrated(f)
  {
    if Succeeds(f) {
      assert "description" in CasesColumns;
    }
  }

  /**
   * All or nothing: either the file is unchanged, or `cases` has exactly the
   * current columns, every old row reappears in its place with the same id,
   * name, date and type and its `content` as `description`, no `cases_old`
   * is left behind and every other table is untouched.
   */
  lemma MigratedOutcome(f: DbFile)
    ensures !Succeeds(f) ==> Migrated(f) == f
    ensures Succeeds(f) ==>
      var g := Migrated(f);
      && "cases" in g && "cases_old" !in g
      && g["cases"].columns == ["id", "name", "description", "date", "type"]
      && |g["cases"].rows| == |f["cases"].rows|
      && (forall i :: 0 <= i < |f["cases"].rows| ==>
            var o := f["cases"].rows[i];
            var n := g["cases"].rows[i];
            n["id"] == Get(o, "id") && n["name"] == Get(o, "name") && n["description"] == Get(o, "content")
            && n["date"] == Get(o, "date") && n["type"] == Get(o, "type"))
      && (forall t :: t != "cases" ==> (t in g <==> t in f) && (t in f ==> g[t] == f[t]))
  {
  }

  /** A file with no `cases` table, or one already migrated, is left alone. */
  lemma NothingPending(f: DbFile)
    requires !Pending(f)
    ensures Migrated(f) == f
  {
  }

  /** A leftover `cases_old` table makes the rename fail, and the whole migration with it. */
  lemma LeftoverBlocks(f: DbFile)
    requires "cases_old" in f
    ensures Migrated(f) == f
  {
  }
}
