/**
 * The tables that src/db/database.js declares: one record type per table
 * (the `id` column is the key of the table's map, not a record field), the
 * UNIQUE constraints as predicates, and the effect of the module's seven
 * `CREATE TABLE IF NOT EXISTS` statements on a database file.
 */
module Schema {
  import opened Common
  import opened Ids

  /** A row of `cases`; `category` is the `type` column. Every column is NOT NULL text. */
  datatype Case = Case(name: string, description: string, date: string, category: string)

  /** A row of `results`, the parent row of a saved analysis. */
  datatype ResultHeader = ResultHeader(name: string, startDate: string, endDate: string)

  /** A row of `posters`; every column is NOT NULL, `resultId` included. */
  datatype Poster = Poster(name: string, text: string, posterUrl: string, imageUrl: string,
                           resultId: int, textSize: int, textColor: string)

  /** A row of `fields`; `name` is the `field` column. */
  datatype Field = Field(name: string)

  /** A row of `words`; `term` is the `field_word` column. */
  datatype Word = Word(fieldId: int, wordNo: int, term: string)

  /**
   * A row of `result_table`. It has no `words`, `field_name` or
   * `total_occurrences` column; `percentage` is a REAL, kept here in hundredths.
   */
  datatype ResultEntry = ResultEntry(resultId: int, fieldId: int, number: int, percentage: int)

  /**
   * The integer a bound value is compared or stored as in an INTEGER column:
   * a number as itself, a text when INTEGER affinity can read it, and NULL
   * (an absent property) as no integer at all.
   */
  function IntegerValue(c: Cell): (r: Option<int>)
    ensures c.Number? ==> r == Some(c.n)
    ensures c.Missing? ==> r.None?
  {
    match c
    case Number(n) => Some(n)
    case Text(t) => SqlInteger(t)
    case Missing => None
  }

  /** The text a TEXT column stores for a bound value (an integer is stored as its decimal text). */
  function StoredText(c: Cell): string
  {
    match c
    case Text(s) => s
    case Number(n) => IntToDecimal(n)
    case Missing => ""   // NULL; the NOT NULL columns refuse it before it is stored
  }

  /** UNIQUE(field_id, word_no) of `words`. */
  predicate WordsUnique(words: map<int, Word>)
  {
    forall a, b :: a in words && b in words && a != b ==>
      words[a].fieldId != words[b].fieldId || words[a].wordNo != words[b].wordNo
  }

  /** The word numbers in use under field `f`. */
  function WordNos(words: map<int, Word>, f: int): set<int>
  {
    set id | id in words && words[id].fieldId == f :: words[id].wordNo
  }

  /** The id of the word of field `f` numbered `no`; UNIQUE(field_id, word_no) makes it unique. */
  function WordIdWith(words: map<int, Word>, f: int, no: int): (id: int)
    requires WordsUnique(words) && no in WordNos(words, f)
    ensures id in words && words[id].fieldId == f && words[id].wordNo == no
  {
    var id :| id in words && words[id].fieldId == f && words[id].wordNo == no; id
  }

  /**
   * The ids of field `f`'s words in ascending `word_no`: the rows of
   * `... WHERE field_id = f ORDER BY word_no`, and the words of `f` in
   * `... ORDER BY field_id, word_no`.
   */
  function FieldWordIds(words: map<int, Word>, f: int): (r: seq<int>)
    requires WordsUnique(words)
    ensures forall i :: 0 <= i < |r| ==> r[i] in words && words[r[i]].fieldId == f
  {
    var nos := Ascending(WordNos(words, f));
    seq(|nos|, i requires 0 <= i < |nos| => WordIdWith(words, f, nos[i]))
  }

  /**
   * `FieldWordIds` lists every word of field `f` and nothing else, each once,
   * with strictly increasing word numbers.
   */
  lemma FieldWordIdsExact(words: map<int, Word>, f: int)
    requires WordsUnique(words)
    ensures forall id :: id in words && words[id].fieldId == f <==> id in FieldWordIds(words, f)
    ensures forall i, j :: 0 <= i < j < |FieldWordIds(words, f)| ==>
      words[FieldWordIds(words, f)[i]].wordNo < words[FieldWordIds(words, f)[j]].wordNo
  {
    var r := FieldWordIds(words, f);
    var nos := Ascending(WordNos(words, f));
    assert forall i :: 0 <= i < |r| ==> words[r[i]].wordNo == nos[i];
    forall id | id in words && words[id].fieldId == f
      ensures id in r
    {
      var no := words[id].wordNo;
      assert no in WordNos(words, f);
      var i :| 0 <= i < |nos| && nos[i] == no;
      assert r[i] == id;
    }
  }

  /** Whether a word of field `f` already has number `no`. */
  predicate PairTaken(words: map<int, Word>, f: int, no: int)
  {
    exists id :: id in words && words[id].fieldId == f && words[id].wordNo == no
  }

  /**
   * UNIQUE(field_id, word_no): a new row keeps the words unique exactly when
   * no word of its field has its number yet. Nothing else limits how many
   * words a field has.
   */
  lemma UniqueInsert(words: map<int, Word>, id: int, w: Word)
    requires WordsUnique(words) && id !in words
    ensures WordsUnique(words[id := w]) <==> !PairTaken(words, w.fieldId, w.wordNo)
  {
    var m := words[id := w];
    if PairTaken(words, w.fieldId, w.wordNo) {
      var other :| other in words && words[other].fieldId == w.fieldId && words[other].wordNo == w.wordNo;
      assert other != id && other in m && id in m;
      assert m[other].fieldId == m[id].fieldId && m[other].wordNo == m[id].wordNo;
    } else {
      forall a, b | a in m && b in m && a != b
        ensures m[a].fieldId != m[b].fieldId || m[a].wordNo != m[b].wordNo
      {
        if a == id {
          assert b in words;
        } else if b == id {
          assert a in words;
        }
      }
    }
  }

  /** UNIQUE(result_id, field_id) of `result_table`. */
  predicate EntriesUnique(entries: map<int, ResultEntry>)
  {
    forall a, b :: a in entries && b in entries && a != b ==>
      entries[a].resultId != entries[b].resultId || entries[a].fieldId != entries[b].fieldId
  }

  /** Whether a `result_table` row of result `r` already names field `f`. */
  predicate EntryPairTaken(entries: map<int, ResultEntry>, r: int, f: int)
  {
    exists id :: id in entries && entries[id].resultId == r && entries[id].fieldId == f
  }

  /**
   * UNIQUE(result_id, field_id): a new row keeps `result_table` unique
   * exactly when no row of its result names its field yet.
   */
  lemma UniqueEntryInsert(entries: map<int, ResultEntry>, id: int, e: ResultEntry)
    requires EntriesUnique(entries) && id !in entries
    ensures EntriesUnique(entries[id := e]) <==> !EntryPairTaken(entries, e.resultId, e.fieldId)
  {
    var m := entries[id := e];
    if EntryPairTaken(entries, e.resultId, e.fieldId) {
      var other :| other in entries && entries[other].resultId == e.resultId && entries[other].fieldId == e.fieldId;
      assert other != id && other in m && id in m;
      assert m[other].resultId == m[id].resultId && m[other].fieldId == m[id].fieldId;
    } else {
      forall a, b | a in m && b in m && a != b
        ensures m[a].resultId != m[b].resultId || m[a].fieldId != m[b].fieldId
      {
        if a == id {
          assert b in entries;
        } else if b == id {
          assert a in entries;
        }
      }
    }
  }

  /**
   * INTEGER PRIMARY KEY AUTOINCREMENT: `issued` is the table's entry in
   * `sqlite_sequence`, the largest id ever issued; every live id is in [1, issued].
   */
  predicate IdsIssued<T>(m: map<int, T>, issued: int)
  {
    issued >= 0 && forall k :: k in m ==> 1 <= k <= issued
  }

  /**
   * The id AUTOINCREMENT gives the next row is above every id in use, so it
   * is fresh, and the table still satisfies the invariant once it has it.
   */
  lemma NextIdFresh<T>(m: map<int, T>, issued: int, row: T)
    requires IdsIssued(m, issued)
    ensures issued + 1 !in m
    ensures forall k :: k in m ==> k < issued + 1
    ensures IdsIssued(m[issued + 1 := row], issued + 1)
  {
  }

  /** The table `m` after `INSERT`ing `cs` in order with ids `base + 1`, `base + 2`, ... */
  function InsertedAfter<T>(m: map<int, T>, base: int, cs: seq<T>): map<int, T>
    decreases |cs|
  {
    if cs == [] then m else InsertedAfter(m, base, cs[..|cs| - 1])[base + |cs| := cs[|cs| - 1]]
  }

  /**
   * When no id above `base` is in use, the i-th row inserted gets the id
   * `base + i + 1`, and the rows already there stay as they were.
   */
  lemma {:induction false} InsertedAfterIds<T>(m: map<int, T>, base: int, cs: seq<T>)
    requires forall k :: k in m ==> k <= base
    ensures forall k :: k in InsertedAfter(m, base, cs) <==> k in m || base < k <= base + |cs|
    ensures forall k :: k in m ==> InsertedAfter(m, base, cs)[k] == m[k]
    ensures forall i :: 0 <= i < |cs| ==> InsertedAfter(m, base, cs)[base + i + 1] == cs[i]
    decreases |cs|
  {
    if cs != [] {
      InsertedAfterIds(m, base, cs[..|cs| - 1]);
    }
  }

  /** Each inserted row gets an id of its own: the table grows by one row per insert. */
  lemma {:induction false} InsertedAfterSize<T>(m: map<int, T>, base: int, cs: seq<T>)
    requires forall k :: k in m ==> k <= base
    ensures |InsertedAfter(m, base, cs).Keys| == |m.Keys| + |cs|
    decreases |cs|
  {
    if cs != [] {
      var init := InsertedAfter(m, base, cs[..|cs| - 1]);
      InsertedAfterSize(m, base, cs[..|cs| - 1]);
      InsertedAfterIds(m, base, cs[..|cs| - 1]);
      assert base + |cs| !in init;
      assert InsertedAfter(m, base, cs).Keys == init.Keys + {base + |cs|};
    }
  }

  lemma InsertedAfterStep<T>(m: map<int, T>, base: int, cs: seq<T>, n: nat)
    requires n < |cs|
    ensures InsertedAfter(m, base, cs[..n])[base + n + 1 := cs[n]] == InsertedAfter(m, base, cs[..n + 1])
  {
    assert cs[..n + 1][..n] == cs[..n];
  }

  // ------------------------------------------------ the database file, untyped

  /** A stored SQLite value. */
  datatype Value = Null | Int(i: int) | Txt(t: string)

  type RawRow = map<string, Value>

  datatype RawTable = RawTable(columns: seq<string>, rows: seq<RawRow>)

  /** A database file: its tables by name. */
  type DbFile = map<string, RawTable>

  const CasesColumns: seq<string> := ["id", "name", "description", "date", "type"]
  const ResultsColumns: seq<string> := ["id", "name", "start_date", "end_date"]
  const PostersColumns: seq<string> :=
    ["id", "name", "text", "poster_url", "image_url", "result_id", "text_size", "text_color"]
  const FieldsColumns: seq<string> := ["id", "field"]
  const WordsColumns: seq<string> := ["id", "field_id", "word_no", "field_word"]
  const ResultTableColumns: seq<string> := ["id", "result_id", "field_id", "number", "percentage"]
  const CoOccurrenceColumns: seq<string> := ["id", "result_id", "word_1", "word_2", "number"]

  /** The seven tables in the order the module creates them. */
  const Declared: seq<(string, seq<string>)> := [
    ("cases", CasesColumns), ("results", ResultsColumns), ("posters", PostersColumns),
    ("fields", FieldsColumns), ("words", WordsColumns), ("result_table", ResultTableColumns),
    ("co_occurance", CoOccurrenceColumns)]

  /** `CREATE TABLE IF NOT EXISTS name (columns)`. */
  function CreateIfNotExists(db: DbFile, name: string, columns: seq<string>): DbFile
  {
    if name in db then db else db[name := RawTable(columns, [])]
  }

  /** Runs the given CREATE TABLE IF NOT EXISTS statements in order. */
  function CreateAll(db: DbFile, tables: seq<(string, seq<string>)>): DbFile
    decreases |tables|
  {
    if tables == [] then db
    else CreateAll(CreateIfNotExists(db, tables[0].0, tables[0].1), tables[1..])
  }

  /** What importing src/db/database.js does to the database file. */
  function Bootstrap(db: DbFile): DbFile
  {
    CreateAll(db, Declared)
  }

  lemma {:induction false} CreateAllKeeps(db: DbFile, tables: seq<(string, seq<string>)>)
    ensures forall t :: t in db ==> t in CreateAll(db, tables) && CreateAll(db, tables)[t] == db[t]
    ensures forall i :: 0 <= i < |tables| ==> tables[i].0 in CreateAll(db, tables)
    ensures forall t :: t in CreateAll(db, tables) ==>
      t in db || exists i :: 0 <= i < |tables| && tables[i].0 == t
    decreases |tables|
  {
    if tables != [] {
      var db1 := CreateIfNotExists(db, tables[0].0, tables[0].1);
      CreateAllKeeps(db1, tables[1..]);
      forall t | t in CreateAll(db, tables)
        ensures t in db || exists i :: 0 <= i < |tables| && tables[i].0 == t
      {
        if t !in db && t != tables[0].0 {
          var i :| 0 <= i < |tables[1..]| && tables[1..][i].0 == t;
          assert tables[i + 1].0 == t;
        }
      }
      forall i | 0 <= i < |tables|
        ensures tables[i].0 in CreateAll(db, tables)
      {
        if i > 0 {
          assert tables[1..][i - 1] == tables[i];
        }
      }
    }
  }

  lemma {:induction false} CreateAllIdle(db: DbFile, tables: seq<(string, seq<string>)>)
    requires forall i :: 0 <= i < |tables| ==> tables[i].0 in db
    ensures CreateAll(db, tables) == db
    decreases |tables|
  {
    if tables != [] {
      CreateAllIdle(db, tables[1..]);
    }
  }

  /**
   * Importing the module twice does what importing it once does, it never
   * alters or drops a table that exists (rows included), and afterwards all
   * seven tables exist.
   */
  lemma BootstrapIdempotent(db: DbFile)
    ensures Bootstrap(Bootstrap(db)) == Bootstrap(db)
    ensures forall t :: t in db ==> t in Bootstrap(db) && Bootstrap(db)[t] == db[t]
    ensures forall i :: 0 <= i < |Declared| ==> Declared[i].0 in Bootstrap(db)
  {
    CreateAllKeeps(db, Declared);
    CreateAllIdle(Bootstrap(db), Declared);
  }

  lemma {:induction false} CreateAllNew(db: DbFile, tables: seq<(string, seq<string>)>, i: nat)
    requires i < |tables| && tables[i].0 !in db
    requires forall j :: 0 <= j < i ==> tables[j].0 != tables[i].0
    ensures tables[i].0 in CreateAll(db, tables)
    ensures CreateAll(db, tables)[tables[i].0] == RawTable(tables[i].1, [])
    decreases |tables|
  {
    var db1 := CreateIfNotExists(db, tables[0].0, tables[0].1);
    if i == 0 {
      CreateAllKeeps(db1, tables[1..]);
    } else {
      assert tables[1..][i - 1] == tables[i];
      CreateAllNew(db1, tables[1..], i - 1);
    }
  }

  /**
   * On an empty file every table is created empty with its declared columns;
   * in particular `result_table` has no `words` column and `cases` no `content`.
   */
  lemma BootstrapFresh()
    ensures forall i :: 0 <= i < |Declared| ==>
      Declared[i].0 in Bootstrap(map[]) && Bootstrap(map[])[Declared[i].0] == RawTable(Declared[i].1, [])
    ensures "result_table" in Bootstrap(map[]) && "words" !in Bootstrap(map[])["result_table"].columns
    ensures "cases" in Bootstrap(map[]) && "content" !in Bootstrap(map[])["cases"].columns
  {
    forall i | 0 <= i < |Declared|
      ensures Declared[i].0 in Bootstrap(map[]) && Bootstrap(map[])[Declared[i].0] == RawTable(Declared[i].1, [])
    {
      CreateAllNew(map[], Declared, i);
    }
    assert Declared[5].0 == "result_table" && Declared[0].0 == "cases";
  }
}
