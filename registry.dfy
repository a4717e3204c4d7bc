/**
 * The field and word registry: `GET`, `POST` and `DELETE` of
 * src/app/api/fields/route.js and src/app/api/words/route.js. Fields are
 * the categories of the analysis, words the search terms under each field.
 */
module Registry {
  import opened Common
  import opened Schema
  import opened Ids
  import opened Store

  /** The answer of either `DELETE` handler. */
  datatype DeleteResponse =
    | Removed            // 200 {success: true}
    | IdRequired         // 400 "ID required"
    | ConstraintFailed   // 500: the statement throws "FOREIGN KEY constraint failed"

  /** `m` without the row whose id is `key`, if there is one. */
  function RemoveKey<T>(m: map<int, T>, key: Option<int>): map<int, T>
  {
    if key.Some? then map k | k in m && k != key.value :: m[k] else m
  }

  // -------------------------------------------------------------- fields

  /** GET /api/fields: `SELECT * FROM fields ORDER BY id`. */
  function GetFields(fields: map<int, Field>): (r: seq<(int, Field)>)
    ensures forall id :: id in fields <==> exists i :: 0 <= i < |r| && r[i].0 == id
    ensures forall i :: 0 <= i < |r| ==> r[i].0 in fields && r[i].1 == fields[r[i].0]
    ensures forall i, j :: 0 <= i < j < |r| ==> r[i].0 < r[j].0
  {
    OrderedRowsExact(fields);
    OrderedRows(fields)
  }

  datatype FieldPostResponse =
    | FieldCreated(id: int, field: Field)   // 200, the stored row
    | FieldRequired                         // 400 "Field required"

  /** POST /api/fields with the body's `field`. */
  method PostField(db: Database, field: Cell) returns (resp: FieldPostResponse)
    requires db.Valid()
    modifies db`fields, db`fieldSeq
    ensures db.Valid()
    ensures !Truthy(field) ==>
      resp == FieldRequired && db.fields == old(db.fields) && db.fieldSeq == old(db.fieldSeq)
    ensures Truthy(field) ==>
      && resp == FieldCreated(old(db.fieldSeq) + 1, Field(StoredText(field)))
      && db.fields == old(db.fields)[resp.id := resp.field]
      && db.fieldSeq == resp.id
  {
    if !Truthy(field) {
      return FieldRequired;
    }
    var row := Field(StoredText(field));
    db.InsertField(row);
    resp := FieldCreated(db.fieldSeq, row);
  }

  /** Whether a word or a `result_table` row refers to field `f`. */
  predicate FieldReferenced(words: map<int, Word>, entries: map<int, ResultEntry>, f: int)
  {
    (exists id :: id in words && words[id].fieldId == f)
    || (exists id :: id in entries && entries[id].fieldId == f)
  }

  /** Whether a `result_table` row refers to some field of `fields`. */
  predicate AnyFieldReferenced(entries: map<int, ResultEntry>, fields: map<int, Field>)
  {
    exists id :: id in entries && entries[id].fieldId in fields
  }

  /**
   * DELETE /api/fields with the body's `id` and the truthiness of its
   * `deleteAll`. `deleteAll` empties `words`, then `fields`; when foreign keys
   * are enforced and a `result_table` row still names a field, the second
   * statement throws and the words stay deleted. Deleting one field deletes
   * none of its words; with foreign keys enforced a field that is still
   * referred to cannot be deleted.
   */
  method DeleteField(db: Database, id: Cell, deleteAll: bool) returns (resp: DeleteResponse)
    requires db.Valid()
    modifies db`fields, db`words
    ensures db.Valid()
    ensures deleteAll ==>
      && db.words == map[]
      && if db.foreignKeys && AnyFieldReferenced(old(db.entries), old(db.fields))
         then resp == ConstraintFailed && db.fields == old(db.fields)
         else resp == Removed && db.fields == map[]
    ensures !deleteAll && !Truthy(id) ==>
      resp == IdRequired && db.fields == old(db.fields) && db.words == old(db.words)
    ensures !deleteAll && Truthy(id) ==>
      && db.words == old(db.words)
      && var key := IntegerValue(id);
         if key.Some? && key.value in old(db.fields) && db.foreignKeys
            && FieldReferenced(old(db.words), old(db.entries), key.value)
         then resp == ConstraintFailed && db.fields == old(db.fields)
         else resp == Removed && db.fields == RemoveKey(old(db.fields), key)
    // a field deleted by id leaves its words behind, naming a field that is gone
    ensures !deleteAll && resp == Removed ==>
      forall w :: w in old(db.words) && IntegerValue(id) == Some(old(db.words)[w].fieldId) ==>
        w in db.words && db.words[w].fieldId !in db.fields
  {
    if deleteAll {
      db.words := map[];
      if db.foreignKeys && AnyFieldReferenced(db.entries, db.fields) {
        return ConstraintFailed;
      }
      db.fields := map[];
      return Removed;
    }
    if !Truthy(id) {
      return IdRequired;
    }
    var key := IntegerValue(id);
    if key.Some? && key.value in db.fields && db.foreignKeys && FieldReferenced(db.words, db.entries, key.value) {
      return ConstraintFailed;
    }
    db.fields := RemoveKey(db.fields, key);
    resp := Removed;
  }

  // -------------------------------------------------------------- words

  /**
   * GET /api/words with the query's `field_id`: `SELECT * FROM words WHERE
   * field_id = ? ORDER BY word_no`. The text is compared with INTEGER
   * affinity, so a text that is not an integer matches nothing.
   */
  function GetWords(words: map<int, Word>, fieldParam: Option<string>): (r: seq<(int, Word)>)
    requires WordsUnique(words)
    ensures forall i :: 0 <= i < |r| ==> r[i].0 in words && r[i].1 == words[r[i].0]
  {
    if fieldParam.None? || fieldParam.value == [] then []
    else
      match SqlInteger(fieldParam.value)
      case None => []
      case Some(f) => RowsOf(words, FieldWordIds(words, f))
  }

  /**
   * Asking for field `f` gives exactly the words of `f`, each once, in
   * ascending word number; asking without a field gives none.
   */
  lemma GetWordsExact(words: map<int, Word>, f: int)
    requires WordsUnique(words)
    ensures GetWords(words, None) == [] && GetWords(words, Some("")) == []
    ensures var r := GetWords(words, Some(IntToDecimal(f)));
      && (forall id :: id in words && words[id].fieldId == f <==> exists i :: 0 <= i < |r| && r[i].0 == id)
      && (forall i, j :: 0 <= i < j < |r| ==> r[i].1.wordNo < r[j].1.wordNo)
  {
    SqlIntegerRoundTrip(f);
    FieldWordIdsExact(words, f);
    var ids := FieldWordIds(words, f);
    var r := GetWords(words, Some(IntToDecimal(f)));
    assert r == RowsOf(words, ids);
    forall id | id in words && words[id].fieldId == f
      ensures exists i :: 0 <= i < |r| && r[i].0 == id
    {
      var i :| 0 <= i < |ids| && ids[i] == id;
      assert r[i].0 == id;
    }
  }

  datatype WordPostResponse =
    | WordCreated(id: int, word: Word)   // 200, the stored row
    | AllDataRequired                    // 400 "All data required"
    | WordRejected                       // 500: UNIQUE or FOREIGN KEY constraint failed
    | NotInteger                         // a field_id or word_no SQLite would store as text

  /** POST /api/words with the body's `field_id`, `word_no` and `field_word`. */
  method PostWord(db: Database, fieldId: Cell, wordNo: Cell, fieldWord: Cell) returns (resp: WordPostResponse)
    requires db.Valid()
    modifies db`words, db`wordSeq
    ensures db.Valid()
    ensures !Truthy(fieldId) || !Truthy(wordNo) || !Truthy(fieldWord) ==>
      resp == AllDataRequired && db.words == old(db.words) && db.wordSeq == old(db.wordSeq)
    ensures Truthy(fieldId) && Truthy(wordNo) && Truthy(fieldWord) ==>
      var f := IntegerValue(fieldId);
      var no := IntegerValue(wordNo);
      if f.None? || no.None? then
        resp == NotInteger && db.words == old(db.words) && db.wordSeq == old(db.wordSeq)
      else if PairTaken(old(db.words), f.value, no.value) || (db.foreignKeys && f.value !in db.fields) then
        resp == WordRejected && db.words == old(db.words) && db.wordSeq == old(db.wordSeq)
      else
        && resp == WordCreated(old(db.wordSeq) + 1, Word(f.value, no.value, StoredText(fieldWord)))
        && db.words == old(db.words)[resp.id := resp.word]
        && db.wordSeq == resp.id
  {
    if !Truthy(fieldId) || !Truthy(wordNo) || !Truthy(fieldWord) {
      return AllDataRequired;
    }
    var f := IntegerValue(fieldId);
    var no := IntegerValue(wordNo);
    if f.None? || no.None? {
      return NotInteger;
    }
    if PairTaken(db.words, f.value, no.value) || (db.foreignKeys && f.value !in db.fields) {
      return WordRejected;
    }
    var row := Word(f.value, no.value, StoredText(fieldWord));
    db.InsertWord(row);
    resp := WordCreated(db.wordSeq, row);
  }

  /** DELETE /api/words: `deleteAll` empties `words` only; otherwise the word `id`. */
  method DeleteWord(db: Database, id: Cell, deleteAll: bool) returns (resp: DeleteResponse)
    requires db.Valid()
    modifies db`words
    ensures db.Valid()
    ensures deleteAll ==> resp == Removed && db.words == map[]
    ensures !deleteAll && !Truthy(id) ==> resp == IdRequired && db.words == old(db.words)
    ensures !deleteAll && Truthy(id) ==> resp == Removed && db.words == RemoveKey(old(db.words), IntegerValue(id))
  {
    if deleteAll {
      db.words := map[];
      return Removed;
    }
    if !Truthy(id) {
      return IdRequired;
    }
    db.words := RemoveKey(db.words, IntegerValue(id));
    resp := Removed;
  }
}
