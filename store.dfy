/**
 * The shared SQLite database of src/db/database.js as one object: each table
 * is a map from row id to record, with its AUTOINCREMENT counter. The route
 * handlers of the other modules read and update these fields in place.
 */
module Store {
  import opened Common
  import opened Schema

  class Database {
    var cases: map<int, Case>
    var caseSeq: int
    var results: map<int, ResultHeader>
    var resultSeq: int
    var posters: map<int, Poster>
    var posterSeq: int
    var fields: map<int, Field>
    var fieldSeq: int
    var words: map<int, Word>
    var wordSeq: int
    var entries: map<int, ResultEntry>
    var entrySeq: int

    /**
     * Whether the connection enforces the FOREIGN KEY clauses. It is a
     * setting of the store, not of the schema, so the model takes it as given.
     */
    const foreignKeys: bool

    /** Every FOREIGN KEY clause of the schema holds. */
    ghost predicate References()
      reads this
    {
      && (forall id :: id in words ==> words[id].fieldId in fields)
      && (forall id :: id in entries ==> entries[id].resultId in results && entries[id].fieldId in fields)
      && (forall id :: id in posters ==> posters[id].resultId in results)
    }

    /** The constraints the schema declares, as an object invariant. */
    ghost predicate Valid()
      reads this
    {
      && IdsIssued(cases, caseSeq)
      && IdsIssued(results, resultSeq)
      && IdsIssued(posters, posterSeq)
      && IdsIssued(fields, fieldSeq)
      && IdsIssued(words, wordSeq)
      && IdsIssued(entries, entrySeq)
      && WordsUnique(words)
      && EntriesUnique(entries)
      // result_table rows are only written for a results row just issued
      && (forall id :: id in entries ==> entries[id].resultId <= resultSeq)
      && (foreignKeys ==> References())
    }

    /** The part of `Valid` that concerns `result_table`. */
    ghost predicate EntriesValid()
      reads this
    {
      && IdsIssued(entries, entrySeq)
      && EntriesUnique(entries)
      && (forall id :: id in entries ==> entries[id].resultId <= resultSeq)
      && (foreignKeys ==> forall id :: id in entries ==> entries[id].resultId in results && entries[id].fieldId in fields)
    }

    /** A freshly created database file: every table empty. */
    constructor (foreignKeys: bool)
      ensures Valid()
      ensures this.foreignKeys == foreignKeys
      ensures cases == map[] && results == map[] && posters == map[]
      ensures fields == map[] && words == map[] && entries == map[]
      ensures caseSeq == 0 && resultSeq == 0 && posterSeq == 0
      ensures fieldSeq == 0 && wordSeq == 0 && entrySeq == 0
    {
      this.foreignKeys := foreignKeys;
      cases, results, posters := map[], map[], map[];
      fields, words, entries := map[], map[], map[];
      caseSeq, resultSeq, posterSeq := 0, 0, 0;
      fieldSeq, wordSeq, entrySeq := 0, 0, 0;
    }

    /** `INSERT INTO cases`: the row gets the next id of the counter. */
    method InsertCase(c: Case)
      requires IdsIssued(cases, caseSeq)
      modifies this`cases, this`caseSeq
      ensures IdsIssued(cases, caseSeq)
      ensures cases == old(cases)[old(caseSeq) + 1 := c]
      ensures caseSeq == old(caseSeq) + 1
    {
      cases := cases[caseSeq + 1 := c];
      caseSeq := caseSeq + 1;
    }
    /** `INSERT INTO fields`: the row gets the next id. */
    method InsertField(row: Field)
      requires Valid()
      modifies this`fields, this`fieldSeq
      ensures Valid()
      ensures fields == old(fields)[old(fieldSeq) + 1 := row]
      ensures fieldSeq == old(fieldSeq) + 1
    {
      NextIdFresh(fields, fieldSeq, row);
      fields := fields[fieldSeq + 1 := row];
      fieldSeq := fieldSeq + 1;
    }

    /**
     * `INSERT INTO words` of a row that the UNIQUE constraint and, when
     * enforced, the FOREIGN KEY constraint accept: it gets the next id.
     */
    method InsertWord(row: Word)
      requires Valid()
      requires !PairTaken(words, row.fieldId, row.wordNo)
      requires foreignKeys ==> row.fieldId in fields
      modifies this`words, this`wordSeq
      ensures Valid()
      ensures words == old(words)[old(wordSeq) + 1 := row]
      ensures wordSeq == old(wordSeq) + 1
    {
      NextIdFresh(words, wordSeq, row);
      UniqueInsert(words, wordSeq + 1, row);
      words := words[wordSeq + 1 := row];
      wordSeq := wordSeq + 1;
    }

    /** `INSERT INTO results`: the row gets the next id. */
    method InsertResult(row: ResultHeader)
      requires Valid()
      modifies this`results, this`resultSeq
      ensures Valid()
      ensures results == old(results)[old(resultSeq) + 1 := row]
      ensures resultSeq == old(resultSeq) + 1
    {
      NextIdFresh(results, resultSeq, row);
      results := results[resultSeq + 1 := row];
      resultSeq := resultSeq + 1;
    }

    /**
     * `INSERT INTO result_table` of a row that UNIQUE(result_id, field_id)
     * and, when enforced, both FOREIGN KEY clauses accept.
     */
    method InsertEntry(row: ResultEntry)
      requires EntriesValid()
      requires !EntryPairTaken(entries, row.resultId, row.fieldId) && row.resultId <= resultSeq
      requires foreignKeys ==> row.resultId in results && row.fieldId in fields
      modifies this`entries, this`entrySeq
      ensures EntriesValid()
      ensures entries == old(entries)[old(entrySeq) + 1 := row]
      ensures entrySeq == old(entrySeq) + 1
    {
      NextIdFresh(entries, entrySeq, row);
      UniqueEntryInsert(entries, entrySeq + 1, row);
      entries := entries[entrySeq + 1 := row];
      entrySeq := entrySeq + 1;
    }

    /** `INSERT INTO posters` of a row the FOREIGN KEY clause, when enforced, accepts. */
    method InsertPoster(row: Poster)
      requires Valid()
      requires foreignKeys ==> row.resultId in results
      modifies this`posters, this`posterSeq
      ensures Valid()
      ensures posters == old(posters)[old(posterSeq) + 1 := row]
      ensures posterSeq == old(posterSeq) + 1
    {
      NextIdFresh(posters, posterSeq, row);
      posters := posters[posterSeq + 1 := row];
      posterSeq := posterSeq + 1;
    }
  }
}
