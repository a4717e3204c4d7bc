/**
 * The archive of analyses: src/app/api/results/save/route.js stores one
 * `results` row and one `result_table` row per analysed field, without a
 * transaction; src/app/api/results/get/route.js reads one result back with
 * its rows; src/app/api/results/list/route.js lists every result, newest
 * first.
 */
module Results {
  import opened Common
  import opened Ids
  import opened Schema
  import opened Store

  // ---------------------------------------------------------------- save

  /**
   * One element of the request's `analysis` array as the insert binds it:
   * `field_id` and `total_occurrences` as integers, `percentage` as the
   * number `parseFloat` reads, in hundredths. None stands for an absent or
   * null property, and for the NaN `parseFloat` gives on text that is not a
   * number (SQLite stores NaN as NULL); the NOT NULL columns refuse all of
   * them. The element's `words` and `field_name` are never bound.
   */
  datatype AnalysisItem = AnalysisItem(fieldId: Option<int>, total: Option<int>, percentage: Option<int>)

  /** The request's `analysis`: falsy, a truthy value that is not an array, or an array. */
  datatype AnalysisBody = NoAnalysis | NotArray | Items(items: seq<AnalysisItem>)

  datatype SaveResponse =
    | Saved(resultId: int)   // 200 {success: true, resultId}
    | DataMissing            // 400 "必要なデータが不足しています"
    | SaveFailed             // 500 {error: err.message}

  /** Every column the insert binds from the item is non-NULL. */
  predicate Complete(it: AnalysisItem)
  {
    it.fieldId.Some? && it.total.Some? && it.percentage.Some?
  }

  /** The `result_table` row an item becomes under result `rid`. */
  function EntryRow(rid: int, it: AnalysisItem): ResultEntry
    requires Complete(it)
  {
    ResultEntry(rid, it.fieldId.value, it.total.value, it.percentage.value)
  }

  /** The rows of the first `n` items, in order. */
  function EntryRows(rid: int, items: seq<AnalysisItem>, n: nat): (r: seq<ResultEntry>)
    requires n <= |items| && forall j :: 0 <= j < n ==> Complete(items[j])
    ensures |r| == n && forall j :: 0 <= j < n ==> r[j] == EntryRow(rid, items[j])
  {
    seq(n, j requires 0 <= j < n => EntryRow(rid, items[j]))
  }

  /**
   * Whether the insert of item `i` succeeds once the items before it are
   * stored under a fresh result: its columns are non-NULL, no earlier item
   * names its field (UNIQUE(result_id, field_id)), and, when foreign keys
   * are enforced, its field exists.
   */
  predicate Storable(items: seq<AnalysisItem>, i: int, fields: map<int, Field>, fk: bool)
    requires 0 <= i < |items|
  {
    && Complete(items[i])
    && (forall j :: 0 <= j < i ==> items[j].fieldId != items[i].fieldId)
    && (fk ==> items[i].fieldId.value in fields)
  }

  /** The number of leading items, from item `i` on, whose inserts succeed. */
  function StoredFrom(items: seq<AnalysisItem>, fields: map<int, Field>, fk: bool, i: nat): (k: nat)
    requires i <= |items|
    requires forall j :: 0 <= j < i ==> Storable(items, j, fields, fk) && Complete(items[j])
    ensures i <= k <= |items|
    ensures forall j :: 0 <= j < k ==> Storable(items, j, fields, fk) && Complete(items[j])
    ensures k < |items| ==> !Storable(items, k, fields, fk)
    decreases |items| - i
  {
    if i == |items| || !Storable(items, i, fields, fk) then i else StoredFrom(items, fields, fk, i + 1)
  }

  /** How many child rows a save stores: the items before the first whose insert fails. */
  function StoredCount(items: seq<AnalysisItem>, fields: map<int, Field>, fk: bool): (k: nat)
    ensures k <= |items|
    ensures forall j :: 0 <= j < k ==> Storable(items, j, fields, fk) && Complete(items[j])
    ensures k < |items| ==> !Storable(items, k, fields, fk)
  {
    StoredFrom(items, fields, fk, 0)
  }

  /**
   * A save stores every child row exactly when every item is complete,
   * names an existing field when foreign keys are enforced, and no two
   * items name the same field.
   */
  lemma SaveCompletes(items: seq<AnalysisItem>, fields: map<int, Field>, fk: bool)
    ensures StoredCount(items, fields, fk) == |items| <==>
      && (forall j :: 0 <= j < |items| ==> Complete(items[j]) && (fk ==> items[j].fieldId.value in fields))
      && (forall i, j :: 0 <= i < j < |items| ==> items[i].fieldId != items[j].fieldId)
  {
    var k := StoredCount(items, fields, fk);
    if k == |items| {
      forall j | 0 <= j < |items|
        ensures Complete(items[j]) && (fk ==> items[j].fieldId.value in fields)
      {
        assert Storable(items, j, fields, fk);
      }
      forall i, j | 0 <= i < j < |items|
        ensures items[i].fieldId != items[j].fieldId
      {
        assert Storable(items, j, fields, fk);
      }
    } else {
      assert !Storable(items, k, fields, fk);
    }
  }

  /** Two items naming the same field: the save stops at the second at the latest. */
  lemma DuplicateStops(items: seq<AnalysisItem>, fields: map<int, Field>, fk: bool, i: nat, j: nat)
    requires i < j < |items| && items[i].fieldId == items[j].fieldId
    ensures StoredCount(items, fields, fk) <= j
  {
    assert !Storable(items, j, fields, fk);
  }

  /** `StoredCount` is the one count whose items all succeed and whose next item fails. */
  lemma StoredCountAt(items: seq<AnalysisItem>, fields: map<int, Field>, fk: bool, i: nat)
    requires i <= |items|
    requires forall j :: 0 <= j < i ==> Storable(items, j, fields, fk)
    requires i < |items| ==> !Storable(items, i, fields, fk)
    ensures StoredCount(items, fields, fk) == i
  {
  }

  /** Inserting row `e` with a fresh id adds exactly its (result, field) pair. */
  lemma EntryPairInsert(entries: map<int, ResultEntry>, id: int, e: ResultEntry, r: int, f: int)
    requires id !in entries
    ensures EntryPairTaken(entries[id := e], r, f) <==> EntryPairTaken(entries, r, f) || (e.resultId == r && e.fieldId == f)
  {
    if EntryPairTaken(entries, r, f) {
      var w :| w in entries && entries[w].resultId == r && entries[w].fieldId == f;
      assert w in entries[id := e] && entries[id := e][w] == entries[w];
    }
    if e.resultId == r && e.fieldId == f {
      assert id in entries[id := e];
    }
  }

  /**
   * While a save runs, the fields taken under its result are those of the
   * items stored so far, so item `i` succeeds exactly when the database
   * accepts its row.
   */
  lemma ItemOutcome(entries: map<int, ResultEntry>, rid: int, items: seq<AnalysisItem>, i: nat,
                    fields: map<int, Field>, fk: bool)
    requires i < |items|
    requires forall f :: EntryPairTaken(entries, rid, f) <==> exists j :: 0 <= j < i && items[j].fieldId == Some(f)
    ensures Storable(items, i, fields, fk) <==>
      && Complete(items[i])
      && !EntryPairTaken(entries, rid, items[i].fieldId.value)
      && (fk ==> items[i].fieldId.value in fields)
  {
    if Complete(items[i]) && EntryPairTaken(entries, rid, items[i].fieldId.value) {
      var j :| 0 <= j < i && items[j].fieldId == items[i].fieldId;
    }
  }

  /** Storing item `i` adds its field to those taken under the result. */
  lemma PairsAfterInsert(entries: map<int, ResultEntry>, id: int, rid: int, items: seq<AnalysisItem>, i: nat)
    requires i < |items| && Complete(items[i]) && id !in entries
    requires forall f :: EntryPairTaken(entries, rid, f) <==> exists j :: 0 <= j < i && items[j].fieldId == Some(f)
    ensures forall f :: EntryPairTaken(entries[id := EntryRow(rid, items[i])], rid, f) <==>
      exists j :: 0 <= j < i + 1 && items[j].fieldId == Some(f)
  {
    forall f
      ensures EntryPairTaken(entries[id := EntryRow(rid, items[i])], rid, f) <==>
        exists j :: 0 <= j < i + 1 && items[j].fieldId == Some(f)
    {
      EntryPairInsert(entries, id, EntryRow(rid, items[i]), rid, f);
      if items[i].fieldId == Some(f) {
        assert 0 <= i < i + 1;
      }
    }
  }

  /** The table after `i + 1` child rows is the table after `i` plus row `i + 1`. */
  lemma EntryRowsStep(m: map<int, ResultEntry>, base: int, rid: int, items: seq<AnalysisItem>, i: nat)
    requires i < |items| && forall j :: 0 <= j <= i ==> Complete(items[j])
    ensures InsertedAfter(m, base, EntryRows(rid, items, i))[base + i + 1 := EntryRow(rid, items[i])]
      == InsertedAfter(m, base, EntryRows(rid, items, i + 1))
  {
    var cs := EntryRows(rid, items, i + 1);
    InsertedAfterStep(m, base, cs, i);
    assert cs[..i] == EntryRows(rid, items, i);
  }

  /**
   * The table after the first `i` items were stored: each was storable,
   * their (result, field) pairs are the ones taken under `rid`, and the table
   * is `m0` plus their rows numbered from `base + 1`.
   */
  ghost predicate SavedUpTo(entries: map<int, ResultEntry>, entrySeq: int, fields: map<int, Field>, fk: bool,
                            rid: int, items: seq<AnalysisItem>, m0: map<int, ResultEntry>, base: int, i: nat)
    requires i <= |items|
  {
    && (forall j :: 0 <= j < i ==> Storable(items, j, fields, fk) && Complete(items[j]))
    && (forall f :: EntryPairTaken(entries, rid, f) <==> exists j :: 0 <= j < i && items[j].fieldId == Some(f))
    && entries == InsertedAfter(m0, base, EntryRows(rid, items, i))
    && entrySeq == base + i
  }

  /** Storing a storable item `i` under the next id gives the table after `i + 1` items. */
  lemma SavedNext(entries: map<int, ResultEntry>, entrySeq: int, fields: map<int, Field>, fk: bool,
                  rid: int, items: seq<AnalysisItem>, m0: map<int, ResultEntry>, base: int, i: nat)
    requires i < |items| && SavedUpTo(entries, entrySeq, fields, fk, rid, items, m0, base, i)
    requires Complete(items[i]) && !EntryPairTaken(entries, rid, items[i].fieldId.value)
    requires fk ==> items[i].fieldId.value in fields
    requires entrySeq + 1 !in entries
    ensures SavedUpTo(entries[entrySeq + 1 := EntryRow(rid, items[i])], entrySeq + 1, fields, fk, rid, items, m0, base, i + 1)
  {
    ItemOutcome(entries, rid, items, i, fields, fk);
    PairsAfterInsert(entries, entrySeq + 1, rid, items, i);
    EntryRowsStep(m0, base, rid, items, i);
  }

  /** When the database refuses item `i`'s row, `i` is the count stored. */
  lemma RefusedAt(entries: map<int, ResultEntry>, entrySeq: int, fields: map<int, Field>, fk: bool,
                  rid: int, items: seq<AnalysisItem>, m0: map<int, ResultEntry>, base: int, i: nat)
    requires i < |items| && SavedUpTo(entries, entrySeq, fields, fk, rid, items, m0, base, i)
    requires !Complete(items[i]) || EntryPairTaken(entries, rid, items[i].fieldId.value)
      || (fk && items[i].fieldId.value !in fields)
    ensures StoredCount(items, fields, fk) == i
  {
    ItemOutcome(entries, rid, items, i, fields, fk);
    StoredCountAt(items, fields, fk, i);
  }

  /**
   * One pass of the handler's loop: the `INSERT` for item `i`. When the
   * database refuses the row nothing changes and `i` items is the count
   * stored.
   */
  method SaveItem(db: Database, rid: int, items: seq<AnalysisItem>, ghost m0: map<int, ResultEntry>, ghost base: int, i: nat)
    returns (ok: bool)
    requires i < |items| && db.EntriesValid() && db.resultSeq == rid && (db.foreignKeys ==> rid in db.results)
    requires SavedUpTo(db.entries, db.entrySeq, db.fields, db.foreignKeys, rid, items, m0, base, i)
    modifies db`entries, db`entrySeq
    ensures db.EntriesValid()
    ensures ok ==> SavedUpTo(db.entries, db.entrySeq, db.fields, db.foreignKeys, rid, items, m0, base, i + 1)
    ensures !ok ==> (StoredCount(items, db.fields, db.foreignKeys) == i
      && db.entries == old(db.entries) && db.entrySeq == old(db.entrySeq))
  {
    if !Complete(items[i]) || EntryPairTaken(db.entries, rid, items[i].fieldId.value)
       || (db.foreignKeys && items[i].fieldId.value !in db.fields)
    {
      RefusedAt(db.entries, db.entrySeq, db.fields, db.foreignKeys, rid, items, m0, base, i);
      return false;
    }
    NextIdFresh(db.entries, db.entrySeq, EntryRow(rid, items[i]));
    SavedNext(db.entries, db.entrySeq, db.fields, db.foreignKeys, rid, items, m0, base, i);
    db.InsertEntry(EntryRow(rid, items[i]));
    ok := true;
  }

  /**
   * The loop of the handler: one `INSERT INTO result_table` per item, in
   * order, under result `rid`, until one fails. The rows before the failure
   * stay.
   */
  method SaveEntries(db: Database, rid: int, items: seq<AnalysisItem>) returns (stored: nat)
    requires db.EntriesValid()
    requires rid == db.resultSeq && (db.foreignKeys ==> rid in db.results)
    requires forall id :: id in db.entries ==> db.entries[id].resultId < rid
    modifies db`entries, db`entrySeq
    ensures db.EntriesValid()
    ensures stored == StoredCount(items, db.fields, db.foreignKeys)
    ensures db.entries == InsertedAfter(old(db.entries), old(db.entrySeq), EntryRows(rid, items, stored))
    ensures db.entrySeq == old(db.entrySeq) + stored
  {
    ghost var base := db.entrySeq;
    assert InsertedAfter(old(db.entries), base, EntryRows(rid, items, 0)) == db.entries;
    assert forall f :: !EntryPairTaken(db.entries, rid, f);
    stored := 0;
    for i := 0 to |items|
      invariant stored == i
      invariant db.EntriesValid()
      invariant SavedUpTo(db.entries, db.entrySeq, db.fields, db.foreignKeys, rid, items, old(db.entries), base, i)
    {
      var ok := SaveItem(db, rid, items, old(db.entries), base, i);
      if !ok {
        return;
      }
      stored := stored + 1;
    }
    StoredCountAt(items, db.fields, db.foreignKeys, |items|);
  }

  /**
   * POST /api/results/save with the body's `name`, `start_date`, `end_date`
   * and `analysis`. A falsy value writes nothing; otherwise the parent row
   * is written first and stays whatever happens to the child rows.
   */
  method Save(db: Database, name: Cell, startDate: Cell, endDate: Cell, analysis: AnalysisBody)
    returns (resp: SaveResponse)
    requires db.Valid()
    modifies db`results, db`resultSeq, db`entries, db`entrySeq
    ensures db.Valid()
    ensures !Truthy(name) || !Truthy(startDate) || !Truthy(endDate) || analysis.NoAnalysis? ==>
      && resp == DataMissing
      && db.results == old(db.results) && db.resultSeq == old(db.resultSeq)
      && db.entries == old(db.entries) && db.entrySeq == old(db.entrySeq)
    ensures Truthy(name) && Truthy(startDate) && Truthy(endDate) && !analysis.NoAnalysis? ==>
      var rid := old(db.resultSeq) + 1;
      && db.results == old(db.results)[rid := ResultHeader(StoredText(name), StoredText(startDate), StoredText(endDate))]
      && db.resultSeq == rid
      && (analysis.NotArray? ==>
            resp == SaveFailed && db.entries == old(db.entries) && db.entrySeq == old(db.entrySeq))
      && (analysis.Items? ==>
            var k := StoredCount(analysis.items, db.fields, db.foreignKeys);
            && db.entries == InsertedAfter(old(db.entries), old(db.entrySeq), EntryRows(rid, analysis.items, k))
            && db.entrySeq == old(db.entrySeq) + k
            && resp == (if k == |analysis.items| then Saved(rid) else SaveFailed))
  {
    if !Truthy(name) || !Truthy(startDate) || !Truthy(endDate) || analysis.NoAnalysis? {
      return DataMissing;
    }
    db.InsertResult(ResultHeader(StoredText(name), StoredText(startDate), StoredText(endDate)));
    var rid := db.resultSeq;
    if analysis.NotArray? {
      return SaveFailed;
    }
    var stored := SaveEntries(db, rid, analysis.items);
    resp := if stored == |analysis.items| then Saved(rid) else SaveFailed;
  }

  // ---------------------------------------------------------------- get

  /**
   * What the handler finds in a row's `words`: nothing, text that is not
   * JSON, or a JSON array of strings.
   */
  datatype WordsText = Absent | Unparseable | JsonList(list: seq<string>)

  /** `result_table` has no `words` column, so every row reads as having none. */
  function StoredWords(e: ResultEntry): WordsText
  {
    Absent
  }

  /** `r.words ? JSON.parse(r.words) : []`, with the parse error caught as `[]`. */
  function ParsedWords(t: WordsText): seq<string>
  {
    match t
    case JsonList(list) => list
    case _ => []
  }

  /** A list made exactly three long: its first three items, padded with "" when shorter. */
  function Padded(words: seq<string>): (r: seq<string>)
    ensures |r| == 3
    ensures forall i :: 0 <= i < 3 ==> r[i] == (if i < |words| then words[i] else "")
  {
    PadTo(words, 3)
  }

  /** The `while` that pads with "" and the `slice` that cuts to three. */
  method PadWords(words: seq<string>) returns (r: seq<string>)
    ensures r == Padded(words)
  {
    r := words;
    while |r| < 3
      invariant |words| <= |r| && (|words| < 3 ==> |r| <= 3)
      invariant r == words + seq(|r| - |words|, _ => "")
      decreases 3 - |r|
    {
      r := r + [""];
    }
    if |r| > 3 {
      r := r[..3];
    }
  }

  /**
   * One element of the returned `result`: the row's `field_id` and
   * `percentage` and the padded words. `field_name` and `total_occurrences`
   * name no column of `result_table`, so they are undefined and JSON drops them.
   */
  datatype EntryView = EntryView(fieldId: int, percentage: int, words: seq<string>)

  datatype GetResponse =
    | Found(id: int, header: ResultHeader, result: seq<EntryView>)   // 200 {...result, result}
    | IdRequired                                                     // 400 "ID required"
    | NotFound                                                       // 404 "Result not found"

  /** The element a row becomes. */
  function View(e: ResultEntry): EntryView
  {
    EntryView(e.fieldId, e.percentage, Padded(ParsedWords(StoredWords(e))))
  }

  /** The ids of `ids` whose rows belong to result `rid`, in the order of `ids`. */
  function ChildIds(entries: map<int, ResultEntry>, ids: seq<int>, rid: int): (r: seq<int>)
    requires forall i :: 0 <= i < |ids| ==> ids[i] in entries
    ensures forall x :: x in r <==> x in ids && entries[x].resultId == rid
    ensures StrictlyIncreasing(ids) ==> StrictlyIncreasing(r)
    decreases |ids|
  {
    if ids == [] then []
    else
      var rest := ChildIds(entries, ids[1..], rid);
      if entries[ids[0]].resultId == rid then
        SubsequenceHead(ids, rest);
        [ids[0]] + rest
      else rest
  }

  /** Putting the head of an increasing sequence before increasing elements of its tail keeps it increasing. */
  lemma SubsequenceHead(ids: seq<int>, rest: seq<int>)
    requires |ids| > 0 && forall x :: x in rest ==> x in ids[1..]
    ensures StrictlyIncreasing(ids) && StrictlyIncreasing(rest) ==> StrictlyIncreasing([ids[0]] + rest)
  {
    if StrictlyIncreasing(ids) && StrictlyIncreasing(rest) {
      var r := [ids[0]] + rest;
      forall a, b | 0 <= a < b < |r|
        ensures r[a] < r[b]
      {
        assert r[b] == rest[b - 1] && rest[b - 1] in ids[1..];
        var k :| 0 <= k < |ids[1..]| && ids[1..][k] == rest[b - 1];
        assert ids[k + 1] == rest[b - 1];
        if a > 0 {
          assert r[a] == rest[a - 1];
        }
      }
    }
  }

  /** The ids of the rows of result `rid`, ascending: each such row once, no other. */
  function ChildIdsOf(entries: map<int, ResultEntry>, rid: int): (r: seq<int>)
    ensures forall x :: x in r <==> x in entries && entries[x].resultId == rid
    ensures StrictlyIncreasing(r)
  {
    var asc := Ascending(entries.Keys);
    assert forall i :: 0 <= i < |asc| ==> asc[i] in entries by {
      forall i | 0 <= i < |asc|
        ensures asc[i] in entries
      {
        assert asc[i] in asc;
      }
    }
    ChildIds(entries, asc, rid)
  }

  /**
   * The order of the index SQLite builds for UNIQUE(result_id, field_id),
   * which answers `WHERE result_id = ?`: by field id, then by row id.
   */
  predicate IndexBefore(a: (int, ResultEntry), b: (int, ResultEntry))
  {
    a.1.fieldId < b.1.fieldId || (a.1.fieldId == b.1.fieldId && a.0 < b.0)
  }

  predicate IndexOrdered(rows: seq<(int, ResultEntry)>)
  {
    forall i, j :: 0 <= i < j < |rows| ==> IndexBefore(rows[i], rows[j])
  }

  /** `row` put into its place among index-ordered rows of other ids. */
  function InsertInIndex(row: (int, ResultEntry), rows: seq<(int, ResultEntry)>): (r: seq<(int, ResultEntry)>)
    requires IndexOrdered(rows)
    requires forall i :: 0 <= i < |rows| ==> rows[i].0 != row.0
    ensures |r| == |rows| + 1
    ensures forall x :: x in r <==> x == row || x in rows
    ensures IndexOrdered(r)
    decreases |rows|
  {
    if rows == [] || IndexBefore(row, rows[0]) then [row] + rows
    else
      var tail := InsertInIndex(row, rows[1..]);
      assert forall j :: 0 <= j < |tail| ==> tail[j] == row || tail[j] in rows[1..];
      [rows[0]] + tail
  }

  /** Rows of distinct ids in index order. */
  function IndexSorted(rows: seq<(int, ResultEntry)>): (r: seq<(int, ResultEntry)>)
    requires forall i, j :: 0 <= i < j < |rows| ==> rows[i].0 != rows[j].0
    ensures |r| == |rows|
    ensures forall x :: x in r <==> x in rows
    ensures IndexOrdered(r)
    decreases |rows|
  {
    if rows == [] then []
    else
      var rest := IndexSorted(rows[1..]);
      assert forall i :: 0 <= i < |rest| ==> rest[i].0 != rows[0].0 by {
        forall i | 0 <= i < |rest|
          ensures rest[i].0 != rows[0].0
        {
          assert rest[i] in rows[1..];
        }
      }
      InsertInIndex(rows[0], rest)
  }

  /** `row` is row `row.0` of the table, and it belongs to result `rid`. */
  predicate ChildRowOf(entries: map<int, ResultEntry>, rid: int, row: (int, ResultEntry))
  {
    row.0 in entries && row.1 == entries[row.0] && row.1.resultId == rid
  }

  /** Rows drawn from a list of child rows are child rows too. */
  lemma ChildRowsWithin(entries: map<int, ResultEntry>, rid: int, r: seq<(int, ResultEntry)>, s: seq<(int, ResultEntry)>)
    requires forall x :: x in r ==> x in s
    requires forall j :: 0 <= j < |s| ==> ChildRowOf(entries, rid, s[j])
    ensures forall i :: 0 <= i < |r| ==> ChildRowOf(entries, rid, r[i])
  {
    forall i | 0 <= i < |r|
      ensures ChildRowOf(entries, rid, r[i])
    {
      assert r[i] in s;
    }
  }

  /** The child rows in ascending id: distinct ids, and every child row among them. */
  lemma ChildRowsById(entries: map<int, ResultEntry>, rid: int, ids: seq<int>, byId: seq<(int, ResultEntry)>)
    requires forall x :: x in ids <==> x in entries && entries[x].resultId == rid
    requires StrictlyIncreasing(ids)
    requires |byId| == |ids|
    requires forall i :: 0 <= i < |byId| ==> byId[i].0 == ids[i] && byId[i].0 in entries && byId[i].1 == entries[byId[i].0]
    ensures forall i, j :: 0 <= i < j < |byId| ==> byId[i].0 != byId[j].0
    ensures forall i :: 0 <= i < |byId| ==> ChildRowOf(entries, rid, byId[i])
    ensures forall k :: k in entries && entries[k].resultId == rid ==> (k, entries[k]) in byId
  {
    forall i | 0 <= i < |byId|
      ensures ChildRowOf(entries, rid, byId[i])
    {
      assert ids[i] in ids;
    }
    forall k | k in entries && entries[k].resultId == rid
      ensures (k, entries[k]) in byId
    {
      var i :| 0 <= i < |ids| && ids[i] == k;
      assert byId[i] == (k, entries[k]);
    }
  }

  /**
   * `SELECT * FROM result_table WHERE result_id = ?`: every row of result
   * `rid` once, and no other, in the index's order.
   */
  function ChildRows(entries: map<int, ResultEntry>, rid: int): (r: seq<(int, ResultEntry)>)
    ensures forall i :: 0 <= i < |r| ==> ChildRowOf(entries, rid, r[i])
    ensures IndexOrdered(r)
  {
    var byId := ChildRowsByIds(entries, rid);
    var r := IndexSorted(byId);
    ChildRowsWithin(entries, rid, r, byId);
    r
  }

  /** Index-ordered rows of one table never repeat an id. */
  lemma OrderedIdsDistinct(entries: map<int, ResultEntry>, rid: int, r: seq<(int, ResultEntry)>)
    requires forall i :: 0 <= i < |r| ==> ChildRowOf(entries, rid, r[i])
    requires IndexOrdered(r)
    ensures forall i, j :: 0 <= i < j < |r| ==> r[i].0 != r[j].0
  {
    forall i, j | 0 <= i < j < |r|
      ensures r[i].0 != r[j].0
    {
      assert IndexBefore(r[i], r[j]) && ChildRowOf(entries, rid, r[i]) && ChildRowOf(entries, rid, r[j]);
    }
  }

  /** The rows of result `rid` in ascending id, before they are put in index order. */
  function ChildRowsByIds(entries: map<int, ResultEntry>, rid: int): (r: seq<(int, ResultEntry)>)
    ensures |r| == |ChildIdsOf(entries, rid)|
    ensures forall i, j :: 0 <= i < j < |r| ==> r[i].0 != r[j].0
    ensures forall i :: 0 <= i < |r| ==> ChildRowOf(entries, rid, r[i])
    ensures forall k :: k in entries && entries[k].resultId == rid ==> (k, entries[k]) in r
  {
    var ids := ChildIdsOf(entries, rid);
    assert forall i :: 0 <= i < |ids| ==> ids[i] in ids;
    var byId := RowsOf(entries, ids);
    assert forall i :: 0 <= i < |byId| ==> byId[i].0 == ids[i] && byId[i].0 in entries && byId[i].1 == entries[byId[i].0];
    ChildRowsById(entries, rid, ids, byId);
    byId
  }

  /** Every row of result `rid` is read back, once: as many rows as the result has. */
  lemma ChildRowsComplete(entries: map<int, ResultEntry>, rid: int)
    ensures |ChildRows(entries, rid)| == |ChildIdsOf(entries, rid)|
    ensures forall k :: k in entries && entries[k].resultId == rid ==> (k, entries[k]) in ChildRows(entries, rid)
  {
    var byId := ChildRowsByIds(entries, rid);
    assert ChildRows(entries, rid) == IndexSorted(byId);
  }

  /**
   * GET /api/results/get with the query's `id`: the `results` row and its
   * `result_table` rows. A text that is not an integer matches no id.
   */
  method Get(db: Database, idParam: Option<string>) returns (resp: GetResponse)
    ensures idParam.None? || idParam == Some("") ==> resp == IdRequired
    ensures idParam.Some? && idParam.value != "" ==>
      var key := SqlInteger(idParam.value);
      if key.None? || key.value !in db.results then resp == NotFound
      else
        var rows := ChildRows(db.entries, key.value);
        && resp.Found? && resp.id == key.value && resp.header == db.results[key.value]
        && |resp.result| == |rows|
        && forall i :: 0 <= i < |rows| ==> resp.result[i] == View(rows[i].1)
  {
    if idParam.None? || idParam.value == "" {
      return IdRequired;
    }
    var key := SqlInteger(idParam.value);
    if key.None? || key.value !in db.results {
      return NotFound;
    }
    var rows := ChildRows(db.entries, key.value);
    var result := ViewRows(rows);
    resp := Found(key.value, db.results[key.value], result);
  }

  /** The `map` over the rows: one element per row, in order. */
  method ViewRows(rows: seq<(int, ResultEntry)>) returns (result: seq<EntryView>)
    ensures |result| == |rows| && forall i :: 0 <= i < |rows| ==> result[i] == View(rows[i].1)
  {
    result := [];
    for i := 0 to |rows|
      invariant |result| == i
      invariant forall j :: 0 <= j < i ==> result[j] == View(rows[j].1)
    {
      var e := rows[i].1;
      var words := PadWords(ParsedWords(StoredWords(e)));
      result := result + [EntryView(e.fieldId, e.percentage, words)];
    }
  }

  /**
   * Since no row has a `words` column, every element's words come back as
   * three empty strings, whatever was saved.
   */
  lemma WordsAlwaysBlank(e: ResultEntry)
    ensures View(e).words == ["", "", ""]
  {
    var w := View(e).words;
    assert w[0] == "" && w[1] == "" && w[2] == "";
  }

  /** A strictly increasing sequence holding exactly `base + 1 .. base + n` lists them in order. */
  lemma {:induction false} ContiguousRun(s: seq<int>, base: int, n: nat)
    requires StrictlyIncreasing(s)
    requires forall k :: k in s <==> base < k <= base + n
    ensures |s| == n && forall i :: 0 <= i < |s| ==> s[i] == base + i + 1
    decreases n
  {
    if n == 0 {
      assert multiset(s) == multiset{};
    } else {
      assert base + n in s;
      var t := s[..|s| - 1];
      assert s[|s| - 1] in s;
      var i :| 0 <= i < |s| && s[i] == base + n;
      assert s[|s| - 1] <= base + n;
      assert i == |s| - 1;
      forall k
        ensures k in t <==> base < k <= base + (n - 1)
      {
        if k in t {
          var i :| 0 <= i < |t| && t[i] == k;
          assert s[i] == k && s[i] < s[|s| - 1] && s[i] in s;
        }
        if base < k <= base + (n - 1) {
          assert k in s;
          var i :| 0 <= i < |s| && s[i] == k;
          assert i != |s| - 1;
          assert t[i] == k;
        }
      }
      ContiguousRun(t, base, n - 1);
      assert s == t + [base + n];
    }
  }

  /**
   * After a save that stored every child row, the rows of the new result
   * are exactly the ids `base + 1 .. base + n`, holding the items' rows in order.
   */
  lemma SavedRows(entries: map<int, ResultEntry>, base: int, rid: int, items: seq<AnalysisItem>)
    requires forall k :: k in entries ==> k <= base && entries[k].resultId != rid
    requires forall j :: 0 <= j < |items| ==> Complete(items[j])
    ensures var m := InsertedAfter(entries, base, EntryRows(rid, items, |items|));
      && (forall k :: k in m && m[k].resultId == rid <==> base < k <= base + |items|)
      && (forall i :: 0 <= i < |items| ==> base + i + 1 in m && m[base + i + 1] == EntryRow(rid, items[i]))
  {
    var cs := EntryRows(rid, items, |items|);
    var m := InsertedAfter(entries, base, cs);
    InsertedAfterIds(entries, base, cs);
    forall k | base < k <= base + |items|
      ensures k in m && m[k].resultId == rid
    {
      assert m[base + (k - base - 1) + 1] == cs[k - base - 1];
    }
  }

  /**
   * `rows` are `n` rows of result `rid`, of distinct ids in `base + 1 .. base + n`,
   * in index order.
   */
  predicate RunRows(m: map<int, ResultEntry>, base: int, rid: int, n: nat, rows: seq<(int, ResultEntry)>)
  {
    && |rows| == n
    && (forall i :: 0 <= i < |rows| ==> ChildRowOf(m, rid, rows[i]) && base < rows[i].0 <= base + n)
    && IndexOrdered(rows)
    && (forall i, i' :: 0 <= i < i' < |rows| ==> rows[i].0 != rows[i'].0)
  }

  /** When the rows of result `rid` are exactly the ids `base + 1 .. base + n`, those `n` rows are read back. */
  lemma ChildRowsRun(m: map<int, ResultEntry>, base: int, rid: int, n: nat)
    requires forall k :: k in m && m[k].resultId == rid <==> base < k <= base + n
    ensures RunRows(m, base, rid, n, ChildRows(m, rid))
    ensures forall k :: base < k <= base + n ==> (k, m[k]) in ChildRows(m, rid)
  {
    ContiguousRun(ChildIdsOf(m, rid), base, n);
    ChildRowsComplete(m, rid);
    OrderedIdsDistinct(m, rid, ChildRows(m, rid));
  }

  /**
   * After a full save, the rows of the new result read back are exactly the
   * items' rows, id `base + j + 1` holding item `j`, ordered by field id
   * (and by item position within a field).
   */
  lemma SavedRun(entries: map<int, ResultEntry>, base: int, rid: int, items: seq<AnalysisItem>)
    requires forall k :: k in entries ==> k <= base && entries[k].resultId != rid
    requires forall j :: 0 <= j < |items| ==> Complete(items[j])
    ensures var rows := ChildRows(InsertedAfter(entries, base, EntryRows(rid, items, |items|)), rid);
      && |rows| == |items|
      && (forall i :: 0 <= i < |rows| ==>
            base < rows[i].0 <= base + |items| && rows[i].1 == EntryRow(rid, items[rows[i].0 - base - 1]))
      && (forall j :: 0 <= j < |items| ==> (base + j + 1, EntryRow(rid, items[j])) in rows)
      && forall i, i' :: 0 <= i < i' < |rows| ==>
            rows[i].1.fieldId < rows[i'].1.fieldId || (rows[i].1.fieldId == rows[i'].1.fieldId && rows[i].0 < rows[i'].0)
  {
    var m := InsertedAfter(entries, base, EntryRows(rid, items, |items|));
    SavedRows(entries, base, rid, items);
    ChildRowsRun(m, base, rid, |items|);
    SavedRead(entries, base, rid, items);
  }

  /**
   * `rows` are `n` rows of distinct ids in `base + 1 .. base + n`, id
   * `base + j + 1` holding item `j`'s row, in field order.
   */
  predicate ReadAsItems(rows: seq<(int, ResultEntry)>, base: int, rid: int, items: seq<AnalysisItem>)
    requires forall j :: 0 <= j < |items| ==> Complete(items[j])
  {
    && |rows| == |items|
    && (forall i :: 0 <= i < |rows| ==>
          base < rows[i].0 <= base + |items| && rows[i].1 == EntryRow(rid, items[rows[i].0 - base - 1]))
    && (forall i, i' :: 0 <= i < i' < |rows| ==> rows[i].0 != rows[i'].0 && rows[i].1.fieldId <= rows[i'].1.fieldId)
  }

  /** After a full save, the new result reads back as its items' rows. */
  lemma SavedRead(entries: map<int, ResultEntry>, base: int, rid: int, items: seq<AnalysisItem>)
    requires forall k :: k in entries ==> k <= base && entries[k].resultId != rid
    requires forall j :: 0 <= j < |items| ==> Complete(items[j])
    ensures ReadAsItems(ChildRows(InsertedAfter(entries, base, EntryRows(rid, items, |items|)), rid), base, rid, items)
  {
    var m := InsertedAfter(entries, base, EntryRows(rid, items, |items|));
    SavedRows(entries, base, rid, items);
    ChildRowsRun(m, base, rid, |items|);
    ReadBackItems(m, base, rid, items, ChildRows(m, rid));
  }

  /**
   * `n` child rows of distinct ids in `base + 1 .. base + n`, where id
   * `base + j + 1` holds item `j`'s row, in index order, are read as the items.
   */
  lemma ReadBackItems(m: map<int, ResultEntry>, base: int, rid: int, items: seq<AnalysisItem>, rows: seq<(int, ResultEntry)>)
    requires forall j :: 0 <= j < |items| ==> Complete(items[j])
    requires forall j :: 0 <= j < |items| ==> base + j + 1 in m && m[base + j + 1] == EntryRow(rid, items[j])
    requires RunRows(m, base, rid, |items|, rows)
    ensures ReadAsItems(rows, base, rid, items)
  {
    forall i | 0 <= i < |rows|
      ensures rows[i].1 == EntryRow(rid, items[rows[i].0 - base - 1])
    {
      var j := rows[i].0 - base - 1;
      assert ChildRowOf(m, rid, rows[i]);
      assert m[base + j + 1] == EntryRow(rid, items[j]);
    }
    forall i, i' | 0 <= i < i' < |rows|
      ensures rows[i].1.fieldId <= rows[i'].1.fieldId
    {
      assert IndexBefore(rows[i], rows[i']);
    }
  }

  /** The element `get` gives for a saved item: its field and percentage, and blank words. */
  function SavedView(it: AnalysisItem): EntryView
    requires Complete(it)
  {
    EntryView(it.fieldId.value, it.percentage.value, ["", "", ""])
  }

  /**
   * Reading back a result whose save stored every child row gives one
   * element per `analysis` item (`n` elements from distinct items), each
   * with its item's field and percentage and blank words, in field order.
   */
  lemma SavedChildren(entries: map<int, ResultEntry>, base: int, rid: int, items: seq<AnalysisItem>)
    requires forall k :: k in entries ==> k <= base && entries[k].resultId != rid
    requires forall j :: 0 <= j < |items| ==> Complete(items[j])
    ensures var rows := ChildRows(InsertedAfter(entries, base, EntryRows(rid, items, |items|)), rid);
      && SavedViews(rows, base, items)
  {
    SavedRead(entries, base, rid, items);
    var rows := ChildRows(InsertedAfter(entries, base, EntryRows(rid, items, |items|)), rid);
    ViewsOfRows(rows, base, rid, items);
  }

  /**
   * The items of a full save name distinct fields (each is `Storable`), so
   * the elements read back are in strictly ascending field id.
   */
  lemma SavedFieldOrder(entries: map<int, ResultEntry>, base: int, rid: int, items: seq<AnalysisItem>)
    requires forall k :: k in entries ==> k <= base && entries[k].resultId != rid
    requires forall j :: 0 <= j < |items| ==> Complete(items[j])
    requires forall j, j' :: 0 <= j < j' < |items| ==> items[j].fieldId != items[j'].fieldId
    ensures StrictFieldOrder(ChildRows(InsertedAfter(entries, base, EntryRows(rid, items, |items|)), rid))
  {
    SavedRead(entries, base, rid, items);
    DistinctFields(ChildRows(InsertedAfter(entries, base, EntryRows(rid, items, |items|)), rid), base, rid, items);
  }

  /**
   * `rows` read back as one element per item: `n` rows of distinct ids in
   * `base + 1 .. base + n`, id `base + j + 1` viewed as item `j`'s saved
   * element, in ascending field id.
   */
  predicate SavedViews(rows: seq<(int, ResultEntry)>, base: int, items: seq<AnalysisItem>)
    requires forall j :: 0 <= j < |items| ==> Complete(items[j])
  {
    && |rows| == |items|
    && (forall i :: 0 <= i < |rows| ==>
          base < rows[i].0 <= base + |items| && View(rows[i].1) == SavedView(items[rows[i].0 - base - 1]))
    && (forall i, i' :: 0 <= i < i' < |rows| ==> rows[i].0 != rows[i'].0 && rows[i].1.fieldId <= rows[i'].1.fieldId)
  }

  predicate StrictFieldOrder(rows: seq<(int, ResultEntry)>)
  {
    forall i, i' :: 0 <= i < i' < |rows| ==> rows[i].1.fieldId < rows[i'].1.fieldId
  }

  /** Each row holding an item's row is viewed as that item's saved element. */
  lemma ViewsOfRows(rows: seq<(int, ResultEntry)>, base: int, rid: int, items: seq<AnalysisItem>)
    requires forall j :: 0 <= j < |items| ==> Complete(items[j])
    requires ReadAsItems(rows, base, rid, items)
    ensures SavedViews(rows, base, items)
  {
    forall i | 0 <= i < |rows|
      ensures View(rows[i].1) == SavedView(items[rows[i].0 - base - 1])
    {
      WordsAlwaysBlank(rows[i].1);
    }
  }

  /** Rows read back from items that name distinct fields never tie on the field. */
  lemma DistinctFields(rows: seq<(int, ResultEntry)>, base: int, rid: int, items: seq<AnalysisItem>)
    requires forall j :: 0 <= j < |items| ==> Complete(items[j])
    requires forall j, j' :: 0 <= j < j' < |items| ==> items[j].fieldId != items[j'].fieldId
    requires ReadAsItems(rows, base, rid, items)
    ensures StrictFieldOrder(rows)
  {
    forall i, i' | 0 <= i < i' < |rows|
      ensures rows[i].1.fieldId < rows[i'].1.fieldId
    {
      var j, j' := rows[i].0 - base - 1, rows[i'].0 - base - 1;
      assert items[j].fieldId != items[j'].fieldId;
    }
  }

  // ---------------------------------------------------------------- list

  /**
   * GET /api/results/list: `SELECT id, name, start_date, end_date FROM
   * results ORDER BY id DESC`. Those columns are the whole `results` row;
   * no `result_table` row is read. Every result appears once, newest first.
   */
  function List(results: map<int, ResultHeader>): (r: seq<(int, ResultHeader)>)
    ensures |r| == |results.Keys|
    ensures forall i :: 0 <= i < |r| ==> r[i].0 in results && r[i].1 == results[r[i].0]
    ensures forall id :: id in results ==> exists i :: 0 <= i < |r| && r[i].0 == id
    ensures forall i, j :: 0 <= i < j < |r| ==> r[i].0 > r[j].0
  {
    ListsEvery(results);
    NewestRows(results)
  }

  /** The rows of `results` taken in descending id order. */
  function NewestRows(results: map<int, ResultHeader>): seq<(int, ResultHeader)>
  {
    RowsOf(results, Descending(results.Keys))
  }

  /** Every stored result has a row in `NewestRows`. */
  lemma ListsEvery(results: map<int, ResultHeader>)
    ensures forall id :: id in results ==> exists i :: 0 <= i < |NewestRows(results)| && NewestRows(results)[i].0 == id
  {
    var ids := Descending(results.Keys);
    var r := NewestRows(results);
    forall id | id in results
      ensures exists i :: 0 <= i < |r| && r[i].0 == id
    {
      assert id in ids;
      var i :| 0 <= i < |ids| && ids[i] == id;
      assert r[i].0 == id;
    }
  }

  /** The result a save has just written is the first one listed. */
  lemma NewestFirst(results: map<int, ResultHeader>, issued: int, h: ResultHeader)
    requires IdsIssued(results, issued)
    ensures List(results[issued + 1 := h])[0] == (issued + 1, h)
  {
    var m := results[issued + 1 := h];
    var r := List(m);
    NextIdFresh(results, issued, h);
    assert issued + 1 in m;
    var i :| 0 <= i < |r| && r[i].0 == issued + 1;
    if i > 0 {
      assert false;
    }
    assert r[0].1 == m[issued + 1];
  }
}
