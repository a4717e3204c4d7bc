# nara-procon, modelled in Dafny

nara-procon is a small Next.js application for consumer-consultation cases. Staff upload cases (name,
description, date and sales channel `type`) from CSV files. They keep a taxonomy of *fields*, each with numbered
search *words*. They then run an analysis that counts how often each field's words occur in the `type` of the
cases in a date range. They can save analyses and posters, and reload them later. A separate Python script
counts word co-occurrences in consultation texts and builds networks and ranking tables from them.

This project models the logic of that system in Dafny and proves what each part promises:

- `Schema` and `Store`: the SQLite schema of `src/db/database.js`, with one record type per table. The UNIQUE
  constraints are predicates. AUTOINCREMENT ids are a counter per table. `Store.Database` is a class that holds
  every table as a map from row id to row. The route handlers update it in place.
- `Analyze`: `POST /api/analyze`. It covers the date filter, the per-field match counts and sums, the grand
  total, and the percentages with two decimals.
- `DateNormalizer` and `Upload`: `POST /api/cases/upload`. It covers date normalisation, the header fallbacks,
  the per-row validation, and the insert loop with its counts.
- `CaseRoutes`: the case list with `page`/`limit`/`totalPages`, delete by id set, update, and the old `submit`
  insert.
- `Registry`: `GET`/`POST`/`DELETE` of `/api/fields` and `/api/words`.
- `Results` and `Posters`: saving, reading back and listing analyses, and saving posters.
- `FieldPage`, `HomePage` and `Pagination`: the client-side guards, the selection set, the CSV header and row
  normalisation, the default-taxonomy reset sequence, and the page-number bar. `Defaults` holds the rows that
  reset creates and the tables after each of its inserts.
- `Migration`: the script that rebuilds `cases` with `description` in place of `content`, inside a transaction.
- `CoOccurrence` and `Selection`: from `public/data/slash_data-main/an_tp_test.py`, these cover:
  - the keyword classifier;
  - the frequency filter;
  - the windowed and per-document pair counters;
  - the network threshold;
  - the top-N table;
  - the min-weight score of a word set;
  - the problem-pair extraction;
  - the candidate-pair selection;
  - the evenly spaced period indices.

Loops in the source are methods with loop invariants. Each one is proved equal to a specification function or
to a stated property. Pure helpers are functions with lemmas about them.

The model keeps the code's behaviour where the files disagree with one another:

- Deleting a field leaves its words in place (`Registry.DeleteField`).
- `result_table` has no `words` column, so every element read back has the words `["", "", ""]`
  (`Results.WordsAlwaysBlank`).
- `/api/submit` names a `content` column that `cases` lacks, so it always fails (`CaseRoutes.Submit`).
- `posters.result_id` is NOT NULL, so a poster without a result is refused (`Posters.Save`).

## Model

| member | source | states |
|---|---|---|
| `Common.OrElse` | src/app/api/cases/upload/route.js:63-68 | JavaScript's logical or: truthy iff either operand is, and the first operand when it is truthy |
| `Common.DecimalRoundTrip` | src/app/api/cases/route.js:5-6 | reading back the decimal text of a natural number gives that number |
| `Common.ParseIntRoundTrip` | src/app/api/cases/route.js:5-6 | `parseInt` reads back what `String(n)` wrote, whatever non-digit text follows |
| `Common.SqlIntegerRoundTrip` | src/db/database.js:10 | INTEGER affinity reads the decimal text of an integer back as that integer |
| `Common.LexLeTotal` | src/app/api/analyze/route.js:15 | the text order of `BETWEEN` is total |
| `Common.LexLeAntisymmetric` | src/app/api/analyze/route.js:15 | the text order of `BETWEEN` is antisymmetric |
| `Common.LexLeTransitive` | src/app/api/analyze/route.js:15 | the text order of `BETWEEN` is transitive |
| `Common.KeepAppend` | src/app/page.jsx:369-371 | `filter` over a concatenation is the concatenation of the filtered parts |
| `Common.PadTo` | public/data/slash_data-main/an_tp_test.py:184-186 | a list cut or padded with "" to exactly n entries, item i kept for i below its length |
| `Common.NatToDecimal` | src/app/api/cases/route.js:5-6 | `String(n)`: at least one digit, all digits, no leading zero |
| `Common.DigitRun` | src/app/api/cases/route.js:5-6 | the length of the leading run of digits `parseInt` reads |
| `Common.ParseInt` | src/app/api/cases/route.js:5-6 | `parseInt(s, 10)` is NaN exactly when no digit follows the optional sign |
| `Common.SqlInteger` | src/db/database.js:10 | the texts the model reads as integers under INTEGER affinity: exactly those made of an optional sign and digits, read as `parseInt` does (SQLite also accepts spaces and integral reals; see "## Left out") |
| `Common.Keep` | src/app/page.jsx:369-371 | `filter`: exactly the elements that satisfy the predicate, never more of them |
| `Ids.MinExists` | src/app/api/cases/route.js:10 | a non-empty set of row ids has a least element |
| `Ids.Ascending` | src/app/api/cases/route.js:10 | `ORDER BY id`: every id exactly once, strictly increasing |
| `Ids.Descending` | src/app/api/results/list/route.js:5 | `ORDER BY id DESC`: every id exactly once, strictly decreasing |
| `Ids.OrderedRowsExact` | src/app/api/cases/route.js:10 | the rows in id order list every row of the table exactly once, ascending |
| `Ids.OrderedRows` | src/app/api/cases/route.js:10 | the table's rows, each once, in ascending id |
| `Ids.RowsOf` | src/app/api/results/get/route.js:22-24 | the rows with the given ids, in the given order |
| `Schema.FieldWordIdsExact` | src/app/api/words/route.js:8-12 | a field's words in `word_no` order: all of its words and no other, strictly increasing `word_no` |
| `Schema.UniqueInsert` | src/db/database.js:67 | a new word keeps UNIQUE(field_id, word_no) iff no word of its field has its number; no other limit |
| `Schema.UniqueEntryInsert` | src/db/database.js:83 | a new `result_table` row keeps UNIQUE(result_id, field_id) iff no row of its result names its field |
| `Schema.NextIdFresh` | src/db/database.js:10 | AUTOINCREMENT: the next id exceeds every id in use and keeps the invariant |
| `Schema.InsertedAfterIds` | src/db/database.js:10 | rows inserted in order get ids base+1, base+2, …; earlier rows stay as they were |
| `Schema.InsertedAfterSize` | src/db/database.js:10 | the table grows by one row per insert |
| `Schema.BootstrapIdempotent` | src/db/database.js:7-100 | running the CREATE TABLE IF NOT EXISTS statements twice equals once; existing tables and rows are kept; all seven tables exist |
| `Schema.BootstrapFresh` | src/db/database.js:7-100 | on an empty file each table is created empty with its declared columns; `result_table` has no `words` and `cases` no `content` |
| `Schema.IntegerValue` | src/db/database.js:10 | a number is stored as itself and an absent value as NULL |
| `Schema.FieldWordIds` | src/app/api/words/route.js:8-12 | only words of field `f` are listed |
| `Schema.CreateAllKeeps` | src/db/database.js:7-100 | CREATE TABLE IF NOT EXISTS keeps every existing table as it is, adds every named table, and nothing else |
| `Schema.CreateAllIdle` | src/db/database.js:7-100 | when every table exists, nothing changes |
| `Schema.CreateAllNew` | src/db/database.js:7-100 | a missing table is created empty with its declared columns |
| `Store.Database.constructor` | src/db/database.js:4 | a fresh database file: every table empty, every counter 0 |
| `Store.Database.InsertCase` | src/db/database.js:9-15 | an insert into `cases` adds the row under the next id |
| `Store.Database.InsertWord` | src/db/database.js:59-70 | an insert into `words` the UNIQUE and foreign-key constraints accept adds the row under the next id |
| `Store.Database.InsertEntry` | src/db/database.js:73-86 | an insert into `result_table` the constraints accept adds the row under the next id |
| `Store.Database.InsertField` | src/db/database.js:51-57 | an insert into `fields` adds the row under the next id |
| `Store.Database.InsertResult` | src/db/database.js:22-30 | an insert into `results` adds the row under the next id |
| `Store.Database.InsertPoster` | src/db/database.js:34-45 | an insert into `posters` the foreign-key clause accepts adds the row under the next id |
| `Analyze.MatchCountPositive` | src/app/api/analyze/route.js:41-43 | a word is counted at least once in a `type` exactly when it occurs in it (literal pattern) |
| `Analyze.ScanCountFits` | src/app/api/analyze/route.js:41-43 | global matches do not overlap: count × pattern length ≤ text length |
| `Analyze.MatchCountRepeat` | src/app/api/analyze/route.js:41-43 | a word written k times in a row is matched exactly k times |
| `Analyze.FieldTotalAppendCases` | src/app/api/analyze/route.js:37-45 | a field's total over two case lists is the sum of its totals over each |
| `Analyze.FieldTotalZero` | src/app/api/analyze/route.js:37-45 | a field's total is 0 iff none of its words matches any selected `type` (so a field with no words totals 0) |
| `Analyze.OccurrencesZero` | src/app/api/analyze/route.js:39-44 | one word's count over the cases is 0 iff it matches no `type` |
| `Analyze.OccurrencesExample` | src/app/api/analyze/route.js:37-45 | the word "A" over types "A", "AA", "B" counts 3 |
| `Analyze.CountField` | src/app/api/analyze/route.js:38-45 | the nested `forEach` loops compute the sum over words and cases of the match counts |
| `Analyze.HundredthsNearest` | src/app/api/analyze/route.js:60-64 | the percentage, in hundredths, is the nearest hundredth of 100·count/grand (half rounded up) |
| `Analyze.HundredthsBounds` | src/app/api/analyze/route.js:60-64 | each share is between 0.00 and 100.00; 0 for a zero count, 100.00 for the whole |
| `Analyze.HundredthsMonotone` | src/app/api/analyze/route.js:60-64 | a larger count never gets a smaller percentage |
| `Analyze.ZeroFormat` | src/app/api/analyze/route.js:62-64 | the "0.00" of a zero grand total is the text a zero share formats to |
| `Analyze.TypesInRangeExact` | src/app/api/analyze/route.js:14-16 | a `type` is selected iff some case has it and its date is in [startDate, endDate], both ends included |
| `Analyze.NoneSelected` | src/app/api/analyze/route.js:14-23 | no case is selected iff no stored case's date lies in the range |
| `Analyze.TotalWithinGrand` | src/app/api/analyze/route.js:56-59 | every field's total is at most the grand total |
| `Analyze.TallyFields` | src/app/api/analyze/route.js:34-53 | `fields.map`: one count record per field row, in order, with its terms and total |
| `Analyze.SumTotals` | src/app/api/analyze/route.js:56-59 | the `reduce` computes the grand total |
| `Analyze.SetPercentages` | src/app/api/analyze/route.js:60-65 | the `forEach` gives each record its own percentage text from the same grand total |
| `Analyze.Post` | src/app/api/analyze/route.js:3-67 | the handler answers the 400, the "no cases" 200 or the per-field analysis as specified |
| `Analyze.DatesChecked` | src/app/api/analyze/route.js:7-11 | the answer is 400 iff a date is missing or empty |
| `Analyze.AnalysisShape` | src/app/api/analyze/route.js:18-53 | "no cases" iff no date in range; else one record per field in ascending id with its name, terms in `word_no` order and total |
| `Analyze.AllZero` | src/app/api/analyze/route.js:60-64 | when the grand total is 0 every percentage is "0.00" |
| `Analyze.ShareBounds` | src/app/api/analyze/route.js:60-64 | each field's share of a positive grand total is at most 100.00 |
| `Analyze.ShareSumError` | src/app/api/analyze/route.js:60-65 | n independently rounded shares differ from the exact sum by at most n half-hundredths |
| `Analyze.SharesNearlyWhole` | src/app/api/analyze/route.js:60-65 | the shares sum to 100.00 give or take n/2 hundredths; they are not renormalised |
| `Analyze.ThirdsExample` | src/app/api/analyze/route.js:60-65 | three equal shares are 33.33 each and sum to 99.99 |
| `Analyze.OccurrencesAppend` | src/app/api/analyze/route.js:40-44 | one word's count over two case lists is the sum of its counts over each |
| `Analyze.FormatHundredths` | src/app/api/analyze/route.js:63 | `toFixed(2)`: decimal digits with no leading zero, a point, then exactly two digits |
| `Analyze.FormatHundredthsRead` | src/app/api/analyze/route.js:63 | the text read back as a decimal is the hundredths it was formatted from |
| `Analyze.TypesInRange` | src/app/api/analyze/route.js:14-16 | never more types than cases |
| `DateNormalizer.DigitsThen` | src/app/api/cases/upload/route.js:37 | one `(\d{1,2})` group followed by a mark: the group and the rest |
| `DateNormalizer.KanjiMatchExact` | src/app/api/cases/upload/route.js:37 | the localized pattern matches iff the string is a 4-digit year, 1–2-digit month and day with 年/月/日 |
| `DateNormalizer.IsoPassesThrough` | src/app/api/cases/upload/route.js:32-34 | `YYYY-MM-DD` input is returned unchanged, without a calendar check |
| `DateNormalizer.KanjiRewritten` | src/app/api/cases/upload/route.js:37-41 | `y年m月d日` becomes `y-mm-dd` with month and day zero-padded |
| `DateNormalizer.TextRecognised` | src/app/api/cases/upload/route.js:31-44 | a string is recognised iff it has one of the two shapes; otherwise null |
| `DateNormalizer.TextCanonical` | src/app/api/cases/upload/route.js:31-41 | a recognised string becomes `YYYY-MM-DD`, and normalising again changes nothing |
| `DateNormalizer.FalsyYieldsNull` | src/app/api/cases/upload/route.js:24 | falsy input (empty string, 0, null) yields null |
| `DateNormalizer.NumberTakesSerialBranch` | src/app/api/cases/upload/route.js:27-29 | a non-zero number always takes the serial branch, before any pattern test |
| `DateNormalizer.MatchKanjiDate` | src/app/api/cases/upload/route.js:37 | a match yields a 4-digit year and a month and day of one or two digits |
| `DateNormalizer.PadStart2` | src/app/api/cases/upload/route.js:40 | `padStart(2, "0")`: two characters ending with the group, a single digit getting a leading "0" |
| `DateNormalizer.KanjiMatchesGroups` | src/app/api/cases/upload/route.js:37-39 | the pattern recovers the year, month and day a `y年m月d日` text was made of |
| `DateNormalizer.KanjiText` | src/app/api/cases/upload/route.js:37-41 | a matched text that is not ISO becomes `y-mm-dd` |
| `DateNormalizer.TextBranchAll` | src/app/api/cases/upload/route.js:23-44 | for any string, `normalizeDate` is its string branches |
| `Upload.Pick` | src/app/api/cases/upload/route.js:63-68 | the bracketed header is taken when truthy, else the plain one, else the English one, else "" |
| `Upload.Accept` | src/app/api/cases/upload/route.js:63-76 | a row yields a case iff name, description, normalised date and type are all non-empty, with those values |
| `Upload.KeptPrefix` | src/app/api/cases/upload/route.js:61-83 | the rows kept from a prefix of the upload are a prefix of those kept from all of it |
| `Upload.KeptAppend` | src/app/api/cases/upload/route.js:61-83 | each row is judged on its own: keeping distributes over concatenation |
| `Upload.KeptStep` | src/app/api/cases/upload/route.js:61-83 | one loop step keeps the row's case iff it is valid and otherwise skips it |
| `Upload.AcceptedIndependent` | src/app/api/cases/upload/route.js:73-76 | a row is inserted iff it is valid, whatever its neighbours; invalid rows are skipped and the loop goes on |
| `Upload.InsertKept` | src/app/api/cases/upload/route.js:59-83 | the loop inserts the valid rows in order under fresh ids until an insert throws; earlier inserts stay |
| `Upload.Post` | src/app/api/cases/upload/route.js:47-99 | a non-array `cases` is 400 with no change; otherwise the valid rows are inserted, `inserted` ≤ `received` = number of rows, or 500 with the earlier rows kept |
| `Upload.Kept` | src/app/api/cases/upload/route.js:61-83 | never more cases than rows |
| `CaseRoutes.ListPage` | src/app/api/cases/route.js:7-19 | the page echoes `page`, has `totalPages`, and lists stored cases in ascending id |
| `CaseRoutes.List` | src/app/api/cases/route.js:3-19 | absent `page`/`limit` default to "1"/"30"; an unparseable one fails; otherwise the page answer |
| `CaseRoutes.TotalPagesLeast` | src/app/api/cases/route.js:12-13 | for a positive limit, totalPages = ceil(total/limit): the least page count holding every case |
| `CaseRoutes.ParamsRoundTrip` | src/app/api/cases/route.js:5-6 | page and limit sent as decimal integers are read back as those integers |
| `CaseRoutes.ListDefaults` | src/app/api/cases/route.js:5-13 | without parameters, page 1 holds the first 30 cases in id order |
| `CaseRoutes.PageContents` | src/app/api/cases/route.js:7-11 | page p lists the cases at positions (p−1)·limit up to p·limit of the id order |
| `CaseRoutes.PastLastPage` | src/app/api/cases/route.js:9-19 | a page past the last lists no case, and `page` is echoed unclamped |
| `CaseRoutes.PagesThroughPrefix` | src/app/api/cases/route.js:7-11 | pages 1..k together are the rows before the start of page k+1 |
| `CaseRoutes.PagesCover` | src/app/api/cases/route.js:9-13 | pages 1..totalPages concatenated list every case exactly once, in id order |
| `CaseRoutes.PlaceholdersShape` | src/app/api/cases/delete/route.js:25 | the placeholder string alternates "?" and ",": exactly n "?" and n−1 "," |
| `CaseRoutes.RemovedRows` | src/app/api/cases/delete/route.js:27-34 | deleting by id set keeps exactly the other rows unchanged and removes one row per id in use |
| `CaseRoutes.Delete` | src/app/api/cases/delete/route.js:14-38 | non-array or empty `ids` is 400 with no change; a store failure 500; else the listed cases are gone, others unchanged, `deleted` = rows removed |
| `CaseRoutes.UpdateEffect` | src/app/api/update-case/route.js:3-18 | only the row with that id changes, to the four values sent; success even with no such row; error only when NULL would land in an existing row |
| `CaseRoutes.Update` | src/app/api/update-case/route.js:3-18 | the handler's new table and answer are those of the UPDATE statement |
| `CaseRoutes.UnknownColumns` | src/app/api/submit/route.js:8-11 | the columns named by an INSERT that the table lacks |
| `CaseRoutes.Prepare` | src/app/api/submit/route.js:8-11 | the INSERT can be prepared iff every column it names exists |
| `CaseRoutes.Submit` | src/app/api/submit/route.js:3-24 | against the declared `cases` columns every call answers 500 on the missing `content` column |
| `CaseRoutes.WindowStart` | src/app/api/cases/route.js:9-11 | `OFFSET`: where reading starts, never past the end |
| `CaseRoutes.WindowEnd` | src/app/api/cases/route.js:9-11 | `LIMIT`: where reading stops, between the start and the end |
| `CaseRoutes.Offset` | src/app/api/cases/route.js:7 | for a page ≥ 1 and a limit ≥ 0 the offset is not negative |
| `CaseRoutes.OrderedSlice` | src/app/api/cases/route.js:9-11 | a slice of the id-ordered rows holds stored rows, in ascending id |
| `CaseRoutes.DefaultsParse` | src/app/api/cases/route.js:5-6 | the defaults "1" and "30" read as 1 and 30 |
| `CaseRoutes.WindowAt` | src/app/api/cases/route.js:9-11 | with non-negative offset and limit, the page is the rows from offset to offset + limit, as far as they exist |
| `CaseRoutes.OffsetSteps` | src/app/api/cases/route.js:7 | page 1 starts at 0 and each page starts `limit` rows after the one before |
| `Registry.GetFields` | src/app/api/fields/route.js:3-9 | GET lists every field exactly once, with its stored row, in ascending id |
| `Registry.PostField` | src/app/api/fields/route.js:11-31 | a falsy `field` is 400 with nothing inserted; otherwise one field is inserted under a fresh id and that stored row returned |
| `Registry.DeleteField` | src/app/api/fields/route.js:33-46 | `deleteAll` empties words, then fields, ahead of `id`; no `id` is 400; by id only that field row goes (its words stay), success even when absent, and a deleted field's words stay behind naming a field that is gone; a foreign-key failure is 500 |
| `Registry.GetWords` | src/app/api/words/route.js:3-13 | GET returns stored word rows only |
| `Registry.GetWordsExact` | src/app/api/words/route.js:3-13 | without `field_id` the answer is []; with it, exactly that field's words, each once, in ascending `word_no` |
| `Registry.PostWord` | src/app/api/words/route.js:15-31 | a falsy `field_id`, `word_no` (0 included) or `field_word` is 400; a taken (field_id, word_no) pair fails; otherwise one word is inserted and returned |
| `Registry.DeleteWord` | src/app/api/words/route.js:33-46 | `deleteAll` empties words only; no `id` is 400; by id only that word goes |
| `Results.StoredCount` | src/app/api/results/save/route.js:29-36 | the child inserts succeed for a prefix of the items and the first failing item ends it |
| `Results.SaveCompletes` | src/app/api/results/save/route.js:29-36 | every child row is stored iff every item is complete, names an existing field when foreign keys are enforced, and no two items share a `field_id` |
| `Results.DuplicateStops` | src/app/api/results/save/route.js:29-36 | a repeated `field_id` stops the save at its second occurrence at the latest |
| `Results.ItemOutcome` | src/db/database.js:83 | during a save, an item's insert succeeds iff its columns are non-NULL, its (result, field) pair is not yet taken and, under enforced foreign keys, its field exists |
| `Results.PairsAfterInsert` | src/db/database.js:83 | storing an item adds exactly its field to those taken under the result |
| `Results.SaveItem` | src/app/api/results/save/route.js:29-34 | one insert: a storable item's row is added under the next id; a refused one leaves the table as it was and ends the count at that item |
| `Results.SaveEntries` | src/app/api/results/save/route.js:24-36 | the loop inserts one child row per item, in order, under fresh ids, until one fails; earlier rows stay |
| `Results.Save` | src/app/api/results/save/route.js:3-47 | a falsy field is 400 with nothing written; else one parent row under a fresh id, then the child rows; `{success, resultId}` or 500 with the parent and earlier rows left in place |
| `Results.Padded` | src/app/api/results/get/route.js:33-35 | exactly three words: the first three, padded with "" |
| `Results.PadWords` | src/app/api/results/get/route.js:34-35 | the `while` that pushes "" and the `slice` give exactly the padded list |
| `Results.ChildIds` | src/app/api/results/get/route.js:22-24 | the child ids are exactly those of the result's rows, in the given order |
| `Results.ChildIdsOf` | src/app/api/results/get/route.js:22-24 | the ids of the result's child rows, each once, ascending: as many as the rows the query returns |
| `Results.InsertInIndex` | src/db/database.js:83 | a row put into index-ordered rows of other ids: one more row, the same rows besides it, still ordered by `field_id` then id |
| `Results.IndexSorted` | src/db/database.js:83 | rows of distinct ids in the order of the UNIQUE(result_id, field_id) index: the same rows, as many, ordered by `field_id` then id |
| `Results.ChildRows` | src/app/api/results/get/route.js:22-24 | the query answers only rows of the result, each as stored, ordered by `field_id` and then id, as the UNIQUE(result_id, field_id) index gives them |
| `Results.OrderedIdsDistinct` | src/app/api/results/get/route.js:22-24 | rows read in index order never repeat an id |
| `Results.ChildRowsComplete` | src/app/api/results/get/route.js:22-24 | every row of the result is read back, and there are exactly as many rows as the result has |
| `Results.Get` | src/app/api/results/get/route.js:3-48 | a missing `id` is 400, an unknown one 404; otherwise the parent row plus one element per child row, in the order of the UNIQUE(result_id, field_id) index (`field_id`, then id), words three long |
| `Results.WordsAlwaysBlank` | src/app/api/results/get/route.js:27-35 | with no `words` column every element's words are ["", "", ""] |
| `Results.ContiguousRun` | src/app/api/results/get/route.js:22-24 | an increasing list of exactly base+1..base+n is that run in order |
| `Results.SavedRows` | src/app/api/results/save/route.js:24-36 | after a full save, the new result's rows are ids base+1..base+n with the items' rows in order |
| `Results.ChildRowsRun` | src/app/api/results/get/route.js:22-24 | when the result's rows are exactly ids base+1..base+n, n rows of distinct ids from that run come back in index order, every one of them |
| `Results.SavedRun` | src/app/api/results/get/route.js:22-24 | after a full save the result reads back exactly the items' rows, id base+j+1 holding item j and every item present, ordered by `field_id` and, within a field, by item position |
| `Results.SavedChildren` | src/app/api/results/get/route.js:22-46 | reading back a full save gives n elements from distinct items, each with its item's field, percentage and blank words, in non-decreasing `field_id` |
| `Results.SavedFieldOrder` | src/app/api/results/get/route.js:22-24 | when the items name distinct fields, as a full save's items do, the rows come back in strictly ascending `field_id`, whatever order they were saved in |
| `Results.List` | src/app/api/results/list/route.js:3-6 | every stored result once, only its summary row, in descending id |
| `Results.ListsEvery` | src/app/api/results/list/route.js:5 | each stored result appears in the listing |
| `Results.NewestFirst` | src/app/api/results/list/route.js:5 | the result a save has just written is listed first |
| `Results.StoredFrom` | src/app/api/results/save/route.js:29-36 | the inserts succeed for the items before the count, and the item at the count fails |
| `Results.StoredCountAt` | src/app/api/results/save/route.js:29-36 | the stored count is the one position where every earlier item succeeds and that item fails |
| `Results.EntryPairInsert` | src/db/database.js:83 | a new child row takes exactly its own (result, field) pair |
| `Results.EntryRowsStep` | src/app/api/results/save/route.js:29-36 | each loop step adds the next child row under the next id |
| `Posters.Bind` | src/app/api/posters/save/route.js:38-46 | defaults fill `text`, `text_size`, `text_color`; a NULL is bound iff name, poster_url, image_url or result_id is absent |
| `Posters.RowOf` | src/db/database.js:34-44 | the bound values form a row iff the two INTEGER columns get integers |
| `Posters.PosterRow` | src/app/api/posters/save/route.js:34-46 | a missing result_id or image_url stores nothing; otherwise the given values, with "" / 24 / "#000000" for an absent text, size, colour |
| `Posters.Save` | src/app/api/posters/save/route.js:3-58 | a falsy name or poster_url is 400 with nothing inserted; a NOT NULL or foreign-key failure is 500 "Database insert failed"; else 201 and one row under a fresh id, result_id unchecked |
| `Defaults.WordsSoFar` | src/app/field/page.jsx:116-139 | the first n default words are stored under the next n ids, the j-th being word j%3+1 of field j/3+1 |
| `Defaults.MadeNotTaken` | src/db/database.js:67 | when word w of field i is sent, no word of that field has number w yet |
| `Defaults.WordStep` | src/app/field/page.jsx:127-137 | each word request is accepted and adds the next default word |
| `Defaults.FieldsMade` | src/app/field/page.jsx:116-139 | after a full reset the five fields f1..f5 have the next five ids, in order |
| `Defaults.WordsMade` | src/app/field/page.jsx:116-139 | after a full reset there are exactly fifteen words under the next fifteen ids |
| `Defaults.WordNosMade` | src/app/field/page.jsx:116-139 | after a full reset each of the five fields has exactly the word numbers {1, 2, 3}, and no other field has any |
| `Defaults.WordsMadeRange` | src/app/field/page.jsx:116-139 | every default word belongs to one of the five new fields and has a number from 1 to 3 |
| `Defaults.WordsMadeUnique` | src/db/database.js:67 | the fifteen default words satisfy UNIQUE(field_id, word_no) |
| `Defaults.MadeAt` | src/app/field/page.jsx:116-139 | after 4(i−1)+w insert requests, i−1 or i fields and the matching words exist |
| `Defaults.RoundEnd` | src/app/field/page.jsx:116-139 | stopping after `made` of round i's four requests leaves exactly the tables after insert 4(i−1)+made |
| `Defaults.WordNosOf` | src/app/field/page.jsx:116-139 | after a full reset a field has the word numbers {1, 2, 3} if it is one of the five, else none |
| `Defaults.WordNosWithin` | src/app/field/page.jsx:116-139 | word numbers stay within 1 to 3 and only the five fields have any |
| `Defaults.WordNosFull` | src/app/field/page.jsx:116-139 | each of the five fields has word numbers 1, 2 and 3 |
| `Defaults.WordMadeInjective` | src/db/database.js:67 | two default words with the same field and number are the same word |
| `FieldPage.CreateDefaults` | src/app/field/page.jsx:116-139 | the nested loops create fields and words in order, stopping at the first failed request with what was created before it |
| `FieldPage.NextRound` | src/app/field/page.jsx:116-139 | one outer round either completes, leaving fields 1..i and their words, or is the one the failing request stops, leaving the tables as after that many inserts |
| `FieldPage.AddDefaultField` | src/app/field/page.jsx:117-138 | one outer round: field i, then its words, or a stop at the failing request |
| `FieldPage.AddFieldWords` | src/app/field/page.jsx:127-138 | the inner loop: words 1..3 of field i, or a stop at the failing request |
| `FieldPage.Page.AddField` | src/app/field/page.jsx:31-45 | no request with an empty name; else one field is added and the input cleared |
| `FieldPage.Page.DeleteField` | src/app/field/page.jsx:47-61 | a successful delete of the selected field clears the selection; its words stay |
| `FieldPage.Page.AddWord` | src/app/field/page.jsx:63-79 | no request without a selected field, a word number and a term; a created word belongs to the selected field |
| `FieldPage.Page.Initialize` | src/app/field/page.jsx:96-144 | delete all words, then all fields, then f1..f5 each with its three words; the first failed request stops everything after it |
| `FieldPage.Page.constructor` | src/app/field/page.jsx:5-9 | the page starts with no selected field and empty inputs |
| `FieldPage.SendDefaultField` | src/app/field/page.jsx:117-122 | the request for field i adds `f{i}` under the next id |
| `FieldPage.SendDefaultWord` | src/app/field/page.jsx:127-135 | the request for word w of field i adds the next default word |
| `HomePage.Toggled` | src/app/page.jsx:50-55 | the clicked id's membership flips and no other id's changes |
| `HomePage.ToggleTwice` | src/app/page.jsx:50-55 | toggling the same id twice gives back the selection |
| `HomePage.PageIds` | src/app/page.jsx:57-58 | the set holds exactly the ids of the loaded cases |
| `HomePage.InWindow` | src/app/page.jsx:100-102 | keeps exactly the loaded cases whose date lies in [start, end] |
| `HomePage.MainPage.constructor` | src/app/page.jsx:11-28 | the initial state: no cases, empty selection, empty dates and name, an empty analysis |
| `HomePage.MainPage.ToggleSelect` | src/app/page.jsx:50-55 | the selection becomes the toggled set |
| `HomePage.MainPage.ToggleSelectAll` | src/app/page.jsx:57-60 | checked selects every loaded id, unchecked selects none |
| `HomePage.MainPage.DeleteSelected` | src/app/page.jsx:62-75 | a request is sent iff something is selected and the user confirms; it carries exactly the selection |
| `HomePage.MainPage.StartAnalysis` | src/app/page.jsx:89-117 | a request is sent iff both dates are set, start ≤ end and some loaded case is in the window; it carries exactly the cases in the window |
| `HomePage.MainPage.SaveResult` | src/app/page.jsx:134-153 | a request is sent iff a name is set and the analysis is present and not an empty list; it carries the page's state |
| `HomePage.LeadingSpace` | src/app/page.jsx:352 | counts exactly the white space at the start |
| `HomePage.TrailingSpace` | src/app/page.jsx:352 | counts exactly the white space at the end |
| `HomePage.Trim` | src/app/page.jsx:352 | the result neither starts nor ends with white space, and is empty iff the text is all white space |
| `HomePage.LeadingSpaceOf` | src/app/page.jsx:352 | the leading white space of white space followed by a non-space is exactly that white space |
| `HomePage.TrailingSpaceOf` | src/app/page.jsx:352 | the same at the end |
| `HomePage.TrimAround` | src/app/page.jsx:352 | trimming white space around a word gives the word back |
| `HomePage.TransformHeader` | src/app/page.jsx:348-352 | the header is never longer and does not start or end with white space |
| `HomePage.HeaderInBrackets` | src/app/page.jsx:348-352 | `[ name ]` becomes `name` |
| `HomePage.HeaderInWideBrackets` | src/app/page.jsx:348-352 | the full-width brackets go too |
| `HomePage.HeaderWithSpace` | src/app/page.jsx:348-352 | a header without brackets only loses its white space |
| `HomePage.HeaderInDoubleBrackets` | src/app/page.jsx:348-352 | only one bracket is removed at each end |
| `HomePage.MapRow` | src/app/page.jsx:361-366 | each of the four fields is its column's text, or "" when the column is missing |
| `HomePage.UploadCases` | src/app/page.jsx:361-371 | every case sent is the mapping of some uploaded row and has a non-empty field, and every row with a non-empty field is sent |
| `HomePage.UploadCasesAppend` | src/app/page.jsx:361-371 | the filter works row by row: two batches give the two results concatenated |
| `HomePage.UploadCasesOne` | src/app/page.jsx:368-371 | one row sends its mapped case exactly when some column is non-empty, and nothing otherwise (with `UploadCasesAppend` this fixes the whole sent list) |
| `Pagination.CreatePageNumbers` | src/app/components/Pagination.jsx:6-31 | the two loops build exactly the bar of page buttons with ellipses |
| `Pagination.ShownUpToExact` | src/app/components/Pagination.jsx:11-19 | the first loop's `range` is strictly increasing and holds exactly the shown pages |
| `Pagination.RangeExact` | src/app/components/Pagination.jsx:11-19 | page i is in the range iff 1 ≤ i ≤ totalPages and i = 1, i = totalPages or i lies within 1 of page; ascending |
| `Pagination.RangeEnds` | src/app/components/Pagination.jsx:11-19 | the range holds 1 and totalPages when totalPages ≥ 1, and `page` when it is a page; it is empty when totalPages < 1 |
| `Pagination.RangeFirstLast` | src/app/components/Pagination.jsx:11-19 | the range starts with 1 and ends with totalPages |
| `Pagination.InteriorContiguous` | src/app/components/Pagination.jsx:11-19 | between its first and last element the range has no gap |
| `Pagination.AtMostFive` | src/app/components/Pagination.jsx:11-19 | at most five pages are shown |
| `Pagination.WithGapsNumbers` | src/app/components/Pagination.jsx:21-28 | dropping the ellipses from the bar gives back the range |
| `Pagination.PageNumbersOrder` | src/app/components/Pagination.jsx:6-31 | the bar's page buttons are the range, strictly increasing |
| `Pagination.WithGapsShape` | src/app/components/Pagination.jsx:21-28 | the bar is empty iff the range is, starts and ends with a page button and never holds two ellipses in a row |
| `Pagination.WithGapsEllipses` | src/app/components/Pagination.jsx:21-28 | "..." stands exactly between neighbouring buttons that differ by more than 1 |
| `Pagination.RangeGapFree` | src/app/components/Pagination.jsx:11-19 | only the first and last steps of the range may skip pages |
| `Pagination.WithGapsLength` | src/app/components/Pagination.jsx:21-28 | at most two ellipses are added |
| `Pagination.PageNumbersSize` | src/app/components/Pagination.jsx:6-31 | at most five page buttons and seven entries |
| `Pagination.Jump` | src/app/components/Pagination.jsx:33-39 | navigates iff the parsed integer is in [1, totalPages], clearing the box only then |
| `Pagination.ClickStaysInRange` | src/app/components/Pagination.jsx:43-89 | First/Prev are disabled iff page = 1, Next/Last iff page = totalPages; enabled buttons request pages in [1, totalPages] |
| `Pagination.NumInNumbers` | src/app/components/Pagination.jsx:58-74 | every page button of the bar is one of its numbers |
| `Pagination.Numbers` | src/app/components/Pagination.jsx:58-74 | the bar has no fewer entries than page buttons |
| `Migration.CopyRow` | src/app/scripts/migrate_cases.js:58-61 | the new row has exactly the five current columns, with `content` under `description` and the other four copied |
| `Migration.Connection.constructor` | src/app/scripts/migrate_cases.js:13 | a connection to the file, outside any transaction |
| `Migration.Connection.Begin` | src/app/scripts/migrate_cases.js:41 | opens a transaction whose snapshot is the current file |
| `Migration.Connection.Rename` | src/app/scripts/migrate_cases.js:44 | succeeds iff the old name exists and the new one is free, moving the table; otherwise nothing changes |
| `Migration.Connection.Create` | src/app/scripts/migrate_cases.js:47-55 | succeeds iff the name is free, adding an empty table; otherwise nothing changes |
| `Migration.Connection.CopyCases` | src/app/scripts/migrate_cases.js:58-61 | succeeds iff both tables exist and the copy breaks no constraint, appending the copied rows; otherwise nothing changes |
| `Migration.Connection.Drop` | src/app/scripts/migrate_cases.js:64 | succeeds iff the table exists, removing it |
| `Migration.Connection.Commit` | src/app/scripts/migrate_cases.js:66 | ends the transaction, keeping the file |
| `Migration.Connection.Rollback` | src/app/scripts/migrate_cases.js:69-70 | restores the file as it was at BEGIN |
| `Migration.Migrate` | src/app/scripts/migrate_cases.js:8-74 | exit code 1 and no change without the file; otherwise exit code 0 and the file becomes `Migrated` of the old one, never left in a transaction |
| `Migration.MigrateIdempotent` | src/app/scripts/migrate_cases.js:28-37 | running the script a second time changes nothing more |
| `Migration.MigratedOutcome` | src/app/scripts/migrate_cases.js:41-70 | all or nothing: the file is unchanged, or `cases` has the current columns with each old row in place, `content` moved to `description`, no `cases_old` left and every other table untouched |
| `Migration.NothingPending` | src/app/scripts/migrate_cases.js:17-37 | with no `cases` table or one that has `description`, nothing changes |
| `Migration.LeftoverBlocks` | src/app/scripts/migrate_cases.js:44 | a leftover `cases_old` table makes the migration roll back |
| `CoOccurrence.Sorted` | public/data/slash_data-main/an_tp_test.py:155 | the key is the two words in ascending order |
| `CoOccurrence.SortedIs` | public/data/slash_data-main/an_tp_test.py:155 | an ordered key comes from its two words in either order, and from nothing else |
| `CoOccurrence.SortedSymmetric` | public/data/slash_data-main/an_tp_test.py:155-160 | the key does not depend on the order of the two words |
| `CoOccurrence.LastLabel` | public/data/slash_data-main/an_tp_test.py:103-114 | a word has a label iff some entry lists it, and the label is that of the last such entry |
| `CoOccurrence.ModalityClassifier.constructor` | public/data/slash_data-main/an_tp_test.py:103-108 | `word2teguchi` maps exactly the listed keywords, each to the label of its last entry |
| `CoOccurrence.ModalityClassifier.IsTeguchi` | public/data/slash_data-main/an_tp_test.py:110-111 | true iff some label lists the word |
| `CoOccurrence.ModalityClassifier.GetLabel` | public/data/slash_data-main/an_tp_test.py:113-114 | the label of the last entry listing the word, or None |
| `CoOccurrence.ModalityClassifier.TeguchiWords` | public/data/slash_data-main/an_tp_test.py:103-111 | exactly the words of the map's keyword lists |
| `CoOccurrence.StrTexts` | public/data/slash_data-main/an_tp_test.py:141 | keeps exactly the string cells |
| `CoOccurrence.FreqFilter` | public/data/slash_data-main/an_tp_test.py:144 | keeps exactly the tokens whose corpus frequency lies in [3, 500] |
| `CoOccurrence.FreqFilterAppend` | public/data/slash_data-main/an_tp_test.py:144 | the filter works token by token |
| `CoOccurrence.TokenizeCorpus` | public/data/slash_data-main/an_tp_test.py:140-145 | one output document per string cell, each the tokens of frequency in [3, 500] in order; the frequency is the multiset of all tokens |
| `CoOccurrence.Bump` | public/data/slash_data-main/an_tp_test.py:156-161 | one more count for the pair, no other count changes |
| `CoOccurrence.Distinct` | public/data/slash_data-main/an_tp_test.py:158 | the same words, without repeats |
| `CoOccurrence.CountWindowed` | public/data/slash_data-main/an_tp_test.py:151-156 | the nested window loops compute `Windowed` |
| `CoOccurrence.CountCombos` | public/data/slash_data-main/an_tp_test.py:157-161 | the loops over `combinations` compute `Combos` |
| `CoOccurrence.BuildCounter` | public/data/slash_data-main/an_tp_test.py:147-162 | the loop over the documents computes `CounterOf` |
| `CoOccurrence.WindowedKeyed` | public/data/slash_data-main/an_tp_test.py:151-156 | the window loops only add sorted pairs of different words |
| `CoOccurrence.CombosKeyed` | public/data/slash_data-main/an_tp_test.py:157-161 | so do the combination loops over distinct words |
| `CoOccurrence.DocsKeyed` | public/data/slash_data-main/an_tp_test.py:149-161 | so does the loop over documents |
| `CoOccurrence.CounterKeys` | public/data/slash_data-main/an_tp_test.py:147-162 | every key of the counter is a sorted pair of two different words with a positive count |
| `CoOccurrence.WindowedSource` | public/data/slash_data-main/an_tp_test.py:151-156 | a pair is in the counter after the remaining window loops iff it was before or some remaining window holds its two words |
| `CoOccurrence.WindowedPairs` | public/data/slash_data-main/an_tp_test.py:151-156 | with a window, a document counts a pair iff two positions x < y ≤ x + w hold its two different words |
| `CoOccurrence.CombosCount` | public/data/slash_data-main/an_tp_test.py:159-161 | the combination loops add to a pair's count the number of visits that sort to it |
| `CoOccurrence.PairsFromAbsent` | public/data/slash_data-main/an_tp_test.py:159-161 | no visit sorts to a pair whose words are not both present |
| `CoOccurrence.PairsFromOnce` | public/data/slash_data-main/an_tp_test.py:159-161 | over distinct words exactly one visit sorts to a present pair |
| `CoOccurrence.CombosOnce` | public/data/slash_data-main/an_tp_test.py:157-161 | without a window, a document adds 1 to a pair iff it holds both words |
| `CoOccurrence.DocsCount` | public/data/slash_data-main/an_tp_test.py:148-162 | without a window, the loop adds to a pair the number of remaining documents holding both words |
| `CoOccurrence.DocumentCount` | public/data/slash_data-main/an_tp_test.py:147-162 | without a window, a pair's count is the number of documents holding both words, at most the number of documents |
| `CoOccurrence.DocsWithBound` | public/data/slash_data-main/an_tp_test.py:148-162 | at most one per remaining document |
| `CoOccurrence.Network` | public/data/slash_data-main/an_tp_test.py:164-169 | an edge for exactly the pairs counted at least `min_freq` times, weighted by the count |
| `CoOccurrence.NetworkCompose` | public/data/slash_data-main/an_tp_test.py:165 | thresholding twice is thresholding once at the larger bound |
| `CoOccurrence.EdgeSymmetric` | public/data/slash_data-main/an_tp_test.py:166-168 | the graph is undirected: same edge and weight from either end |
| `CoOccurrence.NetworkEdges` | public/data/slash_data-main/an_tp_test.py:164-169 | a–b is an edge iff its pair was counted at least `min_freq` times, with that count as weight |
| `CoOccurrence.KeyText` | public/data/slash_data-main/an_tp_test.py:181 | the key cell is the first word, a vertical bar, then the second |
| `CoOccurrence.DisplayText` | public/data/slash_data-main/an_tp_test.py:180 | the display cell is the key cell, a space, an opening parenthesis, decimal digits and a closing parenthesis |
| `CoOccurrence.DisplayTextRead` | public/data/slash_data-main/an_tp_test.py:180 | the digits in the parentheses read back as the pair's count |
| `CoOccurrence.TopColumns` | public/data/slash_data-main/an_tp_test.py:177-185 | each period gets display and key columns of exactly `top_n` cells: its first entries, then "" |
| `CoOccurrence.ListingLength` | public/data/slash_data-main/an_tp_test.py:178 | `most_common` lists each counted pair once, so its length is the number of pairs |
| `CoOccurrence.DistinctCard` | public/data/slash_data-main/an_tp_test.py:178 | a listing without repeats is as long as its set |
| `CoOccurrence.Frame` | public/data/slash_data-main/an_tp_test.py:187-188 | fails iff there are more labels than columns; otherwise has exactly the labels as columns |
| `CoOccurrence.FrameLastWins` | public/data/slash_data-main/an_tp_test.py:187-188 | a repeated label keeps the column of its last occurrence |
| `CoOccurrence.BuildTopTable` | public/data/slash_data-main/an_tp_test.py:174-189 | both frames exist iff there are enough counters; each has exactly the period labels, every column has `top_n` cells, and the index is "1" … "top_n" |
| `CoOccurrence.LastOccurrence` | public/data/slash_data-main/an_tp_test.py:187 | the last position of a label |
| `CoOccurrence.SortedOrdered` | public/data/slash_data-main/an_tp_test.py:154-155 | two distinct words give a strictly ordered key |
| `Selection.SetMax` | public/data/slash_data-main/an_tp_test.py:489-495 | the greatest element of a non-empty set |
| `Selection.NeighbourMax` | public/data/slash_data-main/an_tp_test.py:486-495 | the heaviest edge at the word, 0 when it has none |
| `Selection.Score` | public/data/slash_data-main/an_tp_test.py:461-499 | never negative, and 0 when a needed edge is missing |
| `Selection.ScoreBounds` | public/data/slash_data-main/an_tp_test.py:461-499 | when every needed edge exists, the score is at most each needed weight and, when some edge is needed, equal to one of them |
| `Selection.SingleWordScore` | public/data/slash_data-main/an_tp_test.py:484-495 | with one word and no keyword, the score is the word's heaviest edge |
| `Selection.KeywordEdges` | public/data/slash_data-main/an_tp_test.py:470-475 | succeeds iff every keyword–problem edge is present, collecting exactly their weights |
| `Selection.PairRow` | public/data/slash_data-main/an_tp_test.py:478-482 | one row of the pair loop: succeeds iff that row's edges are present, adding exactly their weights |
| `Selection.PairEdges` | public/data/slash_data-main/an_tp_test.py:478-482 | succeeds iff every problem–problem edge is present, adding exactly their weights |
| `Selection.ScoreSet` | public/data/slash_data-main/an_tp_test.py:461-499 | the loops with their early returns compute `Score` |
| `Selection.ScoreOfNeeded` | public/data/slash_data-main/an_tp_test.py:484-499 | with every needed edge present, the score is the least needed weight, or the fallback when none is needed |
| `Selection.MaxIncident` | public/data/slash_data-main/an_tp_test.py:489-495 | the fallback loop computes `NeighbourMax` |
| `Selection.InsertByWeight` | public/data/slash_data-main/an_tp_test.py:516 | inserts into a heaviest-first list, keeping it sorted and a permutation |
| `Selection.SortByWeight` | public/data/slash_data-main/an_tp_test.py:516 | the result is heaviest first and a permutation of the input |
| `Selection.Prefix` | public/data/slash_data-main/an_tp_test.py:517 | Python's `s[:k]`, for negative k too |
| `Selection.ProblemsAreNeighbours` | public/data/slash_data-main/an_tp_test.py:515-517 | the problem words are neighbours of the keyword that are not keywords |
| `Selection.ProblemsHeaviest` | public/data/slash_data-main/an_tp_test.py:515-517 | at most `max_neighbors` are kept, and no neighbour left out has a heavier edge than one kept |
| `Selection.TopPrefix` | public/data/slash_data-main/an_tp_test.py:516-517 | in a heaviest-first list nothing after a prefix outweighs anything in it |
| `Selection.PositiveScoreDistinct` | public/data/slash_data-main/an_tp_test.py:478-482 | a positive score for two words needs their edge, so they differ |
| `Selection.ExtractProblemSets` | public/data/slash_data-main/an_tp_test.py:501-528 | {} when the keyword is not a node; otherwise exactly the sorted pairs of non-keyword problem words with a positive score, each mapped to its score |
| `Selection.ScanRow` | public/data/slash_data-main/an_tp_test.py:521-527 | the pairs (i, j) for every j after i add exactly the qualifying sorted pairs of row i, each mapped to its positive score |
| `Selection.ScanPair` | public/data/slash_data-main/an_tp_test.py:522-527 | one pair of positions adds its sorted pair, mapped to its score, exactly when neither word is a keyword and the score is above 0 |
| `Selection.FoundStep` | public/data/slash_data-main/an_tp_test.py:521-527 | each visit of the pair loop adds exactly its own qualifying pair |
| `Selection.FoundRow` | public/data/slash_data-main/an_tp_test.py:521 | finishing one row starts the next |
| `Selection.FoundDone` | public/data/slash_data-main/an_tp_test.py:521 | after the last row every pair has been visited |
| `Selection.TakeFromPeriod` | public/data/slash_data-main/an_tp_test.py:574-584 | adds at most the quota of new allowed pairs from the period, always including its first allowed pair, without repeats |
| `Selection.SelectCandidatePairs` | public/data/slash_data-main/an_tp_test.py:566-605 | no pair twice; with the flag set no pair holds a keyword; only listed pairs; each period's first allowed pair; bounded length; every allowed overall pair when short of the target |
| `Selection.RoundHalfEven` | public/data/slash_data-main/an_tp_test.py:819 | Python's `round`: nearest integer, halves to even |
| `Selection.Spaced` | public/data/slash_data-main/an_tp_test.py:819-820 | each evenly spaced index lies in [0, n − 1] |
| `Selection.SpacedIndices` | public/data/slash_data-main/an_tp_test.py:819-820 | m indices, all in [0, n − 1] |
| `Selection.SpacedEnds` | public/data/slash_data-main/an_tp_test.py:818-819 | the first and last periods are always chosen |
| `Selection.ExactRound` | public/data/slash_data-main/an_tp_test.py:819 | rounding an exact quotient gives it back |
| `Selection.MulSign` | public/data/slash_data-main/an_tp_test.py:819 | a positive factor keeps a product at least as far from 0 |
| `Selection.CoversRange` | public/data/slash_data-main/an_tp_test.py:822-825 | a repeat-free list holding 0 … n−1 has at least n elements |
| `Selection.SubsetCard` | public/data/slash_data-main/an_tp_test.py:820 | a subset is no larger |
| `Selection.SeqSetCard` | public/data/slash_data-main/an_tp_test.py:820 | a set is no larger than a list of it |
| `Selection.FillIndices` | public/data/slash_data-main/an_tp_test.py:821-825 | the top-up loop reaches exactly m distinct indices in range, keeping those already there |
| `Selection.EvenlySpaced` | public/data/slash_data-main/an_tp_test.py:818-826 | m strictly increasing indices in range, every evenly spaced one among them |
| `Selection.SelectPeriodIndices` | public/data/slash_data-main/an_tp_test.py:815-826 | 0 … n−1 when n ≤ m; an error iff m = 1 < n; [] when m ≤ 0 < n; otherwise m strictly increasing indices in [0, n−1] including every evenly spaced one |

## Left out

- The spreadsheet-serial branch of `normalizeDate` (`excelDateToJSDate`) is the parameter `excelSerial`. Its
  result depends on the local time zone, because it builds a local-time epoch and prints it in UTC.
- JSON numbers are integers (`Cell.Number`). Fractional numbers in request bodies are not modelled.
- Common.Cell has no booleans, objects or arrays. Binding `true` or an object makes better-sqlite3 throw, which
  the routes answer with 500. The model cannot express such a body.
- `toFixed(2)` is modelled on exact integer hundredths, rounded half up. The binary floating-point rounding of
  `toFixed` at exact halves is not modelled. The `parseFloat` of the saved percentage is taken as already done:
  an analysis item carries its percentage as integer hundredths.
- `new RegExp(word, "g")` is modelled as literal, non-overlapping matching. Regular-expression metacharacters
  are not interpreted. The empty pattern counts one match per position, as JavaScript does.
- Text order in `BETWEEN` and in the page's `>=`/`<=` is code-point order. Between two texts it differs from
  JavaScript's UTF-16 order only for characters outside the Basic Multilingual Plane. It is not SQLite's order
  when a date is held as a number (next line).
- Analyze.InRange, Analyze.TypesInRangeExact and Analyze.NoneSelected do not model NUMERIC affinity. The
  `date` column is declared DATE, which SQLite gives NUMERIC affinity. A date that reads as a number ("2025",
  "20240329") is stored and compared as a number, and every number sorts before every text. So an `endDate` of
  "2025" selects no text-dated case in SQLite, while the model selects those up to "2025". The model keeps every
  date as text.
- CaseRoutes.UpdateSpec, CaseRoutes.Update and Results.Save store a number-like date as text. SQLite stores it
  as a number, for the same NUMERIC affinity.
- SqlInteger accepts only an optional sign followed by digits. SQLite's INTEGER affinity also accepts surrounding
  spaces (" 3 ") and a real with an integral value ("3.0", "1e1"). The model answers None or `NotInteger` for
  those texts where SQLite reads an integer. This affects Registry.GetWords, Registry.GetWordsExact,
  Registry.PostWord, Registry.DeleteWord, Registry.DeleteField, Posters.Save, Results.Get and CaseRoutes.Update.
- Schema.StoredText writes `Number(n)` into a TEXT column as the decimal "n". That is right for the upload route,
  whose driver (node-sqlite3) binds integers as integers. better-sqlite3 binds a JavaScript number as a double,
  which a TEXT column stores as "n.0". So Registry.PostField, Posters.Save, CaseRoutes.Update and Results.Save
  store "n" where the routes store "n.0".
- Common.ParseInt: `parseInt` also skips leading white space, which the model does not. The model reads the
  query parameters and the jump box without it.
- Foreign-key enforcement is a setting of the store. It is the parameter `Store.Database.foreignKeys`, not a
  proven behaviour.
- Store failures that no constraint explains are parameters:
  - `storeFails` in `CaseRoutes.Delete`;
  - `failAt` in `Upload.Post` and `FieldPage.Page.Initialize`.
- The 500 answers of `POST /api/analyze`, `GET /api/results/get`, `GET /api/results/list` and `GET /api/cases`
  are not modelled. Only an unexpected failure of the store reaches them.
- Registry.PostWord: a `field_id` or `word_no` that is not an integer even under SQLite's rule ("abc") gets the
  answer `NotInteger`. SQLite would store it as text in the INTEGER column. Stored rows hold integers only.
- Posters.Save: likewise for `result_id` and `text_size`.
- Upload.Post: a `null` element of `cases` makes the route throw a TypeError inside its loop and answer 500. The
  model's rows are maps and cannot be null.
- CaseRoutes.Delete: `ids` holds integers only. String ids such as "3" cannot be expressed; node-sqlite3 binds
  them, and SQLite's integer comparison matches them.
- CoOccurrence.CounterOf: the window is a `nat`. In Python a negative `window_size` is truthy, its ranges are
  empty, and each document then contributes no pairs. The model cannot express a negative window.
- Migration.Connection.CopyCases: an old row whose `id` is NULL counts as a failure here, whereas SQLite would
  give it a fresh id. The `sqlite_sequence` bookkeeping of the rebuilt table is not modelled.
- Migration.Migrate: the messages it prints and closing the connection are not modelled.
- Selection.SelectCandidatePairs: the listings of the period counters and of their sum are parameters. The
  model does not state that the overall listing is the `most_common()` of the summed counters.
- Selection.ExtractProblemSets: the order in which the graph lists a node's neighbours is the parameter
  `order`. The stable sort by weight is modelled.
- CoOccurrence.TopColumns: each period's `most_common()` listing is a parameter. `ListingLength` relates a
  listing to its counter.
- CoOccurrence.Distinct: `list(set(tokens))` has no fixed order in Python. The model takes first occurrences
  in order. The counts do not depend on the order, because every pair is sorted.
- Selection.Spaced: `round(i * step)` is modelled on the exact quotient, rounding halves to even. Floating-point
  error in `step` is not modelled.
- `_score_set` returns a float. Here it is an integer, because every edge weight is an integer count.
- The browser side of the pages is not modelled:
  - `fetch` and the responses it waits for;
  - `alert`/`confirm` (a `confirmed` flag stands for the answer);
  - the `postMessage` handlers;
  - the undefined `loadData`;
  - re-fetching after a change;
  - all rendering.
- Decoding the uploaded CSV (Shift_JIS with a UTF-8 fallback) and Papa Parse are not modelled. A parsed row is
  a map from transformed header to text.
- From the Python script, these are not modelled:
  - janome tokenisation, which is the parameter `tokenize`;
  - stop words and `clean_text`;
  - NFKC key normalisation;
  - pandas CSV loading and period splitting;
  - matplotlib and networkx drawing;
  - the openpyxl export;
  - the float helpers (palette, colour blending, time-series normalisation and change filter);
  - `summarize_top_problem_sets_with_others` and `main`.
- These are I/O, process control or display with no rules of their own, and are not modelled:
  - `src/app/api/bunseki/route.js`, `src/app/api/posters/output/route.js`, `src/app/api/posters/list/route.js`
    and `src/app/api/analysis-images/route.js`;
  - the clear scripts;
  - the purely presentational components and pages.
