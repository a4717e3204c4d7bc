/**
 * The case routes: a page of the case list (src/app/api/cases/route.js),
 * deleting a set of cases (src/app/api/cases/delete/route.js), editing one
 * case (src/app/api/update-case/route.js) and the old entry form's insert
 * (src/app/api/submit/route.js).
 */
module CaseRoutes {
  import opened Common
  import opened Schema
  import opened Ids
  import opened Store

  // ---------------------------------------------------------- GET /api/cases

  /** `searchParams.get(key) || fallback`: an absent or empty parameter gives the fallback. */
  function ParamOr(param: Option<string>, fallback: string): string
  {
    if param.Some? && param.value != [] then param.value else fallback
  }

  function Min(a: int, b: int): int
  {
    if a <= b then a else b
  }

  /** Where `OFFSET offset` starts reading `n` rows: a negative offset counts as 0. */
  function WindowStart(n: nat, offset: int): (lo: nat)
    ensures lo <= n
  {
    if offset <= 0 then 0 else Min(offset, n)
  }

  /** Where `LIMIT limit` stops reading from `lo`: a negative limit is no limit at all. */
  function WindowEnd(n: nat, lo: nat, limit: int): (hi: nat)
    requires lo <= n
    ensures lo <= hi <= n
  {
    if limit < 0 then n else Min(lo + limit, n)
  }

  /** `LIMIT limit OFFSET offset` applied to `rows`. */
  function Window<T>(rows: seq<T>, limit: int, offset: int): seq<T>
  {
    var lo := WindowStart(|rows|, offset);
    rows[lo..WindowEnd(|rows|, lo, limit)]
  }

  /** Consecutive rows of a table in id order are rows of the table, in ascending id order. */
  lemma OrderedSlice(cases: map<int, Case>, lo: nat, hi: nat)
    requires lo <= hi <= |OrderedRows(cases)|
    ensures var r := OrderedRows(cases)[lo..hi];
      && (forall i :: 0 <= i < |r| ==> r[i].0 in cases && r[i].1 == cases[r[i].0])
      && (forall i, j :: 0 <= i < j < |r| ==> r[i].0 < r[j].0)
  {
    var rows := OrderedRows(cases);
    var r := rows[lo..hi];
    var asc := Ascending(cases.Keys);
    forall i | 0 <= i < |r|
      ensures r[i].0 in cases && r[i].1 == cases[r[i].0]
    {
      assert r[i] == rows[lo + i];
    }
    forall i, j | 0 <= i < j < |r|
      ensures r[i].0 < r[j].0
    {
      assert r[i].0 == asc[lo + i] && r[j].0 == asc[lo + j];
    }
  }

  /**
   * JavaScript `Math.ceil(total / limit)`. Dividing by 0 gives Infinity (or
   * NaN when `total` is 0), which JSON sends as null: None.
   */
  function TotalPages(total: nat, limit: int): Option<int>
  {
    if limit == 0 then None
    else if limit > 0 then Some((total + limit - 1) / limit)
    else Some(-(total / -limit))
  }

  datatype ListResponse =
    | Listed(cases: seq<(int, Case)>, page: int, totalPages: Option<int>)   // 200
    | ListFailed   // 500: a NaN page or limit is bound as NULL and LIMIT/OFFSET refuse it

  /** `(page - 1) * limit`: where page `page` of `limit` rows starts. */
  function Offset(page: int, limit: int): (offset: int)
    ensures page >= 1 && limit >= 0 ==> offset >= 0
  {
    (page - 1) * limit
  }

  /** The answer for a page number and a limit that parsed as integers. */
  function ListPage(cases: map<int, Case>, page: int, limit: int): (r: ListResponse)
    ensures r.Listed? && r.page == page && r.totalPages == TotalPages(|cases|, limit)
    ensures forall i :: 0 <= i < |r.cases| ==> r.cases[i].0 in cases && r.cases[i].1 == cases[r.cases[i].0]
    ensures forall i, j :: 0 <= i < j < |r.cases| ==> r.cases[i].0 < r.cases[j].0
  {
    var rows := OrderedRows(cases);
    var offset := Offset(page, limit);
    var lo := WindowStart(|rows|, offset);
    OrderedSlice(cases, lo, WindowEnd(|rows|, lo, limit));
    Listed(Window(rows, limit, offset), page, TotalPages(|cases|, limit))
  }

  /** The handler. `pageParam` and `limitParam` are the query parameters, None when absent. */
  function List(cases: map<int, Case>, pageParam: Option<string>, limitParam: Option<string>): (r: ListResponse)
    ensures r.Listed? <==> ParseInt(ParamOr(pageParam, "1")).Some? && ParseInt(ParamOr(limitParam, "30")).Some?
    ensures r.Listed? ==>
      r == ListPage(cases, ParseInt(ParamOr(pageParam, "1")).value, ParseInt(ParamOr(limitParam, "30")).value)
  {
    var page := ParseInt(ParamOr(pageParam, "1"));
    var limit := ParseInt(ParamOr(limitParam, "30"));
    if page.None? || limit.None? then ListFailed else ListPage(cases, page.value, limit.value)
  }

  lemma MulMono(a: int, b: int, c: int)
    requires a <= b && c >= 0
    ensures a * c <= b * c
  {
  }

  /** For a positive limit, `totalPages` is the least number of pages that holds every case. */
  lemma TotalPagesLeast(total: nat, limit: int)
    requires limit >= 1
    ensures TotalPages(total, limit).Some?
    ensures var t := TotalPages(total, limit).value;
      t >= 0 && total <= t * limit && (t - 1) * limit < total + (if total == 0 then 1 else 0)
  {
    var t := (total + limit - 1) / limit;
    var q := total + limit - 1;
    assert q == t * limit + q % limit;
    if total == 0 {
      assert t == 0;
    }
  }

  /** Page and limit sent as the decimal text of integers are read back as those integers. */
  lemma ParamsRoundTrip(cases: map<int, Case>, page: int, limit: int)
    ensures List(cases, Some(IntToDecimal(page)), Some(IntToDecimal(limit))) == ListPage(cases, page, limit)
  {
    ParseIntRoundTrip(page, []);
    ParseIntRoundTrip(limit, []);
    assert IntToDecimal(page) + [] == IntToDecimal(page);
    assert IntToDecimal(limit) + [] == IntToDecimal(limit);
  }

  lemma DefaultsParse()
    ensures ParseInt("1") == Some(1) && ParseInt("30") == Some(30)
  {
    ParseIntRoundTrip(1, []);
    ParseIntRoundTrip(30, []);
    assert IntToDecimal(1) + [] == "1" && IntToDecimal(30) + [] == "30";
  }

  /** With a non-negative offset and limit, the window is the rows from `offset` to `offset + limit`, as far as they exist. */
  lemma WindowAt<T>(rows: seq<T>, limit: int, offset: int)
    requires offset >= 0 && limit >= 0
    ensures Window(rows, limit, offset) == rows[Min(offset, |rows|)..Min(offset + limit, |rows|)]
  {
  }

  /** Without parameters the first 30 cases in id order are listed, as page 1. */
  lemma ListDefaults(cases: map<int, Case>)
    ensures var rows := OrderedRows(cases);
      List(cases, None, None) == Listed(rows[..Min(30, |rows|)], 1, Some((|cases| + 29) / 30))
  {
    DefaultsParse();
    assert List(cases, None, None) == ListPage(cases, 1, 30);
    PageContents(cases, 1, 30);
  }

  /**
   * Page `page` of `limit` cases: the cases at positions (page - 1) * limit
   * up to page * limit of the id order, as far as they exist, with `page`
   * echoed back and the least page count that holds every case.
   */
  lemma PageContents(cases: map<int, Case>, page: int, limit: int)
    requires page >= 1 && limit >= 1
    ensures var rows := OrderedRows(cases);
      var offset := Offset(page, limit);
      ListPage(cases, page, limit)
        == Listed(rows[Min(offset, |rows|)..Min(offset + limit, |rows|)], page, TotalPages(|cases|, limit))
  {
    WindowAt(OrderedRows(cases), limit, Offset(page, limit));
  }

  /** A page past the last one lists no case, though `page` is echoed back. */
  lemma PastLastPage(cases: map<int, Case>, page: int, limit: int)
    requires limit >= 1 && TotalPages(|cases|, limit).Some? && page > TotalPages(|cases|, limit).value
    ensures List(cases, Some(IntToDecimal(page)), Some(IntToDecimal(limit))) == Listed([], page, TotalPages(|cases|, limit))
  {
    TotalPagesLeast(|cases|, limit);
    var t := TotalPages(|cases|, limit).value;
    MulMono(t, page - 1, limit);
    PageContents(cases, page, limit);
    ParamsRoundTrip(cases, page, limit);
  }

  /** Pages 1 to k of `limit` cases, one after the other. */
  function PagesThrough(cases: map<int, Case>, limit: int, k: nat): seq<(int, Case)>
  {
    if k == 0 then [] else PagesThrough(cases, limit, k - 1) + ListPage(cases, k, limit).cases
  }

  lemma OffsetSteps(k: int, limit: int)
    ensures Offset(1, limit) == 0
    ensures Offset(k, limit) + limit == Offset(k + 1, limit)
  {
  }

  lemma PrefixSplit<T>(s: seq<T>, a: nat, b: nat)
    requires a <= b <= |s|
    ensures s[..a] + s[a..b] == s[..b]
  {
  }

  /** Pages 1 to k hold the rows before the start of page k + 1. */
  lemma {:induction false} PagesThroughPrefix(cases: map<int, Case>, limit: int, k: nat)
    requires limit >= 1
    ensures PagesThrough(cases, limit, k) == OrderedRows(cases)[..Min(Offset(k + 1, limit), |OrderedRows(cases)|)]
  {
    if k > 0 {
      PagesThroughPrefix(cases, limit, k - 1);
      PageContents(cases, k, limit);
      var rows := OrderedRows(cases);
      OffsetSteps(k, limit);
      var a := Min(Offset(k, limit), |rows|);
      var b := Min(Offset(k + 1, limit), |rows|);
      assert ListPage(cases, k, limit).cases == rows[a..b];
      assert PagesThrough(cases, limit, k) == rows[..a] + rows[a..b];
      PrefixSplit(rows, a, b);
    } else {
      OffsetSteps(0, limit);
    }
  }

  /**
   * Reading pages 1 to `totalPages` one after the other gives all the rows
   * in id order (`OrderedRowsExact`: every case exactly once, ascending).
   */
  lemma PagesCover(cases: map<int, Case>, limit: int)
    requires limit >= 1
    ensures TotalPages(|cases|, limit).Some?
    ensures PagesThrough(cases, limit, TotalPages(|cases|, limit).value) == OrderedRows(cases)
  {
    TotalPagesLeast(|cases|, limit);
    var t := TotalPages(|cases|, limit).value;
    PagesThroughPrefix(cases, limit, t);
    assert Offset(t + 1, limit) == t * limit;
    var rows := OrderedRows(cases);
    assert rows[..|rows|] == rows;
  }

  // --------------------------------------------------- POST /api/cases/delete

  /** How many times `c` occurs in `s`. */
  function CountOf(s: string, c: char): nat
    decreases |s|
  {
    if s == [] then 0 else CountOf(s[..|s| - 1], c) + (if s[|s| - 1] == c then 1 else 0)
  }

  /** `ids.map(() => "?").join(",")` for `n` ids. */
  function Placeholders(n: nat): string
    decreases n
  {
    if n == 0 then "" else if n == 1 then "?" else Placeholders(n - 1) + ",?"
  }

  /**
   * The placeholder list alternates '?' and ',' starting and ending with '?':
   * one '?' per id, so the statement has as many parameters as ids are bound.
   */
  lemma {:induction false} PlaceholdersShape(n: nat)
    ensures |Placeholders(n)| == (if n == 0 then 0 else 2 * n - 1)
    ensures forall i :: 0 <= i < |Placeholders(n)| ==> Placeholders(n)[i] == (if i % 2 == 0 then '?' else ',')
    ensures CountOf(Placeholders(n), '?') == n
    ensures CountOf(Placeholders(n), ',') == (if n == 0 then 0 else n - 1)
    decreases n
  {
    if n > 1 {
      PlaceholdersShape(n - 1);
      var p := Placeholders(n - 1);
      var q := p + ",?";
      assert q[..|q| - 1] == p + ",";
      assert (p + ",")[..|p|] == p;
    }
  }

  datatype DeleteResponse =
    | Deleted(count: nat)   // 200 {deleted}
    | NoIds                 // 400 "No IDs provided"
    | DeleteFailed          // 500 "Failed to delete"

  /** The cases whose id is not among `ids`. */
  function Without(cases: map<int, Case>, ids: set<int>): map<int, Case>
  {
    map k | k in cases && k !in ids :: cases[k]
  }

  /**
   * DELETE ... WHERE id IN (ids) keeps exactly the other rows, unchanged, and
   * removes as many rows as there are ids in use: an id with no row adds
   * nothing and a repeated id counts once.
   */
  lemma RemovedRows(cases: map<int, Case>, ids: set<int>)
    ensures forall k :: k in Without(cases, ids) <==> k in cases && k !in ids
    ensures forall k :: k in Without(cases, ids) ==> Without(cases, ids)[k] == cases[k]
    ensures |cases| - |Without(cases, ids)| == |cases.Keys * ids|
  {
    var kept := Without(cases, ids).Keys;
    assert kept == cases.Keys - ids;
    assert cases.Keys == kept + cases.Keys * ids;
    assert kept * (cases.Keys * ids) == {};
  }

  /**
   * The handler. `ids` is the request's `ids` when it is an array (None
   * otherwise); `storeFails` says whether opening the database file or
   * running the statement throws.
   */
  method Delete(db: Database, ids: Option<seq<int>>, storeFails: bool) returns (resp: DeleteResponse)
    requires db.Valid()
    modifies db`cases
    ensures db.Valid()
    ensures ids.None? || ids.value == [] ==> resp == NoIds && db.cases == old(db.cases)
    ensures ids.Some? && ids.value != [] && storeFails ==> resp == DeleteFailed && db.cases == old(db.cases)
    ensures ids.Some? && ids.value != [] && !storeFails ==>
      && db.cases == Without(old(db.cases), set i | i in ids.value)
      && resp.Deleted? && resp.count + |db.cases| == |old(db.cases)|
  {
    if ids.None? || ids.value == [] {
      return NoIds;
    }
    var placeholders := Placeholders(|ids.value|);
    PlaceholdersShape(|ids.value|);
    assert CountOf(placeholders, '?') == |ids.value|;
    if storeFails {
      return DeleteFailed;
    }
    var before := db.cases;
    var s := set i | i in ids.value;
    RemovedRows(before, s);
    db.cases := Without(db.cases, s);
    resp := Deleted(|before.Keys * s|);
  }

  // ------------------------------------------------------ POST /api/update-case

  datatype UpdateResponse =
    | UpdateOk      // {success: true}
    | UpdateError   // {success: false, error}; the status stays 200

  /**
   * `UPDATE cases SET name, description, date, type WHERE id = ?`: the
   * response and the table afterwards. NOT NULL is only checked on a row
   * the statement changes.
   */
  function UpdateSpec(cases: map<int, Case>, id: Cell, name: Cell, description: Cell, date: Cell,
                      category: Cell): (UpdateResponse, map<int, Case>)
  {
    var key := IntegerValue(id);
    if key.None? || key.value !in cases then (UpdateOk, cases)
    else if name.Missing? || description.Missing? || date.Missing? || category.Missing? then (UpdateError, cases)
    else (UpdateOk, cases[key.value := Case(StoredText(name), StoredText(description), StoredText(date),
                                            StoredText(category))])
  }

  /**
   * Only the row with the given id changes, and it gets exactly the four
   * values sent; no row is added or removed; the answer is a success even
   * when no row has that id, and an error only when a NULL would land in
   * an existing row.
   */
  lemma UpdateEffect(cases: map<int, Case>, id: Cell, name: Cell, description: Cell, date: Cell, category: Cell)
    ensures var (resp, after) := UpdateSpec(cases, id, name, description, date, category);
      && after.Keys == cases.Keys
      && (forall k :: k in cases && Some(k) != IntegerValue(id) ==> after[k] == cases[k])
      && (resp == UpdateError <==>
            IntegerValue(id).Some? && IntegerValue(id).value in cases
            && (name.Missing? || description.Missing? || date.Missing? || category.Missing?))
      && (resp == UpdateError ==> after == cases)
      && (IntegerValue(id).Some? && IntegerValue(id).value in cases && resp == UpdateOk ==>
            after[IntegerValue(id).value] ==
              Case(StoredText(name), StoredText(description), StoredText(date), StoredText(category)))
  {
  }

  /** The handler; `id` and the four values are the request's properties. */
  method Update(db: Database, id: Cell, name: Cell, description: Cell, date: Cell, category: Cell)
    returns (resp: UpdateResponse)
    requires db.Valid()
    modifies db`cases
    ensures db.Valid()
    ensures (resp, db.cases) == UpdateSpec(old(db.cases), id, name, description, date, category)
  {
    var key := IntegerValue(id);
    if key.None? || key.value !in db.cases {
      return UpdateOk;
    }
    if name.Missing? || description.Missing? || date.Missing? || category.Missing? {
      return UpdateError;
    }
    db.cases := db.cases[key.value := Case(StoredText(name), StoredText(description), StoredText(date),
                                           StoredText(category))];
    resp := UpdateOk;
  }

  // ----------------------------------------------------------- POST /api/submit

  /** The columns the submit statement names. */
  const SubmitColumns: seq<string> := ["name", "content", "date", "type"]

  /** The columns of `named` that `table` does not have, in order. */
  function UnknownColumns(table: seq<string>, named: seq<string>): (r: seq<string>)
    ensures forall c :: c in r <==> c in named && c !in table
    decreases |named|
  {
    if named == [] then []
    else (if named[0] in table then [] else [named[0]]) + UnknownColumns(table, named[1..])
  }

  datatype SubmitResponse =
    | Submitted              // 200 {success: true}
    | SubmitFailed(column: string)   // 500 {success: false, error}: no such column

  /** Preparing `INSERT INTO cases (name, content, date, type)` against a table with `columns`. */
  function Prepare(columns: seq<string>): (r: SubmitResponse)
    ensures r.Submitted? <==> forall c :: c in SubmitColumns ==> c in columns
  {
    var unknown := UnknownColumns(columns, SubmitColumns);
    if unknown == [] then Submitted else SubmitFailed(unknown[0])
  }

  /**
   * The handler. The statement names a `content` column that the `cases`
   * table of src/db/database.js does not have, so it cannot be prepared:
   * whatever is sent, the answer is the 500 error and no case is stored.
   */
  method Submit(db: Database, name: Cell, desc: Cell, date: Cell, category: Cell) returns (resp: SubmitResponse)
    ensures resp == SubmitFailed("content")
  {
    assert UnknownColumns(CasesColumns, SubmitColumns) == ["content"];
    resp := Prepare(CasesColumns);
  }
}
