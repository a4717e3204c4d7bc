/**
 * `POST /api/cases/upload` (src/app/api/cases/upload/route.js): each
 * uploaded row is read through three header spellings, validated on its own
 * and inserted into `cases`; invalid rows are skipped and counted as
 * received but not inserted.
 */
module Upload {
  import opened Common
  import opened Schema
  import opened DateNormalizer
  import opened Store

  /** One element of the request's `cases` array: its properties by name. */
  type Row = map<string, Cell>

  function Get(row: Row, key: string): Cell
  {
    if key in row then row[key] else Missing
  }

  /** `row[bracketed] || row[plain] || row[english] || ""`. */
  function Pick(row: Row, bracketed: string, plain: string, english: string): (r: Cell)
    ensures Truthy(r) <==> Truthy(Get(row, bracketed)) || Truthy(Get(row, plain)) || Truthy(Get(row, english))
    ensures Truthy(Get(row, bracketed)) ==> r == Get(row, bracketed)
    ensures !Truthy(Get(row, bracketed)) && Truthy(Get(row, plain)) ==> r == Get(row, plain)
    ensures !Truthy(Get(row, bracketed)) && !Truthy(Get(row, plain)) && Truthy(Get(row, english)) ==>
      r == Get(row, english)
    ensures !Truthy(Get(row, bracketed)) && !Truthy(Get(row, plain)) && !Truthy(Get(row, english)) ==>
      r == Text("")
  {
    OrElse(Get(row, bracketed), OrElse(Get(row, plain), OrElse(Get(row, english), Text(""))))
  }

  function PickName(row: Row): Cell { Pick(row, "［件名］", "件名", "name") }
  function PickDescription(row: Row): Cell { Pick(row, "［相談概要］", "相談概要", "description") }
  function PickDate(row: Row): Cell { Pick(row, "［受付年月日］", "受付年月日", "date") }
  function PickCategory(row: Row): Cell { Pick(row, "［販売購入形態］", "販売購入形態", "type") }

  /** The case a row is inserted as, or None when the row is skipped. */
  function Accept(row: Row, excelSerial: int -> string): (r: Option<Case>)
    ensures r.Some? <==>
      && Truthy(PickName(row)) && Truthy(PickDescription(row)) && Truthy(PickCategory(row))
      && NormalizeDate(PickDate(row), excelSerial).Some?
      && NormalizeDate(PickDate(row), excelSerial).value != []
    ensures r.Some? ==>
      && r.value.date == NormalizeDate(PickDate(row), excelSerial).value
      && r.value.name == StoredText(PickName(row))
      && r.value.description == StoredText(PickDescription(row))
      && r.value.category == StoredText(PickCategory(row))
  {
    var name := PickName(row);
    var description := PickDescription(row);
    var date := NormalizeDate(PickDate(row), excelSerial);
    var category := PickCategory(row);
    if !Truthy(name) || !Truthy(description) || date.None? || date.value == [] || !Truthy(category) then None
    else Some(Case(StoredText(name), StoredText(description), date.value, StoredText(category)))
  }

  /** The images under `f` of the elements `f` keeps, in order. */
  function Kept<A, B>(xs: seq<A>, f: A -> Option<B>): (r: seq<B>)
    ensures |r| <= |xs|
    decreases |xs|
  {
    if xs == [] then []
    else
      var init := Kept(xs[..|xs| - 1], f);
      match f(xs[|xs| - 1])
      case Some(y) => init + [y]
      case None => init
  }

  /** What is kept of a prefix is a prefix of what is kept. */
  lemma {:induction false} KeptPrefix<A, B>(xs: seq<A>, i: nat, f: A -> Option<B>)
    requires i <= |xs|
    ensures |Kept(xs[..i], f)| <= |Kept(xs, f)|
    ensures Kept(xs[..i], f) == Kept(xs, f)[..|Kept(xs[..i], f)|]
    decreases |xs|
  {
    if i < |xs| {
      var init := xs[..|xs| - 1];
      assert init[..i] == xs[..i];
      KeptPrefix(init, i, f);
    } else {
      assert xs[..i] == xs;
    }
  }

  /** Each element is judged on its own: keeping distributes over concatenation. */
  lemma {:induction false} KeptAppend<A, B>(a: seq<A>, b: seq<A>, f: A -> Option<B>)
    ensures Kept(a + b, f) == Kept(a, f) + Kept(b, f)
    decreases |b|
  {
    if b == [] {
      assert a + b == a;
    } else {
      var b' := b[..|b| - 1];
      assert (a + b)[..|a + b| - 1] == a + b';
      KeptAppend(a, b', f);
    }
  }

  /**
   * One more element, as a loop over `xs` sees it: when the first `n` kept
   * images come from `xs[..i]`, those of `xs[..i + 1]` are the first `n`
   * or `n + 1` of them, depending on whether `f` keeps `xs[i]`.
   */
  lemma KeptStep<A, B>(xs: seq<A>, i: nat, f: A -> Option<B>, n: nat)
    requires i < |xs| && n <= |Kept(xs, f)|
    requires Kept(xs[..i], f) == Kept(xs, f)[..n]
    ensures f(xs[i]).None? ==> Kept(xs[..i + 1], f) == Kept(xs, f)[..n]
    ensures f(xs[i]).Some? ==>
      && n < |Kept(xs, f)| && Kept(xs, f)[n] == f(xs[i]).value
      && Kept(xs[..i + 1], f) == Kept(xs, f)[..n + 1]
  {
    assert xs[..i + 1][..i] == xs[..i];
    KeptPrefix(xs, i + 1, f);
    if f(xs[i]).Some? {
      assert Kept(xs[..i + 1], f) == Kept(xs, f)[..n] + [f(xs[i]).value];
    }
  }

  /** The cases the valid rows become, in row order. */
  function Accepted(rows: seq<Row>, excelSerial: int -> string): seq<Case>
  {
    Kept(rows, row => Accept(row, excelSerial))
  }

  /**
   * A row is inserted exactly when it is valid, whatever its neighbours are:
   * the cases of `before + [row] + after` are those of `before`, then the
   * row's own case if it has one, then those of `after`.
   */
  lemma AcceptedIndependent(before: seq<Row>, row: Row, after: seq<Row>, excelSerial: int -> string)
    ensures Accepted(before + [row] + after, excelSerial) ==
      Accepted(before, excelSerial)
      + (if Accept(row, excelSerial).Some? then [Accept(row, excelSerial).value] else [])
      + Accepted(after, excelSerial)
  {
    var f := (r: Row) => Accept(r, excelSerial);
    KeptAppend(before + [row], after, f);
    KeptAppend(before, [row], f);
    assert [row][..0] == [];
  }

  datatype UploadResponse =
    | Uploaded(inserted: nat, received: nat)   // 200 {message, inserted, received}
    | InvalidData                              // 400 "Invalid or missing data"
    | UploadFailed                             // 500 "Failed to upload data"

  /**
   * The loop of the handler: every row `accept` keeps is inserted, in order.
   * `failAt`, when present, is the position among the kept rows of the first
   * INSERT that throws (a store failure); the rows inserted before it stay.
   */
  method InsertKept(db: Database, rows: seq<Row>, accept: Row -> Option<Case>, failAt: Option<nat>)
    returns (inserted: nat, failed: bool)
    requires IdsIssued(db.cases, db.caseSeq)
    modifies db`cases, db`caseSeq
    ensures IdsIssued(db.cases, db.caseSeq)
    ensures
      var all := Kept(rows, accept);
      && failed == (failAt.Some? && failAt.value < |all|)
      && inserted == (if failed then failAt.value else |all|)
      && db.cases == InsertedAfter(old(db.cases), old(db.caseSeq), all[..inserted])
      && db.caseSeq == old(db.caseSeq) + inserted
  {
    ghost var all := Kept(rows, accept);
    ghost var base := db.caseSeq;
    inserted := 0;
    assert all[..0] == [];
    for i := 0 to |rows|
      invariant inserted <= |all|
      invariant failAt.Some? ==> inserted <= failAt.value
      invariant Kept(rows[..i], accept) == all[..inserted]
      invariant db.cases == InsertedAfter(old(db.cases), base, all[..inserted])
      invariant db.caseSeq == base + inserted
      invariant IdsIssued(db.cases, db.caseSeq)
    {
      KeptStep(rows, i, accept, inserted);
      var c := accept(rows[i]);
      if c.Some? {
        if failAt.Some? && failAt.value == inserted {
          return inserted, true;
        }
        InsertedAfterStep(old(db.cases), base, all, inserted);
        db.InsertCase(c.value);
        inserted := inserted + 1;
      }
    }
    assert rows[..|rows|] == rows;
    failed := false;
  }

  /**
   * The handler. `body` is the request's `cases` when it is an array and
   * None otherwise; `failAt` is as for `InsertKept`.
   */
  method Post(db: Database, body: Option<seq<Row>>, excelSerial: int -> string, failAt: Option<nat>)
    returns (resp: UploadResponse)
    requires db.Valid()
    modifies db`cases, db`caseSeq
    ensures db.Valid()
    ensures body.None? ==> resp == InvalidData && db.cases == old(db.cases) && db.caseSeq == old(db.caseSeq)
    ensures body.Some? ==>
      var all := Accepted(body.value, excelSerial);
      var k := if failAt.Some? && failAt.value < |all| then failAt.value else |all|;
      && db.cases == InsertedAfter(old(db.cases), old(db.caseSeq), all[..k])
      && db.caseSeq == old(db.caseSeq) + k
      && resp == (if k < |all| then UploadFailed else Uploaded(|all|, |body.value|))
      && (resp.Uploaded? ==> resp.inserted <= resp.received)
  {
    if body.None? {
      return InvalidData;
    }
    var inserted, failed := InsertKept(db, body.value, row => Accept(row, excelSerial), failAt);
    if failed {
      return UploadFailed;
    }
    return Uploaded(inserted, |body.value|);
  }
}
