/**
 * POST /api/posters/save (src/app/api/posters/save/route.js): a poster
 * needs a name and a poster URL; the optional properties get defaults with
 * `??`, and the row is then inserted into `posters`, whose columns are all
 * NOT NULL (src/db/database.js).
 */
module Posters {
  import opened Common
  import opened Schema
  import opened Store

  /** The body's properties; Missing stands for an absent or null property. */
  datatype PosterRequest = PosterRequest(
    name: Cell, text: Cell, posterUrl: Cell, imageUrl: Cell,
    resultId: Cell, textSize: Cell, textColor: Cell)

  datatype PosterResponse =
    | PosterSaved      // 201 {success: true}
    | FieldsMissing    // 400 "Missing required fields: name or poster_url"
    | InsertFailed     // 500 "Database insert failed"
    | NotInteger       // a result_id or text_size SQLite would store as text

  /** JavaScript `a ?? b`: `b` only when `a` is undefined or null. */
  function Nullish(a: Cell, b: Cell): (r: Cell)
    ensures r == if a.Missing? then b else a
  {
    if a.Missing? then b else a
  }

  /** The value the statement binds for each column, defaults applied. */
  datatype Bound = Bound(
    name: Cell, text: Cell, posterUrl: Cell, imageUrl: Cell,
    resultId: Cell, textSize: Cell, textColor: Cell)

  /**
   * The seven values bound to the INSERT, in column order. Only `text`,
   * `text_size` and `text_color` have defaults; `result_id` defaults to
   * null itself, so the statement binds a NULL exactly when the name, the
   * poster URL, the image URL or the result id is absent.
   */
  function Bind(req: PosterRequest): (b: Bound)
    ensures HasNull(b) <==>
      req.name.Missing? || req.posterUrl.Missing? || req.imageUrl.Missing? || req.resultId.Missing?
    ensures !b.text.Missing? && !b.textSize.Missing? && !b.textColor.Missing?
  {
    Bound(req.name, Nullish(req.text, Text("")), req.posterUrl, req.imageUrl,
          req.resultId, Nullish(req.textSize, Number(24)), Nullish(req.textColor, Text("#000000")))
  }

  /** Some bound value is NULL, which the NOT NULL columns refuse. */
  predicate HasNull(b: Bound)
  {
    b.name.Missing? || b.text.Missing? || b.posterUrl.Missing? || b.imageUrl.Missing?
    || b.resultId.Missing? || b.textSize.Missing? || b.textColor.Missing?
  }

  /** The row the bound values make, when the two INTEGER columns get integers. */
  function RowOf(b: Bound): (r: Option<Poster>)
    requires !HasNull(b)
    ensures r.Some? <==> IntegerValue(b.resultId).Some? && IntegerValue(b.textSize).Some?
  {
    var rid := IntegerValue(b.resultId);
    var size := IntegerValue(b.textSize);
    if rid.None? || size.None? then None
    else Some(Poster(StoredText(b.name), StoredText(b.text), StoredText(b.posterUrl), StoredText(b.imageUrl),
                     rid.value, size.value, StoredText(b.textColor)))
  }

  /**
   * The poster a request stores, if the columns accept it. An absent text
   * is stored as "", an absent size as 24, an absent colour as "#000000";
   * given values are stored as given, even falsy ones such as "" or 0.
   */
  function PosterRow(req: PosterRequest): (r: Option<Poster>)
    ensures req.resultId.Missing? || req.imageUrl.Missing? ==> r.None?
    ensures r.Some? ==>
      && r.value.name == StoredText(req.name) && r.value.posterUrl == StoredText(req.posterUrl)
      && r.value.imageUrl == StoredText(req.imageUrl)
      && IntegerValue(req.resultId) == Some(r.value.resultId)
      && r.value.text == (if req.text.Missing? then "" else StoredText(req.text))
      && (if req.textSize.Missing? then r.value.textSize == 24 else IntegerValue(req.textSize) == Some(r.value.textSize))
      && r.value.textColor == (if req.textColor.Missing? then "#000000" else StoredText(req.textColor))
  {
    var b := Bind(req);
    if HasNull(b) then None else RowOf(b)
  }

  /**
   * The handler. The row is inserted whatever `result_id` names: nothing
   * checks it against `results` first, and only an enforced FOREIGN KEY
   * refuses a result that does not exist.
   */
  method Save(db: Database, req: PosterRequest) returns (resp: PosterResponse)
    requires db.Valid()
    modifies db`posters, db`posterSeq
    ensures db.Valid()
    ensures !Truthy(req.name) || !Truthy(req.posterUrl) ==>
      resp == FieldsMissing && db.posters == old(db.posters) && db.posterSeq == old(db.posterSeq)
    ensures Truthy(req.name) && Truthy(req.posterUrl) ==>
      var b := Bind(req);
      if HasNull(b) then
        resp == InsertFailed && db.posters == old(db.posters) && db.posterSeq == old(db.posterSeq)
      else if RowOf(b).None? then
        resp == NotInteger && db.posters == old(db.posters) && db.posterSeq == old(db.posterSeq)
      else if db.foreignKeys && RowOf(b).value.resultId !in db.results then
        resp == InsertFailed && db.posters == old(db.posters) && db.posterSeq == old(db.posterSeq)
      else
        && resp == PosterSaved
        && db.posters == old(db.posters)[old(db.posterSeq) + 1 := RowOf(b).value]
        && db.posterSeq == old(db.posterSeq) + 1
  {
    if !Truthy(req.name) || !Truthy(req.posterUrl) {
      return FieldsMissing;
    }
    var b := Bind(req);
    if HasNull(b) {
      return InsertFailed;
    }
    var row := RowOf(b);
    if row.None? {
      return NotInteger;
    }
    if db.foreignKeys && row.value.resultId !in db.results {
      return InsertFailed;
    }
    db.InsertPoster(row.value);
    resp := PosterSaved;
  }
}
