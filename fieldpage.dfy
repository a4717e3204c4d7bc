/**
 * The field management page (src/app/field/page.jsx): its input guards, the
 * selection it clears, and the reset that deletes every word and field and
 * then creates fields f1..f5 with words 1..3 each, stopping at the first
 * request that does not succeed. A request is a call of the handler it is
 * sent to (module Registry) on the shared database.
 */
module FieldPage {
  import opened Common
  import opened Schema
  import opened Store
  import opened Registry
  import opened Defaults

  /**
   * The number of the first request of the reset that fails: 0 and 1 are the
   * two deletes, 2 to 21 the inserts, and 22 stands for none. `failAt` is a
   * request the server refuses for a reason the model does not see; the
   * delete of all fields also fails when foreign keys are enforced and a
   * saved result still names a field (`fkStop`).
   */
  function FirstFailure(failAt: Option<nat>, fkStop: bool): nat
  {
    if failAt == Some(0) then 0
    else if failAt == Some(1) || fkStop then 1
    else if failAt.Some? && failAt.value < 22 then failAt.value
    else 22
  }

  /**
   * The inserts of the reset on emptied `fields` and `words`: fields f1..f5,
   * each followed by its words 1..3. Request number `stop` (2 to 21) fails
   * and ends the reset, leaving what was created before it; from 22 on no
   * insert fails.
   */
  method CreateDefaults(db: Database, stop: nat) returns (sent: nat, ok: bool)
    requires db.Valid() && db.fields == map[] && db.words == map[]
    requires stop >= 2
    modifies db`fields, db`fieldSeq, db`words, db`wordSeq
    ensures db.Valid()
    ensures ok == (stop >= 22) && sent == (if ok then 22 else stop + 1)
    ensures ok ==> db.fields == FieldsAfter(old(db.fieldSeq), 5) && db.fieldSeq == old(db.fieldSeq) + 5
    ensures ok ==> db.words == WordsAfter(old(db.fieldSeq), old(db.wordSeq), 15) && db.wordSeq == old(db.wordSeq) + 15
    ensures !ok ==> AfterInserts(db.fields, db.fieldSeq, db.words, db.wordSeq, old(db.fieldSeq), old(db.wordSeq), stop - 2)
  {
    var fb, wb := db.fieldSeq, db.wordSeq;
    assert DefaultFields()[..0] == [] && DefaultWords(fb)[..0] == [];
    sent := 2;
    var n := 0;
    while n < 5
      invariant 0 <= n <= 5
      invariant db.Valid()
      invariant sent == 2 + 4 * n <= stop
      invariant db.fields == FieldsAfter(fb, n) && db.fieldSeq == fb + n
      invariant db.words == WordsAfter(fb, wb, 3 * n) && db.wordSeq == wb + 3 * n
    {
      var ended;
      sent, ended := NextRound(db, fb, wb, n + 1, sent, stop);
      if ended {
        return sent, false;
      }
      n := n + 1;
    }
    ok := true;
  }

  /**
   * Round `i` of the reset, and where it leaves the tables when request
   * `stop` ends the reset inside it.
   */
  method NextRound(db: Database, fb: int, wb: int, i: nat, sent0: nat, stop: nat)
    returns (sent: nat, ended: bool)
    requires 1 <= i <= 5 && sent0 == 2 + 4 * (i - 1) <= stop
    requires db.Valid()
    requires db.fields == FieldsAfter(fb, i - 1) && db.fieldSeq == fb + i - 1
    requires db.words == WordsAfter(fb, wb, 3 * (i - 1)) && db.wordSeq == wb + 3 * (i - 1)
    modifies db`fields, db`fieldSeq, db`words, db`wordSeq
    ensures db.Valid()
    ensures ended == (stop < sent0 + 4) && sent == (if ended then stop + 1 else sent0 + 4)
    ensures ended ==> AfterInserts(db.fields, db.fieldSeq, db.words, db.wordSeq, fb, wb, stop - 2)
    ensures !ended ==> db.fields == FieldsAfter(fb, i) && db.fieldSeq == fb + i
    ensures !ended ==> db.words == WordsAfter(fb, wb, 3 * i) && db.wordSeq == wb + 3 * i
  {
    var made;
    sent, made := AddDefaultField(db, fb, wb, i, sent0, stop);
    ended := made < 4;
    if ended {
      RoundEnd(db.fields, db.fieldSeq, db.words, db.wordSeq, fb, wb, i, made, stop - 2);
    }
  }

  /**
   * One round of the reset: field `i` and then its words 1 to 3, sent as
   * requests `sent0` to `sent0 + 3`. `made` is how many of the four were
   * carried out; fewer than 4 means that request `stop` ended the reset.
   */
  method AddDefaultField(db: Database, fb: int, wb: int, i: nat, sent0: nat, stop: nat)
    returns (sent: nat, made: nat)
    requires 1 <= i <= 5 && sent0 == 2 + 4 * (i - 1) <= stop
    requires db.Valid()
    requires db.fields == FieldsAfter(fb, i - 1) && db.fieldSeq == fb + i - 1
    requires db.words == WordsAfter(fb, wb, 3 * (i - 1)) && db.wordSeq == wb + 3 * (i - 1)
    modifies db`fields, db`fieldSeq, db`words, db`wordSeq
    ensures db.Valid()
    ensures made <= 4 && (made < 4 ==> made == stop - sent0 && sent == stop + 1)
    ensures made == 4 ==> sent0 + 4 <= stop && sent == sent0 + 4
    ensures db.fields == FieldsAfter(fb, RoundFields(i, made)) && db.fieldSeq == fb + RoundFields(i, made)
    ensures db.words == WordsAfter(fb, wb, RoundWords(i, made)) && db.wordSeq == wb + RoundWords(i, made)
  {
    if sent0 == stop {
      return sent0 + 1, 0;
    }
    SendDefaultField(db, fb, i);
    var added;
    sent, added := AddFieldWords(db, fb, wb, i, sent0 + 1, stop);
    made := added + 1;
  }

  /** The request for field `i`, which the server accepts. */
  method SendDefaultField(db: Database, fb: int, i: nat)
    requires 1 <= i <= 5
    requires db.Valid()
    requires db.fields == FieldsAfter(fb, i - 1) && db.fieldSeq == fb + i - 1
    modifies db`fields, db`fieldSeq
    ensures db.Valid()
    ensures db.fields == FieldsAfter(fb, i) && db.fieldSeq == fb + i
    ensures fb + i in db.fields
  {
    InsertedAfterStep(map[], fb, DefaultFields(), i - 1);
    var fr := PostField(db, Text(FieldLabel(i)));
  }

  /** The request for word `w` of field `i`, which the server accepts. */
  method SendDefaultWord(db: Database, fb: int, wb: int, i: nat, w: nat)
    requires 1 <= i <= 5 && 1 <= w <= 3
    requires db.Valid() && fb + i in db.fields
    requires db.words == WordsAfter(fb, wb, 3 * (i - 1) + w - 1)
    requires db.wordSeq == wb + 3 * (i - 1) + w - 1
    modifies db`words, db`wordSeq
    ensures db.Valid()
    ensures db.words == WordsAfter(fb, wb, 3 * (i - 1) + w)
    ensures db.wordSeq == wb + 3 * (i - 1) + w
  {
    WordStep(fb, wb, i, w);
    assert IntegerValue(Number(fb + i)) == Some(fb + i) && IntegerValue(Number(w)) == Some(w);
    var wr := PostWord(db, Number(fb + i), Number(w), Text(WordLabel(i, w)));
  }

  /**
   * The inner loop of the reset: words 1 to 3 of field `i`, sent as
   * requests `sent0` to `sent0 + 2`. `added` is how many of them were
   * created; fewer than 3 means that request `stop` ended the loop.
   */
  method AddFieldWords(db: Database, fb: int, wb: int, i: nat, sent0: nat, stop: nat)
    returns (sent: nat, added: nat)
    requires 1 <= i <= 5 && sent0 <= stop
    requires db.Valid() && fb + i in db.fields
    requires db.words == WordsAfter(fb, wb, 3 * (i - 1)) && db.wordSeq == wb + 3 * (i - 1)
    modifies db`words, db`wordSeq
    ensures db.Valid()
    ensures added <= 3 && (added < 3 ==> added == stop - sent0 && sent == stop + 1)
    ensures added == 3 ==> sent0 + 3 <= stop && sent == sent0 + 3
    ensures db.words == WordsAfter(fb, wb, 3 * (i - 1) + added)
    ensures db.wordSeq == wb + 3 * (i - 1) + added
  {
    sent, added := sent0, 0;
    for w := 1 to 4
      invariant db.Valid()
      invariant added == w - 1 && sent == sent0 + added <= stop
      invariant fb + i in db.fields
      invariant db.words == WordsAfter(fb, wb, 3 * (i - 1) + added)
      invariant db.wordSeq == wb + 3 * (i - 1) + added
    {
      if sent == stop {
        return sent + 1, added;
      }
      SendDefaultWord(db, fb, wb, i, w);
      sent, added := sent + 1, added + 1;
    }
  }

  /** The state of the page that its handlers read and set. */
  class Page {
    /** The id of `selectedField`, when a field is selected. */
    var selected: Option<int>
    /** The text inputs: the new field's name, the new word's number and term. */
    var fieldName: string
    var wordNo: string
    var fieldWord: string

    constructor ()
      ensures selected == None && fieldName == "" && wordNo == "" && fieldWord == ""
    {
      selected := None;
      fieldName, wordNo, fieldWord := "", "", "";
    }

    /** `handleAddField`: no request without a name; the input is cleared once the field exists. */
    method AddField(db: Database) returns (sent: bool)
      requires db.Valid()
      modifies this`fieldName, db`fields, db`fieldSeq
      ensures db.Valid()
      ensures sent <==> old(fieldName) != ""
      ensures !sent ==> db.fields == old(db.fields) && db.fieldSeq == old(db.fieldSeq) && fieldName == old(fieldName)
      ensures sent ==>
        && db.fields == old(db.fields)[old(db.fieldSeq) + 1 := Field(old(fieldName))]
        && db.fieldSeq == old(db.fieldSeq) + 1
        && fieldName == ""
    {
      if fieldName == "" {
        return false;
      }
      var resp := PostField(db, Text(fieldName));
      fieldName := "";
      sent := true;
    }

    /**
     * `handleDeleteField(id)` after the confirmation dialog: when the delete
     * succeeds and the deleted field was the selected one, the selection is
     * cleared.
     */
    method DeleteField(db: Database, id: int, confirmed: bool) returns (resp: Option<DeleteResponse>)
      requires db.Valid()
      modifies this`selected, db`fields, db`words
      ensures db.Valid()
      ensures !confirmed ==> resp == None && selected == old(selected) && db.fields == old(db.fields)
      ensures confirmed ==>
        && resp.Some?
        && (resp.value == Removed <==>
              id != 0 && !(db.foreignKeys && id in old(db.fields) && FieldReferenced(old(db.words), old(db.entries), id)))
      ensures db.words == old(db.words)
      ensures confirmed && resp == Some(Removed) ==>
        db.fields == RemoveKey(old(db.fields), Some(id))
        && selected == (if old(selected) == Some(id) then None else old(selected))
      ensures confirmed && resp != Some(Removed) ==> selected == old(selected) && db.fields == old(db.fields)
    {
      if !confirmed {
        return None;
      }
      var r := Registry.DeleteField(db, Number(id), false);
      resp := Some(r);
      if r != Removed {
        return;
      }
      if selected == Some(id) {
        selected := None;
      }
    }

    /**
     * `handleAddWord`: no request without a selected field, a word number and
     * a term; the inputs are cleared once the word exists.
     */
    method AddWord(db: Database) returns (resp: Option<WordPostResponse>)
      requires db.Valid()
      modifies this`wordNo, this`fieldWord, db`words, db`wordSeq
      ensures db.Valid()
      ensures resp.None? <==> selected.None? || old(wordNo) == "" || old(fieldWord) == ""
      ensures resp.None? ==>
        db.words == old(db.words) && db.wordSeq == old(db.wordSeq) && wordNo == old(wordNo) && fieldWord == old(fieldWord)
      ensures resp.Some? && resp.value.WordCreated? ==>
        && resp.value.word.fieldId == selected.value && resp.value.word.term == old(fieldWord)
        && db.words == old(db.words)[resp.value.id := resp.value.word]
        && wordNo == "" && fieldWord == ""
      ensures resp.Some? && !resp.value.WordCreated? ==>
        db.words == old(db.words) && wordNo == old(wordNo) && fieldWord == old(fieldWord)
    {
      if selected.None? || wordNo == "" || fieldWord == "" {
        return None;
      }
      var r := PostWord(db, Number(selected.value), Text(wordNo), Text(fieldWord));
      resp := Some(r);
      if r.WordCreated? {
        wordNo, fieldWord := "", "";
      }
    }

    /**
     * `handleInitializeFields` after the confirmation dialog. The requests
     * are numbered 0 (delete all words), 1 (delete all fields), then 2 to 21
     * (field 1, its words 1 to 3, field 2, ...). `failAt` is the number of a
     * request the server answers with an error for a reason the model does
     * not see; it is not carried out. The reset stops at the first request
     * that fails, and `sent` says how many requests were made; the selection
     * is cleared only when every request succeeded.
     */
    method Initialize(db: Database, confirmed: bool, failAt: Option<nat>) returns (sent: nat, ok: bool)
      requires db.Valid()
      modifies this`selected, db`fields, db`fieldSeq, db`words, db`wordSeq
      ensures db.Valid()
      ensures !confirmed ==>
        && sent == 0 && !ok && selected == old(selected)
        && db.fields == old(db.fields) && db.words == old(db.words)
        && db.fieldSeq == old(db.fieldSeq) && db.wordSeq == old(db.wordSeq)
      ensures confirmed ==>
        var stop := FirstFailure(failAt, db.foreignKeys && AnyFieldReferenced(old(db.entries), old(db.fields)));
        && ok == (stop == 22)
        && sent == (if ok then 22 else stop + 1)
        && selected == (if ok then None else old(selected))
      ensures confirmed ==>
        var stop := FirstFailure(failAt, db.foreignKeys && AnyFieldReferenced(old(db.entries), old(db.fields)));
        stop < 2 ==>
          && db.words == (if stop == 0 then old(db.words) else map[])
          && db.fields == old(db.fields)
          && db.fieldSeq == old(db.fieldSeq) && db.wordSeq == old(db.wordSeq)
      ensures confirmed ==>
        var stop := FirstFailure(failAt, db.foreignKeys && AnyFieldReferenced(old(db.entries), old(db.fields)));
        2 <= stop < 22 ==> AfterInserts(db.fields, db.fieldSeq, db.words, db.wordSeq, old(db.fieldSeq), old(db.wordSeq), stop - 2)
      ensures ok ==>
        && db.fields == FieldsAfter(old(db.fieldSeq), 5) && db.fieldSeq == old(db.fieldSeq) + 5
        && db.words == WordsAfter(old(db.fieldSeq), old(db.wordSeq), 15) && db.wordSeq == old(db.wordSeq) + 15
    {
      if !confirmed {
        return 0, false;
      }
      if failAt == Some(0) {
        return 1, false;
      }
      var r := DeleteWord(db, Missing, true);
      if failAt == Some(1) {
        return 2, false;
      }
      r := Registry.DeleteField(db, Missing, true);
      if r != Removed {
        return 2, false;
      }
      sent, ok := CreateDefaults(db, FirstFailure(failAt, false));
      if ok {
        selected := None;
      }
    }
  }
}
