/**
 * The rows the reset of the field management page (src/app/field/page.jsx)
 * creates: fields f1..f5, each followed by its words 1..3, numbered after
 * the counters the tables stood at, and the tables after the first `k` of
 * those inserts.
 */
module Defaults {
  import opened Common
  import opened Schema

  /** `f${i}`. */
  function FieldLabel(i: nat): string
  {
    "f" + NatToDecimal(i)
  }

  /** `f${i}w${w}`. */
  function WordLabel(i: nat, w: nat): string
  {
    "f" + NatToDecimal(i) + "w" + NatToDecimal(w)
  }

  /** The five fields the reset creates, in order: f1 .. f5. */
  function DefaultFields(): (r: seq<Field>)
    ensures |r| == 5 && forall i :: 0 <= i < 5 ==> r[i] == Field(FieldLabel(i + 1))
  {
    seq(5, i requires 0 <= i < 5 => Field(FieldLabel(i + 1)))
  }

  /** The `j`-th word the reset creates (from 0): word `j % 3 + 1` of the reset's field `j / 3 + 1`. */
  function WordMade(fb: int, j: nat): Word
  {
    Word(fb + j / 3 + 1, j % 3 + 1, WordLabel(j / 3 + 1, j % 3 + 1))
  }

  /** The fifteen words the reset creates, in order, when its first field gets the id `fb + 1`. */
  function DefaultWords(fb: int): (r: seq<Word>)
    ensures |r| == 15 && forall j :: 0 <= j < 15 ==> r[j] == WordMade(fb, j)
  {
    seq(15, j requires 0 <= j < 15 => WordMade(fb, j))
  }

  /**
   * How many fields and words the first `k` of the 20 insert requests create:
   * they go field, word, word, word, field, ...
   */
  function FieldsBy(k: nat): (n: nat)
    requires k <= 20
    ensures n <= 5 && n <= k
  {
    (k + 3) / 4
  }

  /** How many words the first `k` of the 20 insert requests create. */
  function WordsBy(k: nat): (n: nat)
    requires k <= 20
    ensures n <= 15
  {
    k - FieldsBy(k)
  }

  /** `j = 3q + r` with `0 <= r < 3` determines `j / 3` and `j % 3`. */
  lemma DivMod3(j: int, q: int, r: int)
    requires j == 3 * q + r && 0 <= r < 3
    ensures j / 3 == q && j % 3 == r
  {
  }

  /** The first `n` default words, stored with ids after `wb`, as rows of `words`. */
  lemma WordsSoFar(fb: int, wb: int, n: nat)
    requires n <= 15
    ensures var ws := InsertedAfter(map[], wb, DefaultWords(fb)[..n]);
      && (forall id :: id in ws <==> wb < id <= wb + n)
      && (forall id :: id in ws ==> ws[id] == WordMade(fb, id - wb - 1))
  {
    var cs := DefaultWords(fb)[..n];
    InsertedAfterIds(map[], wb, cs);
    var ws := InsertedAfter(map[], wb, cs);
    forall id | id in ws
      ensures ws[id] == WordMade(fb, id - wb - 1)
    {
      assert ws[wb + (id - wb - 1) + 1] == cs[id - wb - 1];
    }
  }

  /** Two default words agree on field and number only when they are the same word. */
  lemma WordMadeInjective(fb: int, ja: nat, jb: nat)
    ensures WordMade(fb, ja).fieldId == WordMade(fb, jb).fieldId && WordMade(fb, ja).wordNo == WordMade(fb, jb).wordNo
      ==> ja == jb
  {
  }

  /** While field `i` is being given words, none of its words has number `w` yet. */
  lemma MadeNotTaken(fb: int, wb: int, i: nat, w: nat)
    requires 1 <= i <= 5 && 1 <= w <= 3
    ensures !PairTaken(InsertedAfter(map[], wb, DefaultWords(fb)[..3 * (i - 1) + w - 1]), fb + i, w)
  {
    var n := 3 * (i - 1) + w - 1;
    var ws := InsertedAfter(map[], wb, DefaultWords(fb)[..n]);
    WordsSoFar(fb, wb, n);
    DivMod3(n, i - 1, w - 1);
    forall id | id in ws
      ensures ws[id].fieldId != fb + i || ws[id].wordNo != w
    {
      assert wb < id <= wb + n;
      WordMadeInjective(fb, id - wb - 1, n);
    }
  }

  /** Word `w` of field `i` is the next default word, and its pair is still free. */
  lemma WordStep(fb: int, wb: int, i: nat, w: nat)
    requires 1 <= i <= 5 && 1 <= w <= 3
    ensures var n := 3 * (i - 1) + w - 1;
      var ws := InsertedAfter(map[], wb, DefaultWords(fb)[..n]);
      && !PairTaken(ws, fb + i, w)
      && ws[wb + n + 1 := Word(fb + i, w, WordLabel(i, w))] == InsertedAfter(map[], wb, DefaultWords(fb)[..n + 1])
  {
    var n := 3 * (i - 1) + w - 1;
    MadeNotTaken(fb, wb, i, w);
    DivMod3(n, i - 1, w - 1);
    assert DefaultWords(fb)[n] == Word(fb + i, w, WordLabel(i, w));
    InsertedAfterStep(map[], wb, DefaultWords(fb), n);
  }

  /** After a full reset the five fields f1..f5 have the ids after `fb`, in order. */
  lemma FieldsMade(fb: int)
    ensures var fs := InsertedAfter(map[], fb, DefaultFields());
      && |fs.Keys| == 5
      && (forall k :: k in fs <==> fb < k <= fb + 5)
      && (forall k :: k in fs ==> fs[k] == Field(FieldLabel(k - fb)))
  {
    var cs := DefaultFields();
    var fs := InsertedAfter(map[], fb, cs);
    InsertedAfterSize(map[], fb, cs);
    InsertedAfterIds(map[], fb, cs);
    assert forall k :: k in fs <==> fb < k <= fb + |cs|;
    forall k | k in fs
      ensures fs[k] == Field(FieldLabel(k - fb))
    {
      assert fs[fb + (k - fb - 1) + 1] == cs[k - fb - 1];
    }
  }

  /** After a full reset the fifteen words have the ids after `wb`; the `j`-th of them is `WordMade(fb, j)`. */
  lemma WordsMade(fb: int, wb: int)
    ensures var ws := InsertedAfter(map[], wb, DefaultWords(fb));
      && |ws.Keys| == 15
      && (forall id :: id in ws <==> wb < id <= wb + 15)
      && (forall id :: id in ws ==> ws[id] == WordMade(fb, id - wb - 1))
  {
    InsertedAfterSize(map[], wb, DefaultWords(fb));
    assert DefaultWords(fb)[..15] == DefaultWords(fb);
    WordsSoFar(fb, wb, 15);
  }

  /** Each of the five fields gets exactly the word numbers 1, 2 and 3; no other field gets any. */
  lemma WordNosMade(fb: int, wb: int)
    ensures var ws := InsertedAfter(map[], wb, DefaultWords(fb));
      forall f :: WordNos(ws, f) == if fb < f <= fb + 5 then {1, 2, 3} else {}
  {
    forall f {
      WordNosOf(fb, wb, f);
    }
  }

  /** `WordNosMade` for one field id `f`. */
  lemma WordNosOf(fb: int, wb: int, f: int)
    ensures WordNos(InsertedAfter(map[], wb, DefaultWords(fb)), f) == if fb < f <= fb + 5 then {1, 2, 3} else {}
  {
    var ws := InsertedAfter(map[], wb, DefaultWords(fb));
    WordNosWithin(fb, wb, f);
    if fb < f <= fb + 5 {
      WordNosFull(fb, wb, f);
      assert WordNos(ws, f) == {1, 2, 3};
    } else {
      assert WordNos(ws, f) == {};
    }
  }

  /** Every default word belongs to one of the five fields and has a number from 1 to 3. */
  lemma WordsMadeRange(fb: int, wb: int)
    ensures var ws := InsertedAfter(map[], wb, DefaultWords(fb));
      forall id :: id in ws ==> fb < ws[id].fieldId <= fb + 5 && 1 <= ws[id].wordNo <= 3
  {
    var ws := InsertedAfter(map[], wb, DefaultWords(fb));
    WordsMade(fb, wb);
    forall id | id in ws
      ensures fb < ws[id].fieldId <= fb + 5 && 1 <= ws[id].wordNo <= 3
    {
      var j := id - wb - 1;
      assert 0 <= j < 15;
      assert ws[id] == WordMade(fb, j);
    }
  }

  /** The word numbers under `f` are among 1 to 3, and only the five fields have any. */
  lemma WordNosWithin(fb: int, wb: int, f: int)
    ensures forall no :: no in WordNos(InsertedAfter(map[], wb, DefaultWords(fb)), f) ==> fb < f <= fb + 5 && 1 <= no <= 3
  {
    var ws := InsertedAfter(map[], wb, DefaultWords(fb));
    WordsMadeRange(fb, wb);
    forall no | no in WordNos(ws, f)
      ensures fb < f <= fb + 5 && 1 <= no <= 3
    {
      var id :| id in ws && ws[id].fieldId == f && ws[id].wordNo == no;
      assert fb < ws[id].fieldId <= fb + 5 && 1 <= ws[id].wordNo <= 3;
    }
  }

  /** Each of the five fields has the word numbers 1 to 3. */
  lemma WordNosFull(fb: int, wb: int, f: int)
    requires fb < f <= fb + 5
    ensures forall no :: 1 <= no <= 3 ==> no in WordNos(InsertedAfter(map[], wb, DefaultWords(fb)), f)
  {
    var cs := DefaultWords(fb);
    var ws := InsertedAfter(map[], wb, cs);
    InsertedAfterIds(map[], wb, cs);
    forall no | 1 <= no <= 3
      ensures no in WordNos(ws, f)
    {
      var j := 3 * (f - fb - 1) + no - 1;
      DivMod3(j, f - fb - 1, no - 1);
      assert wb + j + 1 in ws && ws[wb + j + 1] == cs[j];
    }
  }

  /** No two of the fifteen words share a field and a word number. */
  lemma WordsMadeUnique(fb: int, wb: int)
    ensures WordsUnique(InsertedAfter(map[], wb, DefaultWords(fb)))
  {
    var ws := InsertedAfter(map[], wb, DefaultWords(fb));
    WordsMade(fb, wb);
    forall a, b | a in ws && b in ws && ws[a].fieldId == ws[b].fieldId && ws[a].wordNo == ws[b].wordNo
      ensures a == b
    {
      WordMadeInjective(fb, a - wb - 1, b - wb - 1);
    }
  }

  /** Where the first `k = 4 * (i - 1) + w` insert requests leave off: inside field `i` when `w > 0`. */
  lemma MadeAt(i: nat, w: nat, k: nat)
    requires 1 <= i && 0 <= w <= 3 && k == 4 * (i - 1) + w <= 20
    ensures w == 0 ==> FieldsBy(k) == i - 1 && WordsBy(k) == 3 * (i - 1)
    ensures w > 0 ==> FieldsBy(k) == i && WordsBy(k) == 3 * (i - 1) + w - 1
  {
    if w == 0 {
      assert k + 3 == 4 * (i - 1) + 3;
    } else {
      assert k + 3 == 4 * i + (w - 1);
    }
  }

  /** The `fields` table once the first `n` default fields exist, with ids after `fb`. */
  function FieldsAfter(fb: int, n: nat): map<int, Field>
    requires n <= 5
  {
    InsertedAfter(map[], fb, DefaultFields()[..n])
  }

  /** The `words` table once the first `n` default words exist, with ids after `wb`. */
  function WordsAfter(fb: int, wb: int, n: nat): map<int, Word>
    requires n <= 15
  {
    InsertedAfter(map[], wb, DefaultWords(fb)[..n])
  }

  /**
   * The `fields` and `words` tables and their counters once the first `k`
   * inserts of the reset have been carried out on emptied tables whose
   * counters stood at `fb` and `wb`.
   */
  ghost predicate AfterInserts(fields: map<int, Field>, fieldSeq: int, words: map<int, Word>, wordSeq: int,
                               fb: int, wb: int, k: nat)
    requires k <= 20
  {
    && fields == FieldsAfter(fb, FieldsBy(k)) && fieldSeq == fb + FieldsBy(k)
    && words == WordsAfter(fb, wb, WordsBy(k)) && wordSeq == wb + WordsBy(k)
  }

  /** How many fields exist once `made` requests of round `i` were carried out. */
  function RoundFields(i: nat, made: nat): nat
    requires 1 <= i
  {
    if made == 0 then i - 1 else i
  }

  /** How many words exist once `made` requests of round `i` were carried out. */
  function RoundWords(i: nat, made: nat): nat
    requires 1 <= i
  {
    if made == 0 then 3 * (i - 1) else 3 * (i - 1) + made - 1
  }

  /**
   * When round `i` stops after `made` of its four requests, the tables are
   * those after insert `k = 4 * (i - 1) + made` of the reset.
   */
  lemma RoundEnd(fields: map<int, Field>, fieldSeq: int, words: map<int, Word>, wordSeq: int,
                 fb: int, wb: int, i: nat, made: nat, k: nat)
    requires 1 <= i <= 5 && made < 4 && k == 4 * (i - 1) + made
    requires fields == FieldsAfter(fb, RoundFields(i, made)) && fieldSeq == fb + RoundFields(i, made)
    requires words == WordsAfter(fb, wb, RoundWords(i, made)) && wordSeq == wb + RoundWords(i, made)
    ensures AfterInserts(fields, fieldSeq, words, wordSeq, fb, wb, k)
  {
    MadeAt(i, made, k);
  }

}
