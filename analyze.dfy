/**
 * `POST /api/analyze` (src/app/api/analyze/route.js): the cases whose date
 * lies in [startDate, endDate] are selected; for every field, in ascending
 * id, the matches of each of its words in each selected case's `type` are
 * counted and summed; each field then gets its share of the grand total as
 * a percentage with two decimals.
 */
module Analyze {
  import opened Common
  import opened Schema
  import opened Ids
  import opened Store

  // ------------------------------------------------------------ matching

  /** Leftmost, non-overlapping occurrences of a non-empty pattern, scanning left to right. */
  function ScanCount(text: string, pat: string): nat
    requires pat != []
    decreases |text|
  {
    if |text| < |pat| then 0
    else if text[..|pat|] == pat then 1 + ScanCount(text[|pat|..], pat)
    else ScanCount(text[1..], pat)
  }

  /**
   * The length of `text.match(new RegExp(pat, "g"))`, or 0 when it is null,
   * for a pattern read literally. The empty pattern matches at each of the
   * |text| + 1 positions.
   */
  function MatchCount(text: string, pat: string): nat
  {
    if pat == [] then |text| + 1 else ScanCount(text, pat)
  }

  predicate OccursAt(text: string, pat: string, i: int)
  {
    0 <= i && i + |pat| <= |text| && text[i..i + |pat|] == pat
  }

  ghost predicate Occurs(text: string, pat: string)
  {
    exists i :: OccursAt(text, pat, i)
  }

  /** A literal pattern matches at least once exactly when it occurs somewhere in the text. */
  lemma {:induction false} MatchCountPositive(text: string, pat: string)
    ensures MatchCount(text, pat) > 0 <==> Occurs(text, pat)
    decreases |text|
  {
    if pat == [] {
      assert OccursAt(text, pat, 0);
    } else if |text| < |pat| {
    } else if text[..|pat|] == pat {
      assert OccursAt(text, pat, 0);
    } else {
      var rest := text[1..];
      MatchCountPositive(rest, pat);
      if Occurs(text, pat) {
        var i :| OccursAt(text, pat, i);
        assert i != 0;
        assert rest[i - 1..i - 1 + |pat|] == text[i..i + |pat|];
        assert OccursAt(rest, pat, i - 1);
      }
      if Occurs(rest, pat) {
        var i :| OccursAt(rest, pat, i);
        assert text[i + 1..i + 1 + |pat|] == rest[i..i + |pat|];
        assert OccursAt(text, pat, i + 1);
      }
    }
  }

  /** Matches do not overlap: together they fit in the text. */
  lemma {:induction false} ScanCountFits(text: string, pat: string)
    requires pat != []
    ensures ScanCount(text, pat) * |pat| <= |text|
    decreases |text|
  {
    if |text| >= |pat| {
      if text[..|pat|] == pat {
        ScanCountFits(text[|pat|..], pat);
      } else {
        ScanCountFits(text[1..], pat);
      }
    }
  }

  function Repeat(pat: string, k: nat): (r: string)
    ensures |r| == k * |pat|
  {
    if k == 0 then [] else pat + Repeat(pat, k - 1)
  }

  /** A non-empty word written k times in a row is matched exactly k times. */
  lemma {:induction false} MatchCountRepeat(pat: string, k: nat)
    requires pat != []
    ensures MatchCount(Repeat(pat, k), pat) == k
  {
    if k > 0 {
      var t := Repeat(pat, k);
      assert t[..|pat|] == pat;
      assert t[|pat|..] == Repeat(pat, k - 1);
      MatchCountRepeat(pat, k - 1);
    }
  }

  // ------------------------------------------------------------ sums

  /** The matches of one word summed over the selected cases' types. */
  function Occurrences(term: string, types: seq<string>): nat
    decreases |types|
  {
    if types == [] then 0
    else Occurrences(term, types[..|types| - 1]) + MatchCount(types[|types| - 1], term)
  }

  /** A field's `total_occurrences`: the matches of each of its words in each type. */
  function FieldTotal(terms: seq<string>, types: seq<string>): nat
    decreases |terms|
  {
    if terms == [] then 0
    else FieldTotal(terms[..|terms| - 1], types) + Occurrences(terms[|terms| - 1], types)
  }

  lemma {:induction false} OccurrencesAppend(term: string, a: seq<string>, b: seq<string>)
    ensures Occurrences(term, a + b) == Occurrences(term, a) + Occurrences(term, b)
    decreases |b|
  {
    if b == [] {
      assert a + b == a;
    } else {
      assert (a + b)[..|a + b| - 1] == a + b[..|b| - 1];
      OccurrencesAppend(term, a, b[..|b| - 1]);
    }
  }

  /** Splitting the selected cases in two splits every field's total in two. */
  lemma {:induction false} FieldTotalAppendCases(terms: seq<string>, a: seq<string>, b: seq<string>)
    ensures FieldTotal(terms, a + b) == FieldTotal(terms, a) + FieldTotal(terms, b)
    decreases |terms|
  {
    if terms != [] {
      FieldTotalAppendCases(terms[..|terms| - 1], a, b);
      OccurrencesAppend(terms[|terms| - 1], a, b);
    }
  }

  /** A field's total is 0 exactly when none of its words matches any selected type. */
  lemma {:induction false} FieldTotalZero(terms: seq<string>, types: seq<string>)
    ensures FieldTotal(terms, types) == 0 <==>
      forall i, j :: 0 <= i < |terms| && 0 <= j < |types| ==> MatchCount(types[j], terms[i]) == 0
    decreases |terms|
  {
    if terms != [] {
      var init := terms[..|terms| - 1];
      FieldTotalZero(init, types);
      OccurrencesZero(terms[|terms| - 1], types);
      assert forall i :: 0 <= i < |init| ==> init[i] == terms[i];
    }
  }

  lemma {:induction false} OccurrencesZero(term: string, types: seq<string>)
    ensures Occurrences(term, types) == 0 <==> forall j :: 0 <= j < |types| ==> MatchCount(types[j], term) == 0
    decreases |types|
  {
    if types != [] {
      var init := types[..|types| - 1];
      OccurrencesZero(term, init);
      assert forall j :: 0 <= j < |init| ==> init[j] == types[j];
    }
  }

  /** The word "A" over the types "A", "AA" and "B" is matched 3 times. */
  lemma OccurrencesExample()
    ensures Occurrences("A", ["A", "AA", "B"]) == 3
  {
    var types := ["A", "AA", "B"];
    assert types[..2] == ["A", "AA"];
    assert types[..2][..1] == ["A"];
    assert types[..2][..1][..0] == [];
    assert ScanCount([], "A") == 0;
    assert ScanCount("A", "A") == 1 by {
      assert "A"[..1] == "A" && "A"[1..] == [];
    }
    assert ScanCount("AA", "A") == 2 by {
      assert "AA"[..1] == "A" && "AA"[1..] == "A";
    }
    assert ScanCount("B", "A") == 0 by {
      assert "B"[..1] == "B" && "B"[1..] == [];
      assert "B"[0] != "A"[0];
    }
    assert Occurrences("A", types[..2][..1]) == 1;
    assert Occurrences("A", types[..2]) == 3;
  }

  /**
   * The nested loops of the handler: for each word, for each selected case,
   * the matches of the word in the case's type are added to the running total.
   */
  method CountField(terms: seq<string>, types: seq<string>) returns (total: nat)
    ensures total == FieldTotal(terms, types)
  {
    total := 0;
    for i := 0 to |terms|
      invariant total == FieldTotal(terms[..i], types)
    {
      assert terms[..i + 1][..i] == terms[..i];
      for j := 0 to |types|
        invariant total == FieldTotal(terms[..i], types) + Occurrences(terms[i], types[..j])
      {
        assert types[..j + 1][..j] == types[..j];
        total := total + MatchCount(types[j], terms[i]);
      }
      assert types[..|types|] == types;
    }
    assert terms[..|terms|] == terms;
  }

  // ------------------------------------------------------------ percentages

  /**
   * `(count / grand * 100).toFixed(2)` in hundredths: the nearest hundredth
   * of 100 * count / grand, halves rounded up.
   */
  function Hundredths(count: nat, grand: nat): nat
    requires grand > 0
  {
    (20000 * count + grand) / (2 * grand)
  }

  lemma MulLeft(g: int, x: int, y: int)
    requires g >= 0 && x <= y
    ensures g * x <= g * y
  {
  }

  /** The hundredth chosen is the nearest one, with a half rounded up. */
  lemma HundredthsNearest(count: nat, grand: nat)
    requires grand > 0
    ensures -(grand as int) < 2 * ((grand * Hundredths(count, grand)) as int - 10000 * count) <= grand
  {
    var h := Hundredths(count, grand);
    var q := 20000 * count + grand;
    var d := 2 * grand;
    assert q == d * h + q % d && 0 <= q % d < d;
    assert d * h == 2 * (grand * h);
  }

  /** A share of the grand total is at most 100.00, and exactly 100.00 for the whole. */
  lemma HundredthsBounds(count: nat, grand: nat)
    requires 0 < grand && count <= grand
    ensures Hundredths(count, grand) <= 10000
    ensures count == grand ==> Hundredths(count, grand) == 10000
    ensures count == 0 ==> Hundredths(count, grand) == 0
  {
    HundredthsNearest(count, grand);
    var h := Hundredths(count, grand);
    MulLeft(10000, count, grand);
    assert 2 * (grand * h) <= 20001 * grand;
    if h > 10000 {
      MulLeft(grand, 10001, h);
      assert false;
    }
    if count == grand && h < 10000 {
      MulLeft(grand, h, 9999);
      assert false;
    }
    if count == 0 && h > 0 {
      MulLeft(grand, 1, h);
      assert false;
    }
  }

  /** A larger count never gets a smaller percentage. */
  lemma HundredthsMonotone(c1: nat, c2: nat, grand: nat)
    requires grand > 0 && c1 <= c2
    ensures Hundredths(c1, grand) <= Hundredths(c2, grand)
  {
    var h1, h2 := Hundredths(c1, grand), Hundredths(c2, grand);
    HundredthsNearest(c1, grand);
    HundredthsNearest(c2, grand);
    if h1 > h2 {
      MulLeft(grand, h2 + 1, h1);
      MulLeft(10000, c1, c2);
      assert false;
    }
  }

  /** Two digits after the point: `n.toFixed(2)` of the number with these hundredths. */
  function FormatHundredths(h: nat): (s: string)
    ensures |s| >= 4 && s[|s| - 3] == '.'
    ensures AllDigits(s[..|s| - 3]) && IsDigit(s[|s| - 2]) && IsDigit(s[|s| - 1])
    ensures |s| > 4 ==> s[0] != '0'
  {
    NatToDecimal(h / 100) + "." + [DigitChar(h % 100 / 10), DigitChar(h % 10)]
  }

  /** Reading the formatted text back as a decimal gives the hundredths it came from. */
  lemma FormatHundredthsRead(h: nat)
    ensures var s := FormatHundredths(h);
      DecimalValue(s[..|s| - 3]) * 100 + DigitValue(s[|s| - 2]) * 10 + DigitValue(s[|s| - 1]) == h
  {
    var s := FormatHundredths(h);
    assert s[..|s| - 3] == NatToDecimal(h / 100);
    DecimalRoundTrip(h / 100);
  }

  /** The shortcut "0.00" of a zero grand total is what a zero share formats to. */
  lemma ZeroFormat()
    ensures FormatHundredths(0) == "0.00"
  {
  }

  /** The `percentage` of a field: its share, or "0.00" when nothing matched at all. */
  function PercentageText(count: nat, grand: nat): string
  {
    if grand > 0 then FormatHundredths(Hundredths(count, grand)) else "0.00"
  }

  // ------------------------------------------------------------ the report

  datatype FieldCount = FieldCount(fieldId: int, fieldName: string, total: nat, words: seq<string>)

  datatype FieldReport = FieldReport(fieldId: int, fieldName: string, total: nat, words: seq<string>,
                                     percentage: string)

  datatype AnalyzeResponse =
    | DatesRequired                        // 400 {error: "Dates required"}
    | NoCasesInRange                       // 200 {error: "No cases found in the given date range"}
    | Analysis(report: seq<FieldReport>)   // 200, one record per field

  /** `date BETWEEN start AND end` on text values: code-point order, both ends included. */
  predicate InRange(date: string, start: string, end: string)
  {
    LexLe(start, date) && LexLe(date, end)
  }

  /** The `type` of each case of `rows` whose date is in range, in the order of `rows`. */
  function TypesInRange(rows: seq<(int, Case)>, start: string, end: string): (r: seq<string>)
    ensures |r| <= |rows|
    decreases |rows|
  {
    if rows == [] then []
    else
      var init := TypesInRange(rows[..|rows| - 1], start, end);
      var c := rows[|rows| - 1].1;
      if InRange(c.date, start, end) then init + [c.category] else init
  }

  /** A type is selected exactly when some case in range has it; no other column is looked at. */
  lemma {:induction false} TypesInRangeExact(rows: seq<(int, Case)>, start: string, end: string)
    ensures forall t :: t in TypesInRange(rows, start, end) <==>
      exists i :: 0 <= i < |rows| && InRange(rows[i].1.date, start, end) && rows[i].1.category == t
    decreases |rows|
  {
    if rows != [] {
      var init := rows[..|rows| - 1];
      TypesInRangeExact(init, start, end);
      forall t | t in TypesInRange(rows, start, end)
        ensures exists i :: 0 <= i < |rows| && InRange(rows[i].1.date, start, end) && rows[i].1.category == t
      {
        if t in TypesInRange(init, start, end) {
          var i :| 0 <= i < |init| && InRange(init[i].1.date, start, end) && init[i].1.category == t;
          assert rows[i] == init[i];
        } else {
          assert InRange(rows[|rows| - 1].1.date, start, end) && rows[|rows| - 1].1.category == t;
        }
      }
      forall t | exists i :: 0 <= i < |rows| && InRange(rows[i].1.date, start, end) && rows[i].1.category == t
        ensures t in TypesInRange(rows, start, end)
      {
        var i :| 0 <= i < |rows| && InRange(rows[i].1.date, start, end) && rows[i].1.category == t;
        if i < |init| {
          assert init[i] == rows[i];
        }
      }
    }
  }

  /** The types of the selected cases, in id order. */
  function SelectedTypes(cases: map<int, Case>, start: string, end: string): seq<string>
  {
    TypesInRange(OrderedRows(cases), start, end)
  }

  /** No case is selected exactly when no case's date lies in the range. */
  lemma NoneSelected(cases: map<int, Case>, start: string, end: string)
    ensures SelectedTypes(cases, start, end) == [] <==>
      forall id :: id in cases ==> !InRange(cases[id].date, start, end)
  {
    var rows := OrderedRows(cases);
    TypesInRangeExact(rows, start, end);
    var ids := Ascending(cases.Keys);
    if SelectedTypes(cases, start, end) == [] {
      forall id | id in cases
        ensures !InRange(cases[id].date, start, end)
      {
        assert id in ids;
        var i :| 0 <= i < |ids| && ids[i] == id;
        assert rows[i].0 == id && rows[i].1 == cases[id];
        assert cases[id].category !in SelectedTypes(cases, start, end);
      }
    } else {
      var t := SelectedTypes(cases, start, end)[0];
      assert t in SelectedTypes(cases, start, end);
      var i :| 0 <= i < |rows| && InRange(rows[i].1.date, start, end) && rows[i].1.category == t;
      assert rows[i].0 in cases && cases[rows[i].0] == rows[i].1;
    }
  }

  /** The terms of field `f`'s words in ascending `word_no`. */
  function FieldTerms(words: map<int, Word>, f: int): (r: seq<string>)
    requires WordsUnique(words)
    ensures |r| == |FieldWordIds(words, f)|
    ensures forall i :: 0 <= i < |r| ==> r[i] == words[FieldWordIds(words, f)[i]].term
  {
    var ids := FieldWordIds(words, f);
    seq(|ids|, i requires 0 <= i < |ids| => words[ids[i]].term)
  }

  /** One record per field row, in the order of `fieldRows`, before percentages. */
  function Tally(fieldRows: seq<(int, Field)>, words: map<int, Word>, types: seq<string>): (r: seq<FieldCount>)
    requires WordsUnique(words)
    ensures |r| == |fieldRows|
    ensures forall i :: 0 <= i < |r| ==>
      var terms := FieldTerms(words, fieldRows[i].0);
      r[i] == FieldCount(fieldRows[i].0, fieldRows[i].1.name, FieldTotal(terms, types), terms)
  {
    seq(|fieldRows|, i requires 0 <= i < |fieldRows| =>
      var terms := FieldTerms(words, fieldRows[i].0);
      FieldCount(fieldRows[i].0, fieldRows[i].1.name, FieldTotal(terms, types), terms))
  }

  /** `result.reduce((sum, f) => sum + f.total_occurrences, 0)`. */
  function GrandTotal(counts: seq<FieldCount>): nat
    decreases |counts|
  {
    if counts == [] then 0 else GrandTotal(counts[..|counts| - 1]) + counts[|counts| - 1].total
  }

  /** Every field's total is part of the grand total. */
  lemma {:induction false} TotalWithinGrand(counts: seq<FieldCount>, i: nat)
    requires i < |counts|
    ensures counts[i].total <= GrandTotal(counts)
    decreases |counts|
  {
    if i < |counts| - 1 {
      TotalWithinGrand(counts[..|counts| - 1], i);
    }
  }

  function Report(counts: seq<FieldCount>, grand: nat): (r: seq<FieldReport>)
    ensures |r| == |counts|
    ensures forall i :: 0 <= i < |r| ==>
      r[i] == FieldReport(counts[i].fieldId, counts[i].fieldName, counts[i].total, counts[i].words,
                          PercentageText(counts[i].total, grand))
  {
    seq(|counts|, i requires 0 <= i < |counts| =>
      FieldReport(counts[i].fieldId, counts[i].fieldName, counts[i].total, counts[i].words,
                  PercentageText(counts[i].total, grand)))
  }

  /** A missing date or the empty string is falsy. */
  predicate Given(d: Option<string>)
  {
    d.Some? && d.value != []
  }

  /** What the handler answers, for the tables it reads. */
  function AnalyzeSpec(cases: map<int, Case>, fields: map<int, Field>, words: map<int, Word>,
                       startDate: Option<string>, endDate: Option<string>): AnalyzeResponse
    requires WordsUnique(words)
  {
    if !Given(startDate) || !Given(endDate) then DatesRequired
    else
      var types := SelectedTypes(cases, startDate.value, endDate.value);
      if types == [] then NoCasesInRange
      else
        var counts := Tally(OrderedRows(fields), words, types);
        Analysis(Report(counts, GrandTotal(counts)))
  }

  /** `fields.map(...)`: one count per field row, with its words and their total. */
  method TallyFields(fieldRows: seq<(int, Field)>, words: map<int, Word>, types: seq<string>)
    returns (counts: seq<FieldCount>)
    requires WordsUnique(words)
    ensures counts == Tally(fieldRows, words, types)
  {
    counts := [];
    for i := 0 to |fieldRows|
      invariant |counts| == i
      invariant forall k :: 0 <= k < i ==> counts[k] == Tally(fieldRows, words, types)[k]
    {
      var terms := FieldTerms(words, fieldRows[i].0);
      var total := CountField(terms, types);
      counts := counts + [FieldCount(fieldRows[i].0, fieldRows[i].1.name, total, terms)];
    }
  }

  /** `result.reduce(...)`: the grand total. */
  method SumTotals(counts: seq<FieldCount>) returns (grand: nat)
    ensures grand == GrandTotal(counts)
  {
    grand := 0;
    for i := 0 to |counts|
      invariant grand == GrandTotal(counts[..i])
    {
      assert counts[..i + 1][..i] == counts[..i];
      grand := grand + counts[i].total;
    }
    assert counts[..|counts|] == counts;
  }

  /** `result.forEach(f => f.percentage = ...)`: each record gets its percentage text. */
  method SetPercentages(counts: seq<FieldCount>, grand: nat) returns (report: seq<FieldReport>)
    ensures report == Report(counts, grand)
  {
    report := [];
    for i := 0 to |counts|
      invariant |report| == i
      invariant forall k :: 0 <= k < i ==> report[k] == Report(counts, grand)[k]
    {
      var c := counts[i];
      report := report + [FieldReport(c.fieldId, c.fieldName, c.total, c.words, PercentageText(c.total, grand))];
    }
  }

  /**
   * The handler, over the store as it is. The selected types, the fields in
   * id order and each field's words are the three SELECTs.
   */
  method Post(db: Database, startDate: Option<string>, endDate: Option<string>) returns (resp: AnalyzeResponse)
    requires db.Valid()
    ensures resp == AnalyzeSpec(db.cases, db.fields, db.words, startDate, endDate)
  {
    if !Given(startDate) || !Given(endDate) {
      return DatesRequired;
    }
    var types := SelectedTypes(db.cases, startDate.value, endDate.value);
    if types == [] {
      return NoCasesInRange;
    }
    var counts := TallyFields(OrderedRows(db.fields), db.words, types);
    var grand := SumTotals(counts);
    var report := SetPercentages(counts, grand);
    return Analysis(report);
  }

  // ------------------------------------------------------------ properties of the answer

  /** A missing or empty date answers 400 whatever the store holds. */
  lemma DatesChecked(cases: map<int, Case>, fields: map<int, Field>, words: map<int, Word>,
                     startDate: Option<string>, endDate: Option<string>)
    requires WordsUnique(words)
    ensures AnalyzeSpec(cases, fields, words, startDate, endDate) == DatesRequired <==>
      !Given(startDate) || !Given(endDate)
  {
  }

  /**
   * With both dates given, the answer is the "no cases" error exactly when no
   * case's date is in range; otherwise it has one record per field, in
   * ascending id, carrying the field's name, its words' terms in ascending
   * `word_no` and the sum of their matches over the selected types.
   */
  lemma AnalysisShape(cases: map<int, Case>, fields: map<int, Field>, words: map<int, Word>,
                      startDate: string, endDate: string)
    requires WordsUnique(words) && startDate != [] && endDate != []
    ensures var resp := AnalyzeSpec(cases, fields, words, Some(startDate), Some(endDate));
      && (resp == NoCasesInRange <==> forall id :: id in cases ==> !InRange(cases[id].date, startDate, endDate))
      && (resp.Analysis? ==>
        var types := SelectedTypes(cases, startDate, endDate);
        var ids := Ascending(fields.Keys);
        && |resp.report| == |fields|
        && forall i :: 0 <= i < |resp.report| ==>
          && resp.report[i].fieldId == ids[i]
          && resp.report[i].fieldName == fields[ids[i]].name
          && resp.report[i].words == FieldTerms(words, ids[i])
          && resp.report[i].total == FieldTotal(FieldTerms(words, ids[i]), types))
  {
    NoneSelected(cases, startDate, endDate);
  }

  /** When no word matches at all, every percentage is "0.00". */
  lemma AllZero(counts: seq<FieldCount>)
    requires GrandTotal(counts) == 0
    ensures forall r :: r in Report(counts, GrandTotal(counts)) ==> r.percentage == "0.00"
  {
  }

  /** Each field's share is between 0.00 and 100.00. */
  lemma ShareBounds(counts: seq<FieldCount>, i: nat)
    requires i < |counts| && GrandTotal(counts) > 0
    ensures Hundredths(counts[i].total, GrandTotal(counts)) <= 10000
  {
    TotalWithinGrand(counts, i);
    HundredthsBounds(counts[i].total, GrandTotal(counts));
  }

  /** The sum of the shares, in hundredths, when every share is rounded on its own. */
  function ShareSum(counts: seq<FieldCount>, grand: nat): int
    requires grand > 0
    decreases |counts|
  {
    if counts == [] then 0 else ShareSum(counts[..|counts| - 1], grand) + Hundredths(counts[|counts| - 1].total, grand)
  }

  lemma Distribute(g: int, a: int, b: int)
    ensures g * (a + b) == g * a + g * b
  {
  }

  /** Each rounding is off by at most half a hundredth, so n of them by at most n halves. */
  lemma {:induction false} ShareSumError(counts: seq<FieldCount>, grand: nat)
    requires grand > 0
    ensures -((grand * |counts|) as int) <= 2 * (grand * ShareSum(counts, grand) - 10000 * GrandTotal(counts))
    ensures 2 * (grand * ShareSum(counts, grand) - 10000 * GrandTotal(counts)) <= grand * |counts|
    decreases |counts|
  {
    if counts != [] {
      var init := counts[..|counts| - 1];
      var last := counts[|counts| - 1];
      var h := Hundredths(last.total, grand);
      var sInit := ShareSum(init, grand);
      ShareSumError(init, grand);
      HundredthsNearest(last.total, grand);
      assert ShareSum(counts, grand) == sInit + h;
      assert GrandTotal(counts) == GrandTotal(init) + last.total;
      Distribute(grand, sInit, h);
      Distribute(grand, |init|, 1);
    }
  }

  /**
   * The shares are rounded one by one and never renormalised: with n fields
   * they add up to 100.00 give or take n/2 hundredths, not exactly 100.00.
   */
  lemma SharesNearlyWhole(counts: seq<FieldCount>)
    requires GrandTotal(counts) > 0
    ensures -|counts| <= 2 * (ShareSum(counts, GrandTotal(counts)) - 10000) <= |counts|
  {
    var g := GrandTotal(counts);
    var s := ShareSum(counts, g);
    var n := |counts|;
    ShareSumError(counts, g);
    assert -(g * n) <= 2 * (g * s - 10000 * g) <= g * n;
    ScaleShift(g, s);
    ScaledBound(g, n, 2 * (s - 10000));
  }

  lemma ScaleShift(g: int, s: int)
    ensures g * (2 * (s - 10000)) == 2 * (g * s - 10000 * g)
  {
  }

  lemma ScaledBound(g: int, n: int, x: int)
    requires g > 0 && -(g * n) <= g * x <= g * n
    ensures -n <= x <= n
  {
    if x > n {
      MulLeft(g, n + 1, x);
      Distribute(g, n, 1);
    }
    if x < -n {
      MulLeft(g, x, -n - 1);
      Distribute(g, -n, -1);
    }
  }

  /** Three fields with one match each: every share is 33.33 and the shares sum to 99.99. */
  lemma ThirdsExample()
    ensures Hundredths(1, 3) == 3333
    ensures 3 * Hundredths(1, 3) == 9999
  {
  }
}
