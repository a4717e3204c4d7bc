/**
 * `normalizeDate` of src/app/api/cases/upload/route.js: the date cell of an
 * uploaded row becomes a `YYYY-MM-DD` string, or null when it is not
 * recognised. The spreadsheet-serial branch is a parameter of the model.
 */
module DateNormalizer {
  import opened Common

  /** `/^\d{4}-\d{2}-\d{2}$/` (`\d` is ASCII 0-9 in a JavaScript regex without the u flag). */
  predicate IsIsoDate(s: string)
  {
    |s| == 10 && AllDigits(s[..4]) && s[4] == '-' && AllDigits(s[5..7]) && s[7] == '-' && AllDigits(s[8..])
  }

  /** One group `(\d{1,2})` followed by `mark`: the group and what follows the mark. */
  function DigitsThen(s: string, mark: char): (r: Option<(string, string)>)
    requires !IsDigit(mark)
    ensures r.Some? ==> 1 <= |r.value.0| <= 2 && AllDigits(r.value.0) && s == r.value.0 + [mark] + r.value.1
  {
    if |s| >= 2 && IsDigit(s[0]) && s[1] == mark then
      assert s == s[..1] + [mark] + s[2..];
      Some((s[..1], s[2..]))
    else if |s| >= 3 && IsDigit(s[0]) && IsDigit(s[1]) && s[2] == mark then
      assert s == s[..2] + [mark] + s[3..];
      Some((s[..2], s[3..]))
    else None
  }

  /** `/^(\d{4})年(\d{1,2})月(\d{1,2})日$/`: the year, month and day groups. */
  function MatchKanjiDate(s: string): (r: Option<(string, string, string)>)
    ensures r.Some? ==>
      |r.value.0| == 4 && AllDigits(r.value.0) && 1 <= |r.value.1| <= 2 && AllDigits(r.value.1)
      && 1 <= |r.value.2| <= 2 && AllDigits(r.value.2)
  {
    if |s| < 5 || !AllDigits(s[..4]) || s[4] != '年' then None
    else
      match DigitsThen(s[5..], '月')
      case None => None
      case Some(md) =>
        match DigitsThen(md.1, '日')
        case None => None
        case Some(dr) => if dr.1 == [] then Some((s[..4], md.0, dr.0)) else None
  }

  /** `g.padStart(2, "0")` for a group of one or two digits. */
  function PadStart2(g: string): (r: string)
    requires 1 <= |g| <= 2
    ensures |r| == 2 && r[2 - |g|..] == g && (|g| == 1 ==> r[0] == '0')
  {
    if |g| == 1 then "0" + g else g
  }

  /**
   * `normalizeDate(dateStr)`. `excelSerial` stands for `excelDateToJSDate`,
   * whose result depends on the host's time zone.
   */
  function NormalizeDate(v: Cell, excelSerial: int -> string): Option<string>
  {
    if !Truthy(v) then None
    else match v
      case Number(n) => Some(excelSerial(n))
      case Text(s) => NormalizeText(s)
  }

  /** The string branches of `normalizeDate`. */
  function NormalizeText(s: string): Option<string>
  {
    if IsIsoDate(s) then Some(s)
    else match MatchKanjiDate(s)
      case Some(g) => Some(g.0 + "-" + PadStart2(g.1) + "-" + PadStart2(g.2))
      case None => None
  }

  /** A string the localized pattern accepts, built from its three groups. */
  ghost predicate KanjiShaped(s: string)
  {
    exists y: string, m: string, d: string ::
      |y| == 4 && AllDigits(y) && 1 <= |m| <= 2 && AllDigits(m) && 1 <= |d| <= 2 && AllDigits(d)
      && s == y + "年" + m + "月" + d + "日"
  }

  lemma DigitsThenOn(g: string, mark: char, rest: string)
    requires 1 <= |g| <= 2 && AllDigits(g) && !IsDigit(mark)
    ensures DigitsThen(g + [mark] + rest, mark) == Some((g, rest))
  {
    var s := g + [mark] + rest;
    if |g| == 1 {
      assert s[1] == mark && s[..1] == g && s[2..] == rest;
    } else {
      assert s[2] == mark && s[..2] == g && s[3..] == rest;
    }
  }

  lemma KanjiMatchesGroups(y: string, m: string, d: string)
    requires |y| == 4 && AllDigits(y) && 1 <= |m| <= 2 && AllDigits(m) && 1 <= |d| <= 2 && AllDigits(d)
    ensures MatchKanjiDate(y + "年" + m + "月" + d + "日") == Some((y, m, d))
  {
    var s := y + "年" + m + "月" + d + "日";
    assert s[..4] == y;
    assert s[4] == '年';
    assert s[5..] == m + ['月'] + (d + "日");
    DigitsThenOn(m, '月', d + "日");
    assert d + "日" == d + ['日'] + [];
    DigitsThenOn(d, '日', []);
  }

  /** A string passes the localized pattern exactly when it is built from the three digit groups. */
  lemma KanjiMatchExact(s: string)
    ensures MatchKanjiDate(s).Some? <==> KanjiShaped(s)
  {
    if MatchKanjiDate(s).Some? {
      var g := MatchKanjiDate(s).value;
      var md := DigitsThen(s[5..], '月').value;
      var dr := DigitsThen(md.1, '日').value;
      assert s == s[..4] + "年" + s[5..];
      assert s == g.0 + "年" + g.1 + "月" + g.2 + "日";
    }
    if KanjiShaped(s) {
      var y: string, m: string, d: string :|
        |y| == 4 && AllDigits(y) && 1 <= |m| <= 2 && AllDigits(m) && 1 <= |d| <= 2 && AllDigits(d)
        && s == y + "年" + m + "月" + d + "日";
      KanjiMatchesGroups(y, m, d);
    }
  }

  /** `YYYY-MM-DD` input is returned unchanged, without any calendar check. */
  lemma IsoPassesThrough(s: string, excelSerial: int -> string)
    requires IsIsoDate(s)
    ensures NormalizeDate(Text(s), excelSerial) == Some(s)
  {
  }

  /** `y年m月d日` becomes `y-mm-dd` with month and day zero-padded. */
  lemma KanjiRewritten(y: string, m: string, d: string, excelSerial: int -> string)
    requires |y| == 4 && AllDigits(y) && 1 <= |m| <= 2 && AllDigits(m) && 1 <= |d| <= 2 && AllDigits(d)
    ensures NormalizeDate(Text(y + "年" + m + "月" + d + "日"), excelSerial)
         == Some(y + "-" + PadStart2(m) + "-" + PadStart2(d))
  {
    var s := y + "年" + m + "月" + d + "日";
    NotIsoAt4(s);
    KanjiMatchesGroups(y, m, d);
    KanjiText(s, y, m, d);
    TextBranch(s, excelSerial);
  }

  lemma TextBranch(s: string, excelSerial: int -> string)
    requires s != []
    ensures NormalizeDate(Text(s), excelSerial) == NormalizeText(s)
  {
  }

  lemma NotIsoAt4(s: string)
    requires |s| > 4 && s[4] != '-'
    ensures !IsIsoDate(s)
  {
  }

  lemma KanjiText(s: string, y: string, m: string, d: string)
    requires !IsIsoDate(s) && MatchKanjiDate(s) == Some((y, m, d))
    requires 1 <= |m| <= 2 && 1 <= |d| <= 2
    ensures NormalizeText(s) == Some(y + "-" + PadStart2(m) + "-" + PadStart2(d))
  {
  }

  lemma IsoOfParts(y: string, mm: string, dd: string)
    requires |y| == 4 && AllDigits(y) && |mm| == 2 && AllDigits(mm) && |dd| == 2 && AllDigits(dd)
    ensures IsIsoDate(y + "-" + mm + "-" + dd)
  {
    var r := y + "-" + mm + "-" + dd;
    assert r[..4] == y && r[5..7] == mm && r[8..] == dd;
  }

  lemma PadIsDigits(g: string)
    requires 1 <= |g| <= 2 && AllDigits(g)
    ensures AllDigits(PadStart2(g))
  {
    if |g| == 1 {
      assert PadStart2(g) == ['0', g[0]];
    }
  }

  /** A string is recognised exactly when it has one of the two shapes. */
  lemma TextRecognised(s: string)
    ensures NormalizeText(s).Some? <==> IsIsoDate(s) || KanjiShaped(s)
  {
    KanjiMatchExact(s);
  }

  /** Whatever a string becomes is in the `YYYY-MM-DD` shape, so normalizing it again changes nothing. */
  lemma TextCanonical(s: string)
    requires NormalizeText(s).Some?
    ensures IsIsoDate(NormalizeText(s).value)
    ensures NormalizeText(NormalizeText(s).value) == NormalizeText(s)
  {
    if !IsIsoDate(s) {
      var g := MatchKanjiDate(s).value;
      KanjiText(s, g.0, g.1, g.2);
      PadIsDigits(g.1);
      PadIsDigits(g.2);
      IsoOfParts(g.0, PadStart2(g.1), PadStart2(g.2));
      var r := g.0 + "-" + PadStart2(g.1) + "-" + PadStart2(g.2);
      assert NormalizeText(s) == Some(r);
      assert NormalizeText(r) == Some(r);
    }
  }

  /** For strings, `normalizeDate` is its string branches: the empty string is neither shape. */
  lemma TextBranchAll(s: string, excelSerial: int -> string)
    ensures NormalizeDate(Text(s), excelSerial) == NormalizeText(s)
  {
    if s == [] {
      assert !IsIsoDate(s);
    } else {
      TextBranch(s, excelSerial);
    }
  }

  /** Falsy input (empty string, 0, null, undefined) yields null. */
  lemma FalsyYieldsNull(v: Cell, excelSerial: int -> string)
    requires !Truthy(v)
    ensures NormalizeDate(v, excelSerial) == None
  {
  }

  /** A non-zero number always takes the serial branch, before any pattern test. */
  lemma NumberTakesSerialBranch(n: int, excelSerial: int -> string)
    requires n != 0
    ensures NormalizeDate(Number(n), excelSerial) == Some(excelSerial(n))
  {
  }
}
