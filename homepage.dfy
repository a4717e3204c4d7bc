/**
 * The main page (src/app/page.jsx): the selection of loaded cases, the
 * guards in front of the delete, analyse and save requests, and the
 * normalisation of an uploaded CSV file before it is sent to the upload
 * route.
 */
module HomePage {
  import opened Common
  import opened Schema
  import Analyze
  import Results

  // ---------------------------------------------------------------- selection

  /** `toggleSelect`'s new set: `id`'s membership flips. */
  function Toggled(s: set<int>, id: int): (r: set<int>)
    ensures id in r <==> id !in s
    ensures forall x :: x != id ==> (x in r <==> x in s)
  {
    if id in s then s - {id} else s + {id}
  }

  /** Toggling the same id twice restores the selection. */
  lemma ToggleTwice(s: set<int>, id: int)
    ensures Toggled(Toggled(s, id), id) == s
  {
    var t := Toggled(Toggled(s, id), id);
    forall x ensures x in t <==> x in s {
    }
  }

  /** The ids of a loaded page of cases. */
  function PageIds(cases: seq<(int, Case)>): (r: set<int>)
    ensures forall id :: id in r <==> exists i :: 0 <= i < |cases| && cases[i].0 == id
  {
    set i | 0 <= i < |cases| :: cases[i].0
  }

  /** The request the analysis button sends. */
  datatype AnalyzeRequest = AnalyzeRequest(startDate: string, endDate: string, cases: seq<(int, Case)>)

  /** The request the save button sends. */
  datatype SaveRequest = SaveRequest(name: string, startDate: string, endDate: string, analysis: Results.AnalysisBody)

  /** The loaded cases whose date lies in [start, end], compared as strings, in page order. */
  function InWindow(cases: seq<(int, Case)>, start: string, end: string): (r: seq<(int, Case)>)
    ensures forall c :: c in r <==> c in cases && Analyze.InRange(c.1.date, start, end)
  {
    Keep((c: (int, Case)) => Analyze.InRange(c.1.date, start, end), cases)
  }

  /** The page's state that the modelled handlers read or write. */
  class MainPage {
    var cases: seq<(int, Case)>
    var selectedIds: set<int>
    var startDate: string
    var endDate: string
    var analysisResult: Results.AnalysisBody
    var resultName: string

    /** The page as first rendered: nothing loaded, nothing selected, an empty analysis. */
    constructor ()
      ensures cases == [] && selectedIds == {} && startDate == "" && endDate == ""
      ensures analysisResult == Results.Items([]) && resultName == ""
    {
      cases := [];
      selectedIds := {};
      startDate := "";
      endDate := "";
      analysisResult := Results.Items([]);
      resultName := "";
    }

    /** `toggleSelect`: a copy of the set with `id` added or removed. */
    method ToggleSelect(id: int)
      modifies this`selectedIds
      ensures selectedIds == Toggled(old(selectedIds), id)
    {
      var newSet := selectedIds;
      if id in newSet {
        newSet := newSet - {id};
      } else {
        newSet := newSet + {id};
      }
      selectedIds := newSet;
    }

    /** `toggleSelectAll`: every id of the loaded page, or none. */
    method ToggleSelectAll(checked: bool)
      modifies this`selectedIds
      ensures checked ==> selectedIds == PageIds(cases)
      ensures !checked ==> selectedIds == {}
    {
      if checked {
        selectedIds := set i | 0 <= i < |cases| :: cases[i].0;
      } else {
        selectedIds := {};
      }
    }

    /**
     * `deleteSelectedCases` up to the request: with nothing selected, or
     * when the user declines the confirmation, no request is sent; otherwise
     * the request carries exactly the selected ids.
     */
    method DeleteSelected(confirmed: bool) returns (ids: Option<set<int>>)
      ensures ids.Some? <==> |selectedIds| != 0 && confirmed
      ensures ids.Some? ==> ids.value == selectedIds && ids.value != {}
    {
      if |selectedIds| == 0 {
        return None;
      }
      if !confirmed {
        return None;
      }
      ids := Some(selectedIds);
    }

    /**
     * `handleStartAnalysis` up to the request: both dates set, the start not
     * after the end, and at least one loaded case in the window; the request
     * carries the cases in the window, in page order.
     */
    method StartAnalysis() returns (req: Option<AnalyzeRequest>)
      ensures req.Some? <==>
        startDate != "" && endDate != "" && LexLe(startDate, endDate)
        && exists i :: 0 <= i < |cases| && Analyze.InRange(cases[i].1.date, startDate, endDate)
      ensures req.Some? ==> req.value == AnalyzeRequest(startDate, endDate, InWindow(cases, startDate, endDate))
    {
      if startDate == "" || endDate == "" {
        return None;
      }
      if LexLt(endDate, startDate) {
        if LexLe(startDate, endDate) {
          LexLeAntisymmetric(startDate, endDate);
        }
        return None;
      }
      LexLeTotal(startDate, endDate);
      LexLeReflexive(startDate);
      var filtered := InWindow(cases, startDate, endDate);
      if |filtered| == 0 {
        return None;
      }
      var c := filtered[0];
      assert c in filtered;
      var k :| 0 <= k < |cases| && cases[k] == c;
      req := Some(AnalyzeRequest(startDate, endDate, filtered));
    }

    /**
     * `handleSaveResult` up to the request: a result name and an analysis
     * are needed. An analysis that is missing or an empty list stops it; a
     * value that is not a list gets through.
     */
    method SaveResult() returns (req: Option<SaveRequest>)
      ensures req.Some? <==>
        resultName != "" && !analysisResult.NoAnalysis? && analysisResult != Results.Items([])
      ensures req.Some? ==> req.value == SaveRequest(resultName, startDate, endDate, analysisResult)
    {
      if resultName == "" {
        return None;
      }
      if analysisResult.NoAnalysis? || (analysisResult.Items? && |analysisResult.items| == 0) {
        return None;
      }
      req := Some(SaveRequest(resultName, startDate, endDate, analysisResult));
    }
  }

  // ---------------------------------------------------------------- CSV headers

  /** The characters JavaScript's `trim` removes: white space and line terminators. */
  predicate IsSpace(c: char)
  {
    c == '\t' || c == '\n' || c == '\U{000B}' || c == '\U{000C}' || c == '\r' || c == ' '
    || c == '\U{00A0}' || c == '\U{1680}' || ('\U{2000}' <= c <= '\U{200A}')
    || c == '\U{2028}' || c == '\U{2029}' || c == '\U{202F}' || c == '\U{205F}'
    || c == '\U{3000}' || c == '\U{FEFF}'
  }

  predicate AllSpace(s: string)
  {
    forall i :: 0 <= i < |s| ==> IsSpace(s[i])
  }

  /** The length of the white space at the start of `s`. */
  function LeadingSpace(s: string): (n: nat)
    ensures n <= |s| && AllSpace(s[..n])
    ensures n < |s| ==> !IsSpace(s[n])
    decreases |s|
  {
    if s == [] || !IsSpace(s[0]) then 0
    else
      var k := LeadingSpace(s[1..]);
      assert s[..k + 1] == [s[0]] + s[1..][..k];
      k + 1
  }

  /** The length of the white space at the end of `s`. */
  function TrailingSpace(s: string): (n: nat)
    ensures n <= |s| && AllSpace(s[|s| - n..])
    ensures n < |s| ==> !IsSpace(s[|s| - n - 1])
    decreases |s|
  {
    if s == [] || !IsSpace(s[|s| - 1]) then 0
    else
      var p := s[..|s| - 1];
      var k := TrailingSpace(p);
      assert s[|s| - (k + 1)..] == p[|p| - k..] + [s[|s| - 1]];
      k + 1
  }

  /** `s.trim()`: `s` without its leading and trailing white space. */
  function Trim(s: string): (r: string)
    ensures |r| <= |s|
    ensures r != [] ==> !IsSpace(r[0]) && !IsSpace(r[|r| - 1])
    ensures r == [] <==> AllSpace(s)
  {
    TrimEnds(s);
    TrimEmpty(s);
    Inner(s)
  }

  /** What is left between the leading and the trailing white space. */
  function Inner(s: string): string
  {
    var t := s[LeadingSpace(s)..];
    t[..|t| - TrailingSpace(t)]
  }

  lemma TrimEnds(s: string)
    ensures var r := Inner(s); r != [] ==> !IsSpace(r[0]) && !IsSpace(r[|r| - 1])
  {
    var t := s[LeadingSpace(s)..];
    var r := Inner(s);
    if r != [] {
      assert r[0] == s[LeadingSpace(s)];
      assert r[|r| - 1] == t[|t| - TrailingSpace(t) - 1];
    }
  }

  lemma TrimEmpty(s: string)
    ensures Inner(s) == [] <==> AllSpace(s)
  {
    var t := s[LeadingSpace(s)..];
    if Inner(s) == [] {
      assert s == s[..LeadingSpace(s)] + t;
      assert t == t[|t| - TrailingSpace(t)..];
    } else {
      assert !IsSpace(s[LeadingSpace(s)]);
    }
  }

  lemma {:induction false} LeadingSpaceOf(pre: string, rest: string)
    requires AllSpace(pre) && (rest == [] || !IsSpace(rest[0]))
    ensures LeadingSpace(pre + rest) == |pre|
    decreases |pre|
  {
    if pre != [] {
      assert (pre + rest)[1..] == pre[1..] + rest;
      LeadingSpaceOf(pre[1..], rest);
    } else {
      assert pre + rest == rest;
    }
  }

  lemma {:induction false} TrailingSpaceOf(rest: string, post: string)
    requires AllSpace(post) && (rest == [] || !IsSpace(rest[|rest| - 1]))
    ensures TrailingSpace(rest + post) == |post|
    decreases |post|
  {
    if post != [] {
      var s := rest + post;
      assert s[..|s| - 1] == rest + post[..|post| - 1];
      TrailingSpaceOf(rest, post[..|post| - 1]);
    } else {
      assert rest + post == rest;
    }
  }

  /** Trimming removes exactly the white space around a word. */
  lemma TrimAround(pre: string, name: string, post: string)
    requires Word(name)
    requires AllSpace(pre) && AllSpace(post)
    ensures Trim(pre + name + post) == name
  {
    var s := pre + name + post;
    assert s == pre + (name + post);
    LeadingSpaceOf(pre, name + post);
    assert s[|pre|..] == name + post;
    TrailingSpaceOf(name, post);
    assert (name + post)[..|name|] == name;
  }

  predicate IsOpenBracket(c: char) { c == '[' || c == '\U{FF3B}' }
  predicate IsCloseBracket(c: char) { c == ']' || c == '\U{FF3D}' }

  /**
   * `transformHeader`: one leading `[` or `［` is dropped, then one trailing
   * `]` or `］`, then the white space around the rest.
   */
  function TransformHeader(h: string): (r: string)
    ensures |r| <= |h|
    ensures r != [] ==> !IsSpace(r[0]) && !IsSpace(r[|r| - 1])
  {
    Trim(DropClose(DropOpen(h)))
  }

  /** `h` without one leading `[` or `［`. */
  function DropOpen(h: string): (r: string)
    ensures |r| <= |h|
  {
    if h != [] && IsOpenBracket(h[0]) then h[1..] else h
  }

  /** `h` without one trailing `]` or `］`. */
  function DropClose(h: string): (r: string)
    ensures |r| <= |h|
  {
    if h != [] && IsCloseBracket(h[|h| - 1]) then h[..|h| - 1] else h
  }

  /** A non-empty text that neither starts nor ends with white space. */
  predicate Word(name: string)
  {
    name != [] && !IsSpace(name[0]) && !IsSpace(name[|name| - 1])
  }

  /** A header with a bracket at each end is trimmed between them. */
  lemma TransformBracketed(h: string)
    requires |h| >= 2 && IsOpenBracket(h[0]) && IsCloseBracket(h[|h| - 1])
    ensures TransformHeader(h) == Trim(h[1..|h| - 1])
  {
    var t := DropOpen(h);
    assert t == h[1..];
    assert t[|t| - 1] == h[|h| - 1];
    assert DropClose(t) == h[1..|h| - 1];
  }

  /** `[` and `]` around a header go, with the white space inside them. */
  lemma HeaderInBrackets(name: string, inner: string)
    requires Word(name) && AllSpace(inner)
    ensures TransformHeader("[" + inner + name + inner + "]") == name
  {
    var h := "[" + inner + name + inner + "]";
    assert h[1..|h| - 1] == inner + name + inner;
    TransformBracketed(h);
    TrimAround(inner, name, inner);
  }

  /** So do the full-width `［` and `］`. */
  lemma HeaderInWideBrackets(name: string)
    requires Word(name)
    ensures TransformHeader("\U{FF3B}" + name + "\U{FF3D}") == name
  {
    var g := "\U{FF3B}" + name + "\U{FF3D}";
    assert g[1..|g| - 1] == [] + name + [];
    TransformBracketed(g);
    TrimAround([], name, []);
  }

  /** A header without brackets only loses its trailing white space. */
  lemma HeaderWithSpace(name: string, outer: string)
    requires Word(name) && AllSpace(outer) && outer != [] && !IsOpenBracket(name[0])
    ensures TransformHeader(name + outer) == name
  {
    var h := name + outer;
    assert h[0] == name[0];
    assert DropOpen(h) == h;
    assert IsSpace(h[|h| - 1]) by { assert h[|h| - 1] == outer[|outer| - 1]; }
    assert DropClose(h) == h;
    TrimAround([], name, outer);
    assert [] + name + outer == h;
  }

  /** Only one bracket goes at each end. */
  lemma HeaderInDoubleBrackets(name: string)
    requires Word(name)
    ensures TransformHeader("[[" + name + "]]") == "[" + name + "]"
  {
    var k := "[[" + name + "]]";
    var w := "[" + name + "]";
    assert k[1..|k| - 1] == [] + w + [];
    assert Word(w) by { assert w[0] == '[' && w[|w| - 1] == ']'; }
    TransformBracketed(k);
    TrimAround([], w, []);
  }

  // ---------------------------------------------------------------- CSV rows

  /** A parsed CSV row: the (transformed) header of each column present, and its text. */
  type CsvRow = map<string, string>

  /** The case fields the upload route receives. */
  datatype MappedCase = MappedCase(name: string, description: string, date: string, category: string)

  /** `row[k] || ""`: the text under header k, or "" when the column is missing. */
  function Column(row: CsvRow, k: string): string
  {
    if k in row then row[k] else ""
  }

  const NameHeader: string := "\U{4EF6}\U{540D}"                          // 件名
  const DescriptionHeader: string := "\U{76F8}\U{8AC7}\U{6982}\U{8981}"   // 相談概要
  const DateHeader: string := "\U{53D7}\U{4ED8}\U{5E74}\U{6708}\U{65E5}"  // 受付年月日
  const CategoryHeader: string := "\U{8CA9}\U{58F2}\U{8CFC}\U{5165}\U{5F62}\U{614B}"  // 販売購入形態

  /** The four columns of a row that the upload uses, each "" when the column is absent. */
  function MapRow(row: CsvRow): (m: MappedCase)
    ensures m.name == (if NameHeader in row then row[NameHeader] else "")
    ensures m.description == (if DescriptionHeader in row then row[DescriptionHeader] else "")
    ensures m.date == (if DateHeader in row then row[DateHeader] else "")
    ensures m.category == (if CategoryHeader in row then row[CategoryHeader] else "")
  {
    MappedCase(Column(row, NameHeader), Column(row, DescriptionHeader),
               Column(row, DateHeader), Column(row, CategoryHeader))
  }

  /** A mapped row is kept iff one of its four values is not empty. */
  predicate NotBlank(m: MappedCase)
  {
    m.name != "" || m.description != "" || m.date != "" || m.category != ""
  }

  function MapRows(rows: seq<CsvRow>): (r: seq<MappedCase>)
    ensures |r| == |rows| && forall i :: 0 <= i < |rows| ==> r[i] == MapRow(rows[i])
  {
    seq(|rows|, i requires 0 <= i < |rows| => MapRow(rows[i]))
  }

  /** The cases sent to the upload route. */
  function UploadCases(rows: seq<CsvRow>): (r: seq<MappedCase>)
    ensures forall m :: m in r ==> NotBlank(m)
    ensures forall m :: m in r ==> exists i :: 0 <= i < |rows| && m == MapRow(rows[i])
    ensures forall i :: 0 <= i < |rows| && NotBlank(MapRow(rows[i])) ==> MapRow(rows[i]) in r
  {
    var mapped := MapRows(rows);
    var r := Keep(NotBlank, mapped);
    assert forall i :: 0 <= i < |rows| ==> mapped[i] in mapped;
    r
  }

  /** Uploading two batches of rows sends the cases of each, in order. */
  lemma UploadCasesAppend(a: seq<CsvRow>, b: seq<CsvRow>)
    ensures UploadCases(a + b) == UploadCases(a) + UploadCases(b)
  {
    assert MapRows(a + b) == MapRows(a) + MapRows(b);
    KeepAppend(NotBlank, MapRows(a), MapRows(b));
  }

  /**
   * One row sends its mapped case when a column is non-empty and nothing
   * otherwise; with `UploadCasesAppend` this fixes the whole list: the
   * non-blank mapped rows, in row order.
   */
  lemma UploadCasesOne(row: CsvRow)
    ensures UploadCases([row]) == if NotBlank(MapRow(row)) then [MapRow(row)] else []
  {
    assert MapRows([row]) == [MapRow(row)];
    assert MapRows([row])[..0] == [];
  }
}
