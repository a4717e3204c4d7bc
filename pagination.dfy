/**
 * The pagination bar (src/app/components/Pagination.jsx): the list of page
 * buttons with "..." between the gaps, the jump box and the four
 * navigation buttons.
 */
module Pagination {
  import opened Common

  /** One item of the bar: a page button or an ellipsis. */
  datatype Entry = Num(n: int) | Ellipsis

  /** Pages shown on each side of the current one. */
  const Delta := 1

  /** Page `i` gets a button: the first, the last, and those within Delta of `page`. */
  predicate Shown(i: int, page: int, total: int)
  {
    i == 1 || i == total || (page - Delta <= i && i <= page + Delta)
  }

  /** The shown pages among 1..n, in ascending order. */
  function ShownUpTo(page: int, total: int, n: int): seq<int>
    decreases n
  {
    if n < 1 then []
    else ShownUpTo(page, total, n - 1) + (if Shown(n, page, total) then [n] else [])
  }

  /** The `range` the first loop builds. */
  function Range(page: int, total: int): seq<int>
  {
    ShownUpTo(page, total, total)
  }

  /** The bar for the first k pages of `range`: an ellipsis before each page that skips some. */
  function WithGaps(range: seq<int>, k: nat): seq<Entry>
    requires k <= |range|
  {
    if k == 0 then []
    else
      WithGaps(range, k - 1)
      + (if k > 1 && range[k - 1] - range[k - 2] > 1 then [Ellipsis] else [])
      + [Num(range[k - 1])]
  }

  /** What `createPageNumbers` returns. */
  function PageNumbers(page: int, total: int): seq<Entry>
  {
    var r := Range(page, total);
    WithGaps(r, |r|)
  }

  predicate StrictlyIncreasing(s: seq<int>)
  {
    forall i, j :: 0 <= i < j < |s| ==> s[i] < s[j]
  }

  /** The page numbers of a bar, ellipses dropped. */
  function Numbers(es: seq<Entry>): (r: seq<int>)
    ensures |r| <= |es|
  {
    if es == [] then []
    else Numbers(es[..|es| - 1]) + (if es[|es| - 1].Num? then [es[|es| - 1].n] else [])
  }

  // ---------------------------------------------------------------- the method

  /** `createPageNumbers`: two loops, the second keeping the previous page in `last`. */
  method CreatePageNumbers(page: int, totalPages: int) returns (pages: seq<Entry>)
    ensures pages == PageNumbers(page, totalPages)
  {
    var range: seq<int> := [];
    var i := 1;
    while i <= totalPages
      invariant i == 1 || 1 < i <= totalPages + 1
      invariant range == ShownUpTo(page, totalPages, i - 1)
    {
      if i == 1 || i == totalPages || (i >= page - Delta && i <= page + Delta) {
        range := range + [i];
      }
      i := i + 1;
    }
    assert range == Range(page, totalPages);
    ShownUpToExact(page, totalPages, totalPages);
    assert forall j :: 0 <= j < |range| ==> range[j] in range;

    pages := [];
    var last := 0;
    for k := 0 to |range|
      invariant pages == WithGaps(range, k)
      invariant last == if k == 0 then 0 else range[k - 1]
    {
      var x := range[k];
      if last != 0 && x - last > 1 {
        pages := pages + [Ellipsis];
      }
      pages := pages + [Num(x)];
      last := x;
    }
  }

  // ---------------------------------------------------------------- the range

  /** Exactly the shown pages of 1..n, ascending. */
  lemma {:induction false} ShownUpToExact(page: int, total: int, n: int)
    ensures StrictlyIncreasing(ShownUpTo(page, total, n))
    ensures forall i :: i in ShownUpTo(page, total, n) <==> 1 <= i <= n && Shown(i, page, total)
    decreases n
  {
    if n >= 1 {
      ShownUpToExact(page, total, n - 1);
      var pre := ShownUpTo(page, total, n - 1);
      var s := ShownUpTo(page, total, n);
      forall i | 0 <= i < |pre|
        ensures pre[i] < n
      {
        assert pre[i] in pre;
      }
      assert forall i :: 0 <= i < |pre| ==> s[i] == pre[i];
    }
  }

  /**
   * The range holds exactly the pages in [1, total] that are the first, the
   * last or within Delta of `page`, in strictly increasing order.
   */
  lemma RangeExact(page: int, total: int)
    ensures StrictlyIncreasing(Range(page, total))
    ensures forall i :: i in Range(page, total) <==>
      1 <= i <= total && (i == 1 || i == total || (page - 1 <= i <= page + 1))
  {
    ShownUpToExact(page, total, total);
  }

  /** 1 and the last page are always there, and so is `page` when it is a page; no pages, no range. */
  lemma RangeEnds(page: int, total: int)
    ensures total >= 1 ==> 1 in Range(page, total) && total in Range(page, total)
    ensures 1 <= page <= total ==> page in Range(page, total)
    ensures total < 1 ==> Range(page, total) == []
  {
    RangeExact(page, total);
  }

  lemma {:induction false} IncreasingSpread(s: seq<int>, i: int, j: int)
    requires StrictlyIncreasing(s) && 0 <= i <= j < |s|
    ensures s[j] - s[i] >= j - i
    decreases j - i
  {
    if i < j {
      IncreasingSpread(s, i, j - 1);
      assert s[j - 1] < s[j];
    }
  }

  /** The first element of the range is 1 and the last is `total`. */
  lemma RangeFirstLast(page: int, total: int)
    requires total >= 1
    ensures var r := Range(page, total); |r| >= 1 && r[0] == 1 && r[|r| - 1] == total
  {
    var r := Range(page, total);
    RangeExact(page, total);
    RangeEnds(page, total);
    var a :| 0 <= a < |r| && r[a] == 1;
    var b :| 0 <= b < |r| && r[b] == total;
    assert r[0] in r && r[|r| - 1] in r;
    assert r[0] <= r[a];
    assert r[b] <= r[|r| - 1];
  }

  /** Between the first and the last, the range has no gap. */
  lemma InteriorContiguous(page: int, total: int, m: int)
    requires total >= 1
    requires 2 <= m <= |Range(page, total)| - 2
    ensures Range(page, total)[m] == Range(page, total)[m - 1] + 1
  {
    var r := Range(page, total);
    RangeExact(page, total);
    RangeFirstLast(page, total);
    assert r[0] < r[m - 1] < r[m] < r[|r| - 1];
    assert r[m - 1] in r && r[m] in r;
    var x := r[m - 1] + 1;
    assert page - 1 <= r[m - 1] && r[m] <= page + 1;
    assert x in r;
    var p :| 0 <= p < |r| && r[p] == x;
    assert p >= m;
    assert r[m] <= r[p];
  }

  /** At most five page buttons: the first, the last and three around `page`. */
  lemma AtMostFive(page: int, total: int)
    ensures |Range(page, total)| <= 5
  {
    var r := Range(page, total);
    RangeExact(page, total);
    if |r| > 5 {
      RangeFirstLast(page, total);
      assert r[1] in r && r[|r| - 2] in r;
      assert 1 < r[1] && r[|r| - 2] < total;
      IncreasingSpread(r, 1, |r| - 2);
      assert false;
    }
  }

  // ---------------------------------------------------------------- the bar

  lemma {:induction false} WithGapsNumbers(range: seq<int>, k: nat)
    requires k <= |range|
    ensures Numbers(WithGaps(range, k)) == range[..k]
  {
    if k > 0 {
      WithGapsNumbers(range, k - 1);
      var g := if k > 1 && range[k - 1] - range[k - 2] > 1 then [Ellipsis] else [];
      var pre := WithGaps(range, k - 1) + g;
      assert WithGaps(range, k) == pre + [Num(range[k - 1])];
      assert (pre + [Num(range[k - 1])])[..|pre|] == pre;
      if g != [] {
        assert pre[..|pre| - 1] == WithGaps(range, k - 1);
        assert Numbers(pre) == Numbers(WithGaps(range, k - 1));
      } else {
        assert pre == WithGaps(range, k - 1);
      }
      assert range[..k] == range[..k - 1] + [range[k - 1]];
    }
  }

  /** The page buttons are the range itself, in order. */
  lemma PageNumbersOrder(page: int, total: int)
    ensures Numbers(PageNumbers(page, total)) == Range(page, total)
    ensures StrictlyIncreasing(Numbers(PageNumbers(page, total)))
  {
    var r := Range(page, total);
    WithGapsNumbers(r, |r|);
    assert r[..|r|] == r;
    RangeExact(page, total);
  }

  /** The bar is not empty iff `range` is not, begins and ends with a page button, and never holds two ellipses in a row. */
  lemma {:induction false} WithGapsShape(range: seq<int>, k: nat)
    requires k <= |range|
    ensures var es := WithGaps(range, k);
      && (es == [] <==> k == 0)
      && (k > 0 ==> es[0] == Num(range[0]) && es[|es| - 1] == Num(range[k - 1]))
      && (forall j :: 0 <= j < |es| - 1 ==> !(es[j].Ellipsis? && es[j + 1].Ellipsis?))
  {
    if k > 0 {
      WithGapsShape(range, k - 1);
    }
  }

  /**
   * An ellipsis stands exactly where two neighbouring page buttons differ by
   * more than one: every ellipsis sits between two such buttons, and two
   * adjacent buttons are consecutive pages.
   */
  lemma {:induction false} WithGapsEllipses(range: seq<int>, k: nat)
    requires k <= |range|
    ensures var es := WithGaps(range, k);
      && (forall j :: 0 <= j < |es| && es[j].Ellipsis? ==>
            0 < j < |es| - 1 && es[j - 1].Num? && es[j + 1].Num? && es[j + 1].n - es[j - 1].n > 1)
      && (forall j :: 0 <= j < |es| - 1 && es[j].Num? && es[j + 1].Num? ==> es[j + 1].n - es[j].n <= 1)
  {
    if k > 0 {
      WithGapsEllipses(range, k - 1);
      WithGapsShape(range, k - 1);
    }
  }

  /** In the range, only the first and the last step may skip pages. */
  lemma RangeGapFree(page: int, total: int)
    ensures var r := Range(page, total);
      forall m :: 2 <= m <= |r| - 2 ==> r[m] - r[m - 1] <= 1
  {
    var r := Range(page, total);
    if total >= 1 {
      forall m | 2 <= m <= |r| - 2
        ensures r[m] - r[m - 1] <= 1
      {
        InteriorContiguous(page, total, m);
      }
    } else {
      RangeEnds(page, total);
    }
  }

  /** Each page that skips some costs one entry more than its button. */
  lemma {:induction false} WithGapsLength(range: seq<int>, k: nat)
    requires k <= |range|
    requires forall m :: 2 <= m <= |range| - 2 ==> range[m] - range[m - 1] <= 1
    ensures |WithGaps(range, k)| <= k + (if k >= 2 then 1 else 0) + (if k >= 3 && k == |range| then 1 else 0)
  {
    if k > 0 {
      WithGapsLength(range, k - 1);
    }
  }

  /** The bar has at most five page buttons and at most seven entries. */
  lemma PageNumbersSize(page: int, total: int)
    ensures |Numbers(PageNumbers(page, total))| <= 5
    ensures |PageNumbers(page, total)| <= 7
  {
    var r := Range(page, total);
    PageNumbersOrder(page, total);
    AtMostFive(page, total);
    RangeGapFree(page, total);
    WithGapsLength(r, |r|);
  }

  // ---------------------------------------------------------------- navigation

  /**
   * `handleJump`: the typed text is read with `parseInt`; a page in
   * [1, totalPages] is navigated to and the box cleared, anything else is
   * ignored and the text stays. The result is the page navigated to, if
   * any, and the box's new text.
   */
  function Jump(jump: string, totalPages: int): (r: (Option<int>, string))
    ensures r.0.Some? <==> exists p :: ParseInt(jump) == Some(p) && 1 <= p <= totalPages
    ensures r.0.Some? ==> ParseInt(jump) == Some(r.0.value) && r.1 == ""
    ensures r.0.None? ==> r.1 == jump
  {
    var p := ParseInt(jump);
    if p.Some? && p.value >= 1 && p.value <= totalPages then (Some(p.value), "") else (None, jump)
  }

  datatype Button = First | Prev | Next | Last | PageButton(p: int)

  /** The page a click requests, or None when the button is disabled. */
  function Click(b: Button, page: int, totalPages: int): Option<int>
  {
    match b
    case First => if page == 1 then None else Some(1)
    case Prev => if page == 1 then None else Some(page - 1)
    case Next => if page == totalPages then None else Some(page + 1)
    case Last => if page == totalPages then None else Some(totalPages)
    case PageButton(p) => Some(p)
  }

  /**
   * From a page in [1, totalPages], every enabled navigation button and
   * every page button of the bar requests a page in [1, totalPages]; the
   * four arrows requests a page other than the current one.
   */
  lemma ClickStaysInRange(b: Button, page: int, totalPages: int)
    requires 1 <= page <= totalPages
    requires b.PageButton? ==> Num(b.p) in PageNumbers(page, totalPages)
    ensures Click(b, page, totalPages).Some? ==> 1 <= Click(b, page, totalPages).value <= totalPages
    ensures !b.PageButton? && Click(b, page, totalPages).Some? ==> Click(b, page, totalPages).value != page
    ensures (b == First || b == Prev) ==> (Click(b, page, totalPages).None? <==> page == 1)
    ensures (b == Next || b == Last) ==> (Click(b, page, totalPages).None? <==> page == totalPages)
  {
    if b.PageButton? {
      var r := Range(page, totalPages);
      PageNumbersOrder(page, totalPages);
      NumInNumbers(PageNumbers(page, totalPages), b.p);
      RangeExact(page, totalPages);
    }
  }

  lemma {:induction false} NumInNumbers(es: seq<Entry>, p: int)
    requires Num(p) in es
    ensures p in Numbers(es)
    decreases |es|
  {
    var last := es[|es| - 1];
    if last != Num(p) {
      var i :| 0 <= i < |es| && es[i] == Num(p);
      assert es[..|es| - 1][i] == Num(p);
      NumInNumbers(es[..|es| - 1], p);
    }
  }
}
