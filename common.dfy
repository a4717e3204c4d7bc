/**
 * Values shared by every handler of the application: JSON scalars as a handler
 * sees them after `req.json()`, JavaScript truthiness, decimal rendering,
 * code-point string order, and the ascending order of a set of row ids.
 */
module Common {

  datatype Option<+T> = None | Some(value: T)

  /**
   * A JSON scalar read from a request body or a spreadsheet row: absent or
   * null, a string, or an integer. Fractional numbers are not modelled.
   */
  datatype Cell = Missing | Text(s: string) | Number(n: int)

  /** JavaScript truthiness of a cell: `undefined`, `null`, `""` and `0` are falsy. */
  predicate Truthy(c: Cell)
  {
    match c
    case Missing => false
    case Text(s) => s != []
    case Number(n) => n != 0
  }

  /** JavaScript `a || b`: the first operand when it is truthy, else the second. */
  function OrElse(a: Cell, b: Cell): (r: Cell)
    ensures Truthy(r) <==> Truthy(a) || Truthy(b)
    ensures Truthy(a) ==> r == a
    ensures !Truthy(a) ==> r == b
  {
    if Truthy(a) then a else b
  }

  // ---------------------------------------------------------------- digits

  predicate IsDigit(c: char)
  {
    '0' <= c <= '9'
  }

  predicate AllDigits(s: string)
  {
    forall i :: 0 <= i < |s| ==> IsDigit(s[i])
  }

  function DigitChar(d: nat): (c: char)
    requires d < 10
    ensures IsDigit(c)
  {
    ('0' as int + d) as char
  }

  function DigitValue(c: char): (d: nat)
    requires IsDigit(c)
    ensures d < 10 && DigitChar(d) == c
  {
    c as int - '0' as int
  }

  /** Decimal rendering of a natural number, as `String(n)` in JavaScript or `str(n)` in Python. */
  function NatToDecimal(n: nat): (r: string)
    ensures |r| >= 1 && AllDigits(r)
    ensures |r| > 1 ==> r[0] != '0'
    decreases n
  {
    if n < 10 then [DigitChar(n)] else NatToDecimal(n / 10) + [DigitChar(n % 10)]
  }

  /** Decimal rendering of an integer, with a leading '-' for negatives. */
  function IntToDecimal(n: int): (r: string)
    ensures |r| >= 1
  {
    if n < 0 then "-" + NatToDecimal(-n) else NatToDecimal(n)
  }

  /** The number a string of decimal digits denotes. */
  function DecimalValue(s: string): nat
    requires AllDigits(s)
    decreases |s|
  {
    if s == [] then 0 else DecimalValue(s[..|s| - 1]) * 10 + DigitValue(s[|s| - 1])
  }

  lemma {:induction false} DecimalRoundTrip(n: nat)
    ensures DecimalValue(NatToDecimal(n)) == n
    decreases n
  {
    if n >= 10 {
      var r := NatToDecimal(n);
      var p := NatToDecimal(n / 10);
      assert r[..|r| - 1] == p;
      DecimalRoundTrip(n / 10);
    }
  }

  /** The length of the run of decimal digits at the start of `s`. */
  function DigitRun(s: string): (n: nat)
    ensures n <= |s| && AllDigits(s[..n])
    ensures n < |s| ==> !IsDigit(s[n])
    decreases |s|
  {
    if s == [] || !IsDigit(s[0]) then 0
    else
      var k := DigitRun(s[1..]);
      assert s[..k + 1] == [s[0]] + s[1..][..k];
      k + 1
  }

  lemma {:induction false} DigitRunOf(d: string, tail: string)
    requires AllDigits(d)
    requires tail == [] || !IsDigit(tail[0])
    ensures DigitRun(d + tail) == |d|
    decreases |d|
  {
    if d != [] {
      assert (d + tail)[1..] == d[1..] + tail;
      DigitRunOf(d[1..], tail);
    } else {
      assert d + tail == tail;
    }
  }

  /** `s` without its leading sign character, if it has one. */
  function Unsigned(s: string): string
  {
    if s != [] && (s[0] == '-' || s[0] == '+') then s[1..] else s
  }

  /**
   * JavaScript `parseInt(s, 10)` on a string without leading white space: an
   * optional sign, then the longest run of digits; anything after the run is
   * ignored, and no digit at all gives NaN (None).
   */
  function ParseInt(s: string): (r: Option<int>)
    ensures r.None? <==> DigitRun(Unsigned(s)) == 0
  {
    var body := Unsigned(s);
    var n := DigitRun(body);
    if n == 0 then None
    else
      var v: int := DecimalValue(body[..n]);
      Some(if s[0] == '-' then -v else v)
  }

  /** `parseInt` reads back what `String(n)` wrote, whatever non-digit text follows it. */
  lemma ParseIntRoundTrip(n: int, tail: string)
    requires tail == [] || !IsDigit(tail[0])
    ensures ParseInt(IntToDecimal(n) + tail) == Some(n)
  {
    var m: nat := if n < 0 then -n else n;
    var b := NatToDecimal(m) + tail;
    DigitsRead(m, tail);
    if n < 0 {
      assert IntToDecimal(n) + tail == "-" + b;
      assert Unsigned("-" + b) == b;
    } else {
      assert Unsigned(b) == b;
    }
  }

  /** The digits of `m` followed by non-digit text: a run of digits that denotes `m`. */
  lemma DigitsRead(m: nat, tail: string)
    requires tail == [] || !IsDigit(tail[0])
    ensures var b := NatToDecimal(m) + tail;
      && DigitRun(b) == |NatToDecimal(m)| && b[..DigitRun(b)] == NatToDecimal(m)
      && DecimalValue(NatToDecimal(m)) == m && IsDigit(b[0])
  {
    var d := NatToDecimal(m);
    DigitRunOf(d, tail);
    DecimalRoundTrip(m);
    assert (d + tail)[..|d|] == d;
    assert (d + tail)[0] == d[0];
  }

  /**
   * The integer SQLite reads a text as when it applies INTEGER affinity: the
   * whole text must be an optional sign followed by decimal digits.
   */
  function SqlInteger(s: string): (r: Option<int>)
    ensures r.Some? ==> r == ParseInt(s)
    ensures r.Some? <==> DigitRun(Unsigned(s)) == |Unsigned(s)| > 0
  {
    if DigitRun(Unsigned(s)) == |Unsigned(s)| then ParseInt(s) else None
  }

  /** SQLite reads the decimal text of an integer back as that integer. */
  lemma SqlIntegerRoundTrip(n: int)
    ensures SqlInteger(IntToDecimal(n)) == Some(n)
  {
    ParseIntRoundTrip(n, []);
    assert IntToDecimal(n) + [] == IntToDecimal(n);
    var d := NatToDecimal(if n < 0 then -n else n);
    DigitRunOf(d, []);
    assert d + [] == d;
    if n < 0 {
      assert Unsigned(IntToDecimal(n)) == d;
    } else {
      assert IsDigit(d[0]);
    }
  }

  // ---------------------------------------------------------------- order

  /**
   * Lexicographic order on code points. It is SQLite's BINARY collation on
   * UTF-8 text (UTF-8 preserves code-point order) and Python's `str` order.
   */
  predicate LexLe(a: string, b: string)
    decreases |a|
  {
    a == [] || (b != [] && (a[0] < b[0] || (a[0] == b[0] && LexLe(a[1..], b[1..]))))
  }

  predicate LexLt(a: string, b: string)
  {
    LexLe(a, b) && a != b
  }

  lemma {:induction false} LexLeTotal(a: string, b: string)
    ensures LexLe(a, b) || LexLe(b, a)
    decreases |a|
  {
    if a != [] && b != [] && a[0] == b[0] {
      LexLeTotal(a[1..], b[1..]);
    }
  }

  lemma {:induction false} LexLeAntisymmetric(a: string, b: string)
    requires LexLe(a, b) && LexLe(b, a)
    ensures a == b
    decreases |a|
  {
    if a != [] {
      LexLeAntisymmetric(a[1..], b[1..]);
      assert a == [a[0]] + a[1..] && b == [b[0]] + b[1..];
    }
  }

  lemma {:induction false} LexLeTransitive(a: string, b: string, c: string)
    requires LexLe(a, b) && LexLe(b, c)
    ensures LexLe(a, c)
    decreases |a|
  {
    if a != [] && a[0] == b[0] && b[0] == c[0] {
      LexLeTransitive(a[1..], b[1..], c[1..]);
    }
  }

  lemma LexLeReflexive(a: string)
    ensures LexLe(a, a)
  {
  }

  // ---------------------------------------------------------------- filtering

  /** `xs.filter(p)`. */
  function Keep<T(!new)>(p: T -> bool, xs: seq<T>): (r: seq<T>)
    ensures |r| <= |xs|
    ensures forall x :: x in r <==> x in xs && p(x)
  {
    if xs == [] then []
    else Keep(p, xs[..|xs| - 1]) + (if p(xs[|xs| - 1]) then [xs[|xs| - 1]] else [])
  }

  /** Filtering a concatenation filters each part: the kept elements stay in their order. */
  lemma {:induction false} KeepAppend<T(!new)>(p: T -> bool, xs: seq<T>, ys: seq<T>)
    ensures Keep(p, xs + ys) == Keep(p, xs) + Keep(p, ys)
    decreases |ys|
  {
    if ys == [] {
      assert xs + ys == xs;
    } else {
      var init := ys[..|ys| - 1];
      assert (xs + ys)[..|xs + ys| - 1] == xs + init;
      KeepAppend(p, xs, init);
    }
  }

  /** `xs` cut or padded with "" to exactly n entries: Python's `(xs + [""] * max(0, n - len(xs)))[:n]`. */
  function PadTo(xs: seq<string>, n: nat): (r: seq<string>)
    ensures |r| == n
    ensures forall i :: 0 <= i < n ==> r[i] == (if i < |xs| then xs[i] else "")
  {
    if |xs| >= n then xs[..n] else xs + seq(n - |xs|, _ => "")
  }
}
