/**
 * Row ids in order: `ORDER BY id` and `ORDER BY id DESC` over the keys of a
 * table, which are distinct integers.
 */
module Ids {


  predicate StrictlyIncreasing(r: seq<int>)
  {
    forall i, j :: 0 <= i < j < |r| ==> r[i] < r[j]
  }

  predicate StrictlyDecreasing(r: seq<int>)
  {
    forall i, j :: 0 <= i < j < |r| ==> r[i] > r[j]
  }

  /** `m` is the least element of `s`. */
  predicate IsMin(s: set<int>, m: int)
  {
    m in s && forall x :: x in s ==> m <= x
  }

  /** A non-empty finite set of integers has a least element. */
  lemma {:induction false} MinExists(s: set<int>)
    requires s != {}
    ensures exists m :: IsMin(s, m)
    decreases |s|
  {
    assert exists y :: y in s by {
      if forall y :: y !in s {
        assert false;
      }
    }
    var y :| y in s;
    var rest := s - {y};
    assert forall x :: x in s ==> x == y || x in rest;
    if rest == {} {
      assert IsMin(s, y);
    } else {
      MinExists(rest);
      var m :| IsMin(rest, m);
      if y < m {
        assert IsMin(s, y);
      } else {
        assert IsMin(s, m);
      }
    }
  }

  /** The least element of a non-empty finite set. */
  function SetMin(s: set<int>): (m: int)
    requires s != {}
    ensures m in s && forall x :: x in s ==> m <= x
  {
    MinExists(s);
    var m :| IsMin(s, m); m
  }

  /** The elements of a finite set of ids in ascending order (`ORDER BY id`). */
  function Ascending(s: set<int>): (r: seq<int>)
    ensures StrictlyIncreasing(r)
    ensures |r| == |s|
    ensures forall x :: x in r <==> x in s
    decreases |s|
  {
    if s == {} then []
    else
      var m := SetMin(s);
      [m] + Ascending(s - {m})
  }

  /** The elements of a finite set of ids in descending order (`ORDER BY id DESC`). */
  function Descending(s: set<int>): (r: seq<int>)
    ensures StrictlyDecreasing(r)
    ensures |r| == |s|
    ensures forall x :: x in r <==> x in s
    decreases |s|
  {
    if s == {} then []
    else
      var m := SetMin(s);
      Descending(s - {m}) + [m]
  }

  /** The rows of a table keyed by id, in ascending id order (`SELECT * ... ORDER BY id`). */
  function OrderedRows<T>(m: map<int, T>): (r: seq<(int, T)>)
    ensures |r| == |m.Keys|
    ensures forall i :: 0 <= i < |r| ==> r[i].0 == Ascending(m.Keys)[i]
    ensures forall i :: 0 <= i < |r| ==> r[i].0 in m && r[i].1 == m[r[i].0]
  {
    RowsOf(m, Ascending(m.Keys))
  }

  /** `OrderedRows` lists every row of the table exactly once, in ascending id order. */
  lemma OrderedRowsExact<T>(m: map<int, T>)
    ensures forall id :: id in m <==> exists i :: 0 <= i < |OrderedRows(m)| && OrderedRows(m)[i].0 == id
    ensures forall i, j :: 0 <= i < j < |OrderedRows(m)| ==> OrderedRows(m)[i].0 < OrderedRows(m)[j].0
  {
    var rows := OrderedRows(m);
    var asc := Ascending(m.Keys);
    forall id | id in m
      ensures exists i :: 0 <= i < |rows| && rows[i].0 == id
    {
      var i :| 0 <= i < |asc| && asc[i] == id;
      assert rows[i].0 == id;
    }
  }

  /** The rows with the given ids, in the order of `ids`. */
  function RowsOf<T>(m: map<int, T>, ids: seq<int>): (r: seq<(int, T)>)
    requires forall x :: x in ids ==> x in m
    ensures |r| == |ids|
    ensures forall i :: 0 <= i < |r| ==> r[i].0 == ids[i] && r[i].0 in m && r[i].1 == m[r[i].0]
    decreases |ids|
  {
    if ids == [] then []
    else
      var last := ids[|ids| - 1];
      assert last in ids;
      RowsOf(m, ids[..|ids| - 1]) + [(last, m[last])]
  }
}
