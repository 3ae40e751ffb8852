/** Rows, and what it means that an index lookup agrees with the heap. */
module Rows {
  import opened Common

  /** A column value; the comparison order of the column's type is that of the integers. */
  datatype Val = Null | V(n: int)

  type Row = seq<Val>

  /** The rows that satisfy p, in heap order. */
  function Matching(rows: seq<Row>, p: Row -> bool): seq<Row> {
    if rows == [] then []
    else Matching(rows[..|rows| - 1], p) + if p(rows[|rows| - 1]) then [rows[|rows| - 1]] else []
  }

  predicate InHeap(rids: seq<nat>, n: nat) {
    forall k :: 0 <= k < |rids| ==> rids[k] < n
  }

  /** The rows behind a list of row ids. */
  function Fetch(rows: seq<Row>, rids: seq<nat>): (r: seq<Row>)
    requires InHeap(rids, |rows|)
    ensures |r| == |rids| && forall k :: 0 <= k < |rids| ==> r[k] == rows[rids[k]]
  {
    seq(|rids|, k requires 0 <= k < |rids| => rows[rids[k]])
  }

  /** The list names exactly the rows that satisfy p, each once, in any order. */
  ghost predicate Covers(rids: seq<nat>, rows: seq<Row>, p: Row -> bool) {
    Distinct(rids) && InHeap(rids, |rows|) && forall i: nat :: i in rids <==> i < |rows| && p(rows[i])
  }

  /** Fetching by such a list is filtering the heap, up to order. */
  lemma {:induction false} FetchIsFilter(rids: seq<nat>, rows: seq<Row>, p: Row -> bool)
    requires Covers(rids, rows, p)
    ensures multiset(Fetch(rows, rids)) == multiset(Matching(rows, p))
    decreases |rows|
  {
    if rows == [] {
      NoneInEmpty(rids, |rows|);
    } else {
      var n := |rows| - 1;
      var rest := rows[..n];
      if p(rows[n]) {
        assert n in rids;
        var k :| 0 <= k < |rids| && rids[k] == n;
        var rids' := rids[..k] + rids[k + 1..];
        DropLast(rids, rows, p, k);
        FetchIsFilter(rids', rest, p);
        FetchDrop(rids, rows, k);
      } else {
        Shrink(rids, rows, p);
        FetchIsFilter(rids, rest, p);
        assert Fetch(rows, rids) == Fetch(rest, rids);
      }
    }
  }

  lemma NoneInEmpty(rids: seq<nat>, n: nat)
    requires InHeap(rids, n)
    ensures n == 0 ==> rids == []
  {
    if rids != [] {
      assert rids[0] < n;
    }
  }

  lemma Shrink(rids: seq<nat>, rows: seq<Row>, p: Row -> bool)
    requires rows != [] && Covers(rids, rows, p) && !p(rows[|rows| - 1])
    ensures Covers(rids, rows[..|rows| - 1], p)
  {
  }

  lemma DropLast(rids: seq<nat>, rows: seq<Row>, p: Row -> bool, k: nat)
    requires rows != [] && Covers(rids, rows, p) && k < |rids| && rids[k] == |rows| - 1
    ensures Covers(rids[..k] + rids[k + 1..], rows[..|rows| - 1], p)
  {
    var n := |rows| - 1;
    var r := rids[..k] + rids[k + 1..];
    forall j | 0 <= j < |r| ensures r[j] == rids[if j < k then j else j + 1] {}
    assert Distinct(r);
    forall i: nat ensures i in r <==> i < n && p(rows[..n][i]) {
      if i in rids && i != n {
        var j :| 0 <= j < |rids| && rids[j] == i;
        assert r[if j < k then j else j - 1] == i;
      }
      if i in r {
        var j :| 0 <= j < |r| && r[j] == i;
        assert rids[if j < k then j else j + 1] == i;
      }
    }
  }

  lemma FetchDrop(rids: seq<nat>, rows: seq<Row>, k: nat)
    requires rows != [] && k < |rids| && rids[k] == |rows| - 1 && InHeap(rids, |rows|)
    requires InHeap(rids[..k] + rids[k + 1..], |rows| - 1)
    ensures multiset(Fetch(rows, rids)) ==
              multiset(Fetch(rows[..|rows| - 1], rids[..k] + rids[k + 1..])) + multiset{rows[|rows| - 1]}
  {
    var n := |rows| - 1;
    var a, b := rids[..k], rids[k + 1..];
    var f, g := Fetch(rows, rids), Fetch(rows[..n], a + b);
    assert f == f[..k] + [rows[n]] + f[k + 1..];
    assert g == f[..k] + f[k + 1..];
  }
}
