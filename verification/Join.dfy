/** Nested-loop and indexed nested-loop joins: what each yields, and exactly when they agree. */
module Join {
  import opened Common
  import opened Rows
  import opened JoinLayout

  // ----- evaluating ON

  /** A column reference: the qualified key first, then the bare name; None is UnknownColumnError. */
  function Resolve(r: Ref, m: Positions): Option<nat> {
    if r.table.Some? && Qual(r.table.value, r.name) in m then Some(m[Qual(r.table.value, r.name)])
    else if Bare(r.name) in m then Some(m[Bare(r.name)])
    else None
  }

  /** `eval_expr` on the equality; two NULLs are equal. */
  predicate Holds(on: Option<On>, row: Row, m: Positions) {
    on.None? ||
    (var a, b := Resolve(on.value.l, m), Resolve(on.value.r, m);
     a.Some? && b.Some? && a.value < |row| && b.value < |row| && row[a.value] == row[b.value])
  }

  /** Otherwise the first evaluation of ON raises UnknownColumnError. */
  predicate Resolvable(on: Option<On>, m: Positions) {
    on.None? || (Resolve(on.value.l, m).Some? && Resolve(on.value.r, m).Some?)
  }

  function Nulls(n: nat): (r: Row)
    ensures |r| == n && forall i :: 0 <= i < n ==> r[i] == Null
  {
    seq(n, _ => Null)
  }

  /** The combined rows of one left row that satisfy ON. */
  function Hits(l: Row, rs: seq<Row>, on: Option<On>, m: Positions): seq<Row> {
    if rs == [] then []
    else
      var n := |rs| - 1;
      Hits(l, rs[..n], on, m) + if Holds(on, l + rs[n], m) then [l + rs[n]] else []
  }

  /** What one left row contributes: its hits, or itself padded with NULLs. */
  function Block(l: Row, rs: seq<Row>, on: Option<On>, m: Positions, pad: bool, w: nat): seq<Row> {
    var hits := Hits(l, rs, on, m);
    if hits == [] && pad then [l + Nulls(w)] else hits
  }

  function NestedRows(ls: seq<Row>, rs: seq<Row>, on: Option<On>, m: Positions, pad: bool, w: nat): seq<Row> {
    if ls == [] then []
    else NestedRows(ls[..|ls| - 1], rs, on, m, pad, w) + Block(ls[|ls| - 1], rs, on, m, pad, w)
  }

  /** The inner loop: one left row against every right row; None stands for UnknownColumnError. */
  method ScanRight(l: Row, rs: seq<Row>, on: Option<On>, m: Positions, pad: bool, w: nat)
    returns (r: Option<seq<Row>>)
    ensures r == if rs != [] && !Resolvable(on, m) then None else Some(Block(l, rs, on, m, pad, w))
  {
    var out := [];
    var matched := false;
    for j := 0 to |rs|
      invariant out == Hits(l, rs[..j], on, m) && matched == (out != []) && (j > 0 ==> Resolvable(on, m))
    {
      assert rs[..j + 1][..j] == rs[..j];
      if !Resolvable(on, m) {
        return None;
      }
      if Holds(on, l + rs[j], m) {
        out := out + [l + rs[j]];
        matched := true;
      }
    }
    assert rs[..|rs|] == rs;
    if !matched && pad {
      out := out + [l + Nulls(w)];
      assert out == [l + Nulls(w)];
    }
    assert out == Block(l, rs, on, m, pad, w);
    r := Some(out);
  }

  /** `NestedLoopJoin.open`. */
  method NestedLoop(ls: seq<Row>, rs: seq<Row>, on: Option<On>, m: Positions, pad: bool, w: nat)
    returns (r: Option<seq<Row>>)
    ensures r == if ls != [] && rs != [] && !Resolvable(on, m) then None else Some(NestedRows(ls, rs, on, m, pad, w))
  {
    hide Block, Resolvable;
    var out := [];
    for i := 0 to |ls|
      invariant out == NestedRows(ls[..i], rs, on, m, pad, w) && (i > 0 && rs != [] ==> Resolvable(on, m))
    {
      assert ls[..i + 1][..i] == ls[..i];
      var more := ScanRight(ls[i], rs, on, m, pad, w);
      if more.None? {
        return None;
      }
      out := out + more.value;
    }
    assert ls[..|ls|] == ls;
    r := Some(out);
  }

  // ----- the indexed operator

  function EntriesAt(entries: map<int, seq<nat>>, k: int): seq<nat> {
    if k in entries then entries[k] else []
  }

  predicate InTable(entries: map<int, seq<nat>>, n: nat) {
    forall k | k in entries :: InHeap(entries[k], n)
  }

  /** One left row: a NULL key is never looked up. */
  function IndexedBlock(l: Row, key: nat, rs: seq<Row>, entries: map<int, seq<nat>>, on: Option<On>, m: Positions,
                        pad: bool, w: nat): seq<Row>
    requires InTable(entries, |rs|)
  {
    if key >= |l| || l[key] == Null then if pad then [l + Nulls(w)] else []
    else Block(l, Fetch(rs, EntriesAt(entries, l[key].n)), on, m, pad, w)
  }

  function IndexedRows(ls: seq<Row>, key: nat, rs: seq<Row>, entries: map<int, seq<nat>>, on: Option<On>, m: Positions,
                       pad: bool, w: nat): seq<Row>
    requires InTable(entries, |rs|)
  {
    if ls == [] then []
    else
      IndexedRows(ls[..|ls| - 1], key, rs, entries, on, m, pad, w)
      + IndexedBlock(ls[|ls| - 1], key, rs, entries, on, m, pad, w)
  }

  /** One probe: fetch the rows behind the entries and keep those that satisfy ON. */
  method Probe(l: Row, rids: seq<nat>, rs: seq<Row>, on: Option<On>, m: Positions, pad: bool, w: nat)
    returns (out: seq<Row>)
    requires InHeap(rids, |rs|)
    ensures out == Block(l, Fetch(rs, rids), on, m, pad, w)
  {
    ghost var found := Fetch(rs, rids);
    out := [];
    for j := 0 to |rids|
      invariant out == Hits(l, found[..j], on, m)
    {
      assert found[..j + 1][..j] == found[..j];
      var r := rs[rids[j]];
      if Holds(on, l + r, m) {
        out := out + [l + r];
      }
    }
    assert found[..|rids|] == found;
    if out == [] && pad {
      out := [l + Nulls(w)];
    }
  }

  /** The main loop of `IndexedNestedLoopJoin.open`. */
  method IndexedLoop(ls: seq<Row>, key: nat, rs: seq<Row>, entries: map<int, seq<nat>>, on: Option<On>, m: Positions,
                     pad: bool, w: nat)
    returns (out: seq<Row>)
    requires InTable(entries, |rs|) && forall i :: 0 <= i < |ls| ==> key < |ls[i]|
    ensures out == IndexedRows(ls, key, rs, entries, on, m, pad, w)
  {
    out := [];
    for i := 0 to |ls|
      invariant out == IndexedRows(ls[..i], key, rs, entries, on, m, pad, w)
    {
      var l := ls[i];
      assert ls[..i + 1][..i] == ls[..i];
      if l[key] == Null {
        if pad {
          out := out + [l + Nulls(w)];
        }
      } else {
        var more := Probe(l, EntriesAt(entries, l[key].n), rs, on, m, pad, w);
        hide Block;
        out := out + more;
      }
    }
    assert ls[..|ls|] == ls;
  }

  /** `_extract_join_keys_nested`, the left slot. None makes the operator yield nothing. (A qualified
      reference to a missing right column raises instead; no sound plan has one.) */
  function LeftKey(on: Option<On>, left: Positions, rightCols: seq<Name>): Option<nat> {
    if on.None? || on.value.r.name !in rightCols then None else Resolve(on.value.l, left)
  }

  // ----- whole plans

  ghost predicate Runnable(p: Plan) {
    match p
    case Scan(_) => true
    case Join(left, _, right, _, _, _, op) => Runnable(left) && (op.Indexed? ==> InTable(op.entries, |right.rows|))
  }

  ghost function Open(p: Plan): seq<Row>
    requires Runnable(p)
  {
    match p
    case Scan(t) => t.rows
    case Join(left, aliasLeft, right, aliasRight, on, kind, op) =>
      var m, w := PositionsOf(p, None), |right.cols|;
      if op.Nested? then NestedRows(Open(left), right.rows, on, m, kind == LeftOuter, w)
      else
        match LeftKey(on, PositionsOf(left, op.leftKeyAlias), right.cols)
        case None => []
        case Some(key) => IndexedRows(Open(left), key, right.rows, op.entries, on, m, kind == LeftOuter, w)
  }
}
