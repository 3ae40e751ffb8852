/** Names against slots: which column a reference means, and what a nested-loop join yields, said of the
    physical rows alone. */
module JoinSlots {
  import opened Common
  import opened Rows
  import opened JoinLayout
  import opened Join

  /** Nothing to the left of slot i has the name. */
  predicate FirstOf(lay: seq<Col>, name: Name, i: nat) {
    i < |lay| && lay[i].name == name && forall q :: 0 <= q < i ==> lay[q].name != name
  }

  predicate Named(lay: seq<Col>, name: Name) {
    exists q :: 0 <= q < |lay| && lay[q].name == name
  }

  function Leftmost(lay: seq<Col>, name: Name): (i: nat)
    requires Named(lay, name)
    ensures FirstOf(lay, name, i)
  {
    if lay[0].name == name then 0 else Leftmost(lay[1..], name) + 1
  }

  /** `alias.column` means that column; a bare name, and an `alias.column` there is not, the leftmost
      column of the name, if there is one. */
  ghost predicate Means(r: Ref, lay: seq<Col>, slot: Option<nat>) {
    if r.table.Some? && Col(r.table.value, r.name) in lay then
      slot.Some? && slot.value < |lay| && lay[slot.value] == Col(r.table.value, r.name)
    else
      match slot
      case None => !Named(lay, r.name)
      case Some(i) => FirstOf(lay, r.name, i)
  }

  lemma ResolveExact(r: Ref, m: Positions, lay: seq<Col>)
    requires Exact(m, lay)
    ensures Means(r, lay, Resolve(r, m))
  {
    if r.table.Some? && Col(r.table.value, r.name) in lay {
      var i := IndexIn(lay, Col(r.table.value, r.name));
      assert QualExact(m, lay, i);
    } else {
      if r.table.Some? {
        NotNamed(m, lay, Qual(r.table.value, r.name));
      }
      if Bare(r.name) in m {
        assert KeyExact(m, lay, Bare(r.name));
      }
    }
  }

  /** In every well-named plan, every reference, qualified or not, is looked up where it means. */
  lemma PlanResolves(p: Plan, alias: Option<Name>, r: Ref)
    requires WellNamed(p, alias)
    ensures Means(r, Layout(p, alias), Resolve(r, PositionsOf(p, alias)))
  {
    PositionsAreExact(p, alias);
    ResolveExact(r, PositionsOf(p, alias), Layout(p, alias));
  }

  /** There is only one slot it can mean. */
  lemma MeansOne(r: Ref, lay: seq<Col>, a: Option<nat>, b: Option<nat>)
    requires Distinct(lay) && Means(r, lay, a) && Means(r, lay, b)
    ensures a == b
  {
  }

  /** ON raises on the first pair exactly when one of its names is no column's. */
  lemma ResolvableExact(p: Plan, alias: Option<Name>)
    requires WellNamed(p, alias) && p.Join?
    ensures Resolvable(p.on, PositionsOf(p, alias)) <==>
              p.on.None? || (Named(Layout(p, alias), p.on.value.l.name) && Named(Layout(p, alias), p.on.value.r.name))
  {
    if p.on.Some? {
      PlanResolves(p, alias, p.on.value.l);
      PlanResolves(p, alias, p.on.value.r);
    }
  }

  // ----- the rows of a nested-loop join

  /** ON is true of the row: the two columns have the same value, NULLs included. */
  ghost predicate Meets(on: Option<On>, lay: seq<Col>, row: Row) {
    on.None? || exists i, j :: Matched(on.value, lay, row, i, j)
  }

  ghost predicate Matched(on: On, lay: seq<Col>, row: Row, i: nat, j: nat) {
    Means(on.l, lay, Some(i)) && Means(on.r, lay, Some(j)) && i < |row| && j < |row| && row[i] == row[j]
  }

  /** A left row with a right row, or with none. */
  datatype Pairing = Pairing(i: nat, j: Option<nat>)

  predicate Before(a: Pairing, b: Pairing) {
    a.i < b.i || (a.i == b.i && a.j.Some? && b.j.Some? && a.j.value < b.j.value)
  }

  ghost predicate Belongs(a: Pairing, ls: seq<Row>, rs: seq<Row>, good: iset<Row>, pad: bool) {
    && a.i < |ls|
    && match a.j
       case Some(j) => j < |rs| && ls[a.i] + rs[j] in good
       case None => pad && forall j :: 0 <= j < |rs| ==> ls[a.i] + rs[j] !in good
  }

  /** Left rows in order, each with its matches in order, or, in a LEFT join, with none when it has none. */
  ghost predicate Pairs(at: seq<Pairing>, ls: seq<Row>, rs: seq<Row>, good: iset<Row>, pad: bool) {
    && (forall x, y :: 0 <= x < y < |at| ==> Before(at[x], at[y]))
    && (forall a :: a in at <==> Belongs(a, ls, rs, good, pad))
  }

  function RowOf(a: Pairing, ls: seq<Row>, rs: seq<Row>, w: nat): Row
    requires a.i < |ls| && (a.j.Some? ==> a.j.value < |rs|)
  {
    ls[a.i] + if a.j.Some? then rs[a.j.value] else Nulls(w)
  }

  ghost predicate RowsAt(out: seq<Row>, at: seq<Pairing>, ls: seq<Row>, rs: seq<Row>, w: nat) {
    |out| == |at| &&
    forall x :: 0 <= x < |at| ==>
      at[x].i < |ls| && (at[x].j.Some? ==> at[x].j.value < |rs|) && out[x] == RowOf(at[x], ls, rs, w)
  }

  /** The matches of left row i among the first n right rows. */
  ghost predicate HitsAt(at: seq<Pairing>, ls: seq<Row>, i: nat, rs: seq<Row>, n: nat, good: iset<Row>)
    requires i < |ls| && n <= |rs|
  {
    && (forall x, y :: 0 <= x < y < |at| ==> Before(at[x], at[y]))
    && (forall a :: a in at <==> a.i == i && a.j.Some? && a.j.value < n && ls[i] + rs[a.j.value] in good)
  }

  lemma {:induction false} HitsListed(ls: seq<Row>, i: nat, rs: seq<Row>, n: nat, on: Option<On>, m: Positions,
                                      good: iset<Row>, w: nat) returns (at: seq<Pairing>)
    requires i < |ls| && n <= |rs| && forall row: Row :: row in good <==> Holds(on, row, m)
    ensures HitsAt(at, ls, i, rs, n, good) && RowsAt(Hits(ls[i], rs[..n], on, m), at, ls, rs, w)
    decreases n
  {
    hide Holds;
    if n == 0 {
      at := [];
    } else {
      hide HitsAt, RowsAt;
      var k := n - 1;
      at := HitsListed(ls, i, rs, k, on, m, good, w);
      assert rs[..n][..k] == rs[..k] && rs[..n][k] == rs[k];
      HitsNext(at, ls, i, rs, k, good);
      if ls[i] + rs[k] in good {
        RowsSnoc(Hits(ls[i], rs[..k], on, m), at, ls, rs, w, Pairing(i, Some(k)));
        at := at + [Pairing(i, Some(k))];
      }
    }
  }

  lemma RowsSnoc(out: seq<Row>, at: seq<Pairing>, ls: seq<Row>, rs: seq<Row>, w: nat, a: Pairing)
    requires RowsAt(out, at, ls, rs, w) && a.i < |ls| && (a.j.Some? ==> a.j.value < |rs|)
    ensures RowsAt(out + [RowOf(a, ls, rs, w)], at + [a], ls, rs, w)
  {
  }

  lemma HitsNext(at: seq<Pairing>, ls: seq<Row>, i: nat, rs: seq<Row>, k: nat, good: iset<Row>)
    requires i < |ls| && k < |rs| && HitsAt(at, ls, i, rs, k, good)
    ensures HitsAt(if ls[i] + rs[k] in good then at + [Pairing(i, Some(k))] else at, ls, i, rs, k + 1, good)
  {
    var at' := if ls[i] + rs[k] in good then at + [Pairing(i, Some(k))] else at;
    forall x, y | 0 <= x < y < |at'| ensures Before(at'[x], at'[y]) {
      if y == |at| {
        assert at[x] in at;
      }
    }
    forall a: Pairing
      ensures a in at' <==> a.i == i && a.j.Some? && a.j.value < k + 1 && ls[i] + rs[a.j.value] in good
    {
      assert a in at' <==> a in at || (ls[i] + rs[k] in good && a == Pairing(i, Some(k)));
    }
  }

  /** The places of one left row's rows. */
  ghost predicate BlockAt(at: seq<Pairing>, ls: seq<Row>, i: nat, rs: seq<Row>, good: iset<Row>, pad: bool) {
    && (forall x, y :: 0 <= x < y < |at| ==> Before(at[x], at[y]))
    && (forall a :: a in at <==> a.i == i && Belongs(a, ls, rs, good, pad))
  }

  lemma BlockListed(ls: seq<Row>, i: nat, rs: seq<Row>, on: Option<On>, m: Positions, good: iset<Row>,
                    pad: bool, w: nat) returns (at: seq<Pairing>)
    requires i < |ls| && forall row: Row :: row in good <==> Holds(on, row, m)
    ensures BlockAt(at, ls, i, rs, good, pad) && RowsAt(Block(ls[i], rs, on, m, pad, w), at, ls, rs, w)
  {
    hide Hits, Holds;
    at := HitsListed(ls, i, rs, |rs|, on, m, good, w);
    assert rs[..|rs|] == rs;
    HitsBlock(at, ls, i, rs, good, pad);
    hide HitsAt, BlockAt;
    if at == [] && pad {
      at := [Pairing(i, None)];
    }
  }

  lemma HitsBlock(at: seq<Pairing>, ls: seq<Row>, i: nat, rs: seq<Row>, good: iset<Row>, pad: bool)
    requires i < |ls| && HitsAt(at, ls, i, rs, |rs|, good)
    ensures BlockAt(if at == [] && pad then [Pairing(i, None)] else at, ls, i, rs, good, pad)
  {
    var at' := if at == [] && pad then [Pairing(i, None)] else at;
    forall j | 0 <= j < |rs| ensures ls[i] + rs[j] in good <==> Pairing(i, Some(j)) in at {
    }
    if at != [] {
      assert at[0] in at;
    }
    forall a ensures a in at' <==> a.i == i && Belongs(a, ls, rs, good, pad) {
      if a.j.Some? {
        assert a in at <==> a in at';
      }
    }
  }

  lemma {:induction false} NestedListed(ls: seq<Row>, n: nat, rs: seq<Row>, on: Option<On>, m: Positions,
                                        good: iset<Row>, pad: bool, w: nat) returns (at: seq<Pairing>)
    requires n <= |ls| && forall row: Row :: row in good <==> Holds(on, row, m)
    ensures Pairs(at, ls[..n], rs, good, pad) && RowsAt(NestedRows(ls[..n], rs, on, m, pad, w), at, ls, rs, w)
    decreases n
  {
    hide Holds, Block, Pairs, BlockAt, RowsAt;
    if n == 0 {
      at := [];
      NoPairs(ls, rs, good, pad, w);
    } else {
      var k := n - 1;
      at := NestedListed(ls, k, rs, on, m, good, pad, w);
      var more := BlockListed(ls, k, rs, on, m, good, pad, w);
      AddRow(at, more, ls, k, rs, good, pad);
      assert ls[..n][..k] == ls[..k] && ls[..n][k] == ls[k];
      RowsAppend(NestedRows(ls[..k], rs, on, m, pad, w), at, Block(ls[k], rs, on, m, pad, w), more, ls, rs, w);
      at := at + more;
    }
  }

  lemma NoPairs(ls: seq<Row>, rs: seq<Row>, good: iset<Row>, pad: bool, w: nat)
    ensures Pairs([], ls[..0], rs, good, pad) && RowsAt([], [], ls, rs, w)
  {
  }

  lemma RowsAppend(a: seq<Row>, at: seq<Pairing>, b: seq<Row>, bt: seq<Pairing>, ls: seq<Row>, rs: seq<Row>, w: nat)
    requires RowsAt(a, at, ls, rs, w) && RowsAt(b, bt, ls, rs, w)
    ensures RowsAt(a + b, at + bt, ls, rs, w)
  {
  }

  lemma AddRow(at: seq<Pairing>, more: seq<Pairing>, ls: seq<Row>, k: nat, rs: seq<Row>, good: iset<Row>, pad: bool)
    requires k < |ls| && Pairs(at, ls[..k], rs, good, pad)
    requires BlockAt(more, ls, k, rs, good, pad)
    ensures Pairs(at + more, ls[..k + 1], rs, good, pad)
  {
    var all := at + more;
    forall x, y | 0 <= x < y < |all| ensures Before(all[x], all[y]) {
      if x < |at| <= y {
        assert at[x] in at && more[y - |at|] in more;
      }
    }
    forall a ensures a in all <==> Belongs(a, ls[..k + 1], rs, good, pad) {
      assert a.i < k ==> ls[..k][a.i] == ls[..k + 1][a.i] == ls[a.i];
      assert a.i == k ==> ls[..k + 1][a.i] == ls[a.i];
    }
  }

  ghost function Good(on: Option<On>, lay: seq<Col>): iset<Row> {
    iset row: Row | Meets(on, lay, row)
  }

  /** Every nested-loop join of a well-named plan, its ON written with or without aliases: exactly the pairs
      of rows with equal values in the columns meant, and in a LEFT join the left rows without one, all in
      order. */
  lemma NestedExact(p: Plan, alias: Option<Name>) returns (at: seq<Pairing>)
    requires WellNamed(p, alias) && p.Join? && p.op.Nested? && Runnable(p)
    ensures Pairs(at, Open(p.left), p.right.rows, Good(p.on, Layout(p, alias)), p.kind == LeftOuter)
    ensures RowsAt(Open(p), at, Open(p.left), p.right.rows, |p.right.cols|)
  {
    var lay, m, ls := Layout(p, alias), PositionsOf(p, None), Open(p.left);
    assert m == PositionsOf(p, alias);
    PositionsAreExact(p, alias);
    forall row: Row ensures row in Good(p.on, lay) <==> Holds(p.on, row, m) {
      HoldsExact(p.on, m, lay, row);
    }
    hide PositionsOf, Layout, WellNamed, Holds, Good, Exact;
    at := NestedListed(ls, |ls|, p.right.rows, p.on, m, Good(p.on, lay), p.kind == LeftOuter, |p.right.cols|);
    assert ls[..|ls|] == ls;
  }

  lemma HoldsExact(on: Option<On>, m: Positions, lay: seq<Col>, row: Row)
    requires Exact(m, lay) && Distinct(lay)
    ensures Holds(on, row, m) <==> Meets(on, lay, row)
  {
    if on.Some? {
      var a, b := Resolve(on.value.l, m), Resolve(on.value.r, m);
      ResolveExact(on.value.l, m, lay);
      ResolveExact(on.value.r, m, lay);
      hide Resolve, Exact, Means;
      if Holds(on, row, m) {
        assert Matched(on.value, lay, row, a.value, b.value);
      }
      if Meets(on, lay, row) {
        var i, j :| Matched(on.value, lay, row, i, j);
        MeansOne(on.value.l, lay, a, Some(i));
        MeansOne(on.value.r, lay, b, Some(j));
      }
    }
  }
}
