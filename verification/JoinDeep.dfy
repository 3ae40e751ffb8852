/** Left-deep join trees of any depth: choosing the indexed operator does not change the result. */
module JoinDeep {
  import opened Common
  import opened Rows
  import opened JoinLayout
  import opened Join
  import opened JoinSlots
  import opened JoinProof

  /** What the planner requires of an indexed node: `left.column = right.column`, the right one qualified,
      the left one a column of the left side, and an index on the right column that agrees with the heap. */
  ghost predicate IndexedOk(p: Plan)
    requires p.Join? && Aliased(p.left, p.aliasLeft)
  {
    p.op.Indexed? ==>
      && p.on.Some? && IsLeft(p.on.value.l, Layout(p.left, p.aliasLeft))
      && p.on.value.r.table == Some(p.aliasRight) && p.on.value.r.name in p.right.cols
      && p.op.keyCol == p.on.value.r.name
      && p.op.leftKeyAlias == (if p.on.value.l.table.Some? then p.on.value.l.table else p.aliasLeft)
      && IndexAgrees(p.op.entries, p.right.rows, IndexIn(p.right.cols, p.op.keyCol))
  }

  predicate IsLeft(r: Ref, lay: seq<Col>) {
    if r.table.Some? then Col(r.table.value, r.name) in lay else Named(lay, r.name)
  }

  /** The slot of such a reference. */
  function LeftSlot(r: Ref, lay: seq<Col>): (i: nat)
    requires IsLeft(r, lay)
    ensures i < |lay| && Means(r, lay, Some(i))
  {
    if r.table.Some? then IndexIn(lay, Col(r.table.value, r.name)) else Leftmost(lay, r.name)
  }

  ghost predicate Sound(p: Plan, alias: Option<Name>) {
    && WellNamed(p, alias)
    && match p
       case Scan(t) => Wide(t.rows, |t.cols|)
       case Join(left, aliasLeft, right, _, _, _, _) =>
         Sound(left, aliasLeft) && Wide(right.rows, |right.cols|) && IndexedOk(p)
  }

  lemma {:induction false} SoundRuns(p: Plan, alias: Option<Name>)
    requires Sound(p, alias)
    ensures Runnable(p)
    decreases p
  {
    if p.Join? {
      SoundRuns(p.left, p.aliasLeft);
    }
  }

  ghost function NodeOf(p: Plan): Node
    requires p.Join? && p.op.Indexed? && Aliased(p.left, p.aliasLeft) && IndexedOk(p)
  {
    var lay := Layout(p.left, p.aliasLeft);
    Node(p.on, PositionsOf(p, None), |lay|, |p.right.cols|, LeftSlot(p.on.value.l, lay),
         IndexIn(p.right.cols, p.op.keyCol))
  }

  /** The alias handed down for the key is the one the left side has. */
  lemma SameLeft(p: Plan)
    requires p.Join? && p.op.Indexed? && Aliased(p.left, p.aliasLeft) && IndexedOk(p)
    ensures PositionsOf(p.left, p.op.leftKeyAlias) == PositionsOf(p.left, p.aliasLeft)
  {
    if p.left.Scan? && p.on.value.l.table.Some? {
      var c := Col(p.on.value.l.table.value, p.on.value.l.name);
      var i := IndexIn(Layout(p.left, p.aliasLeft), c);
    }
  }

  lemma NodeIsOk(p: Plan, alias: Option<Name>)
    requires p.Join? && p.op.Indexed? && Sound(p, alias)
    ensures NodeOk(NodeOf(p))
    ensures LeftKey(p.on, PositionsOf(p.left, p.op.leftKeyAlias), p.right.cols) == Some(NodeOf(p).i)
  {
    hide PositionsOf, Exact, IndexAgrees, Resolve, WidthOf;
    var n, ll, lay := NodeOf(p), Layout(p.left, p.aliasLeft), Layout(p, alias);
    PositionsAreExact(p, alias);
    PositionsAreExact(p.left, p.aliasLeft);
    SameLeft(p);
    JoinPositions(p, alias);
    assert Distinct(ll) && Distinct(lay);
    hide WellNamed, Means, LeftKey;
    var l, r := p.on.value.l, p.on.value.r;
    StaysLeft(l, ll, lay, n.i);
    assert lay[n.wl + n.j] == Col(p.aliasRight, p.right.cols[n.j]);
    ResolvesMeant(l, n.m, lay, n.i);
    ResolvesTo(n.m, lay, n.wl + n.j);
    ResolvesMeant(l, PositionsOf(p.left, p.aliasLeft), ll, n.i);
    LeftKeyIs(p);
  }

  lemma LeftKeyIs(p: Plan)
    requires p.Join? && p.op.Indexed? && p.on.Some? && p.on.value.r.name in p.right.cols
    ensures LeftKey(p.on, PositionsOf(p.left, p.op.leftKeyAlias), p.right.cols) ==
              Resolve(p.on.value.l, PositionsOf(p.left, p.op.leftKeyAlias))
  {
  }

  lemma ResolvesMeant(r: Ref, m: Positions, lay: seq<Col>, i: nat)
    requires Exact(m, lay) && Distinct(lay) && Means(r, lay, Some(i))
    ensures Resolve(r, m) == Some(i)
  {
    ResolveExact(r, m, lay);
    hide Resolve, Means, Exact;
    MeansOne(r, lay, Resolve(r, m), Some(i));
  }

  /** A column of the left side is what the reference means in the whole row too. */
  lemma StaysLeft(r: Ref, ll: seq<Col>, lay: seq<Col>, i: nat)
    requires IsLeft(r, ll) && Means(r, ll, Some(i)) && ll <= lay
    ensures i < |ll| && Means(r, lay, Some(i))
  {
    if r.table.Some? {
      assert lay[i] == ll[i];
    }
  }

  /** The planner also picks the index when the bare left reference is not a column of the left side. Then
      the operator yields nothing, whatever pairs the nested loop finds. */
  lemma BareOnTheRight(p: Plan, alias: Option<Name>)
    requires p.Join? && p.op.Indexed? && p.on.Some? && WellNamed(p, alias) && Runnable(p)
    requires p.on.value.l.table.None? && p.op.leftKeyAlias == p.aliasLeft
    requires !Named(Layout(p.left, p.aliasLeft), p.on.value.l.name)
    ensures Open(p) == []
    ensures forall l, r | l in Open(p.left) && r in p.right.rows && Meets(p.on, Layout(p, alias), l + r) ::
              l + r in Open(p.(op := Nested))
  {
    PlanResolves(p.left, p.aliasLeft, p.on.value.l);
    var q := p.(op := Nested);
    assert Layout(q, alias) == Layout(p, alias);
    assert WellNamed(q, alias);
    var at := NestedExact(q, alias);
    hide Layout, WellNamed, Meets, PositionsOf, Resolve;
    var ls, rs := Open(p.left), p.right.rows;
    forall l, r | l in ls && r in rs && Meets(p.on, Layout(p, alias), l + r) ensures l + r in Open(q) {
      var i, j := IndexIn(ls, l), IndexIn(rs, r);
      var a := Pairing(i, Some(j));
      assert Belongs(a, ls, rs, Good(p.on, Layout(p, alias)), p.kind == LeftOuter);
      assert a in at;
      var x := IndexIn(at, a);
      assert Open(q)[x] == l + r;
    }
  }

  lemma JoinPositions(p: Plan, alias: Option<Name>)
    requires p.Join?
    ensures PositionsOf(p, alias) == PositionsOf(p, None)
  {
  }

  lemma ResolvesTo(m: Positions, lay: seq<Col>, i: nat)
    requires Exact(m, lay) && i < |lay|
    ensures Resolve(Ref(Some(lay[i].alias), lay[i].name), m) == Some(i)
  {
    assert QualExact(m, lay, i);
  }

  // ----- widths

  lemma {:induction false} HitsWide(l: Row, rs: seq<Row>, on: Option<On>, m: Positions, w: nat)
    requires Wide(rs, w)
    ensures Wide(Hits(l, rs, on, m), |l| + w)
    decreases |rs|
  {
    if rs != [] {
      HitsWide(l, rs[..|rs| - 1], on, m, w);
      hide Holds;
    }
  }

  lemma {:induction false} NestedWide(ls: seq<Row>, rs: seq<Row>, on: Option<On>, m: Positions, pad: bool, wl: nat,
                                      w: nat)
    requires Wide(ls, wl) && Wide(rs, w)
    ensures Wide(NestedRows(ls, rs, on, m, pad, w), wl + w)
    decreases |ls|
  {
    if ls != [] {
      var k := |ls| - 1;
      NestedWide(ls[..k], rs, on, m, pad, wl, w);
      HitsWide(ls[k], rs, on, m, w);
    }
  }

  lemma {:induction false} IndexedWide(ls: seq<Row>, key: nat, rs: seq<Row>, entries: map<int, seq<nat>>,
                                       on: Option<On>, m: Positions,
                                       pad: bool, wl: nat, w: nat)
    requires InTable(entries, |rs|) && Wide(ls, wl) && Wide(rs, w)
    ensures Wide(IndexedRows(ls, key, rs, entries, on, m, pad, w), wl + w)
    decreases |ls|
  {
    if ls != [] {
      var k := |ls| - 1;
      IndexedWide(ls[..k], key, rs, entries, on, m, pad, wl, w);
      hide IndexedBlock;
      IndexedBlockWide(ls[k], key, rs, entries, on, m, pad, w);
    }
  }

  lemma IndexedBlockWide(l: Row, key: nat, rs: seq<Row>, entries: map<int, seq<nat>>, on: Option<On>, m: Positions,
                         pad: bool, w: nat)
    requires InTable(entries, |rs|) && Wide(rs, w)
    ensures Wide(IndexedBlock(l, key, rs, entries, on, m, pad, w), |l| + w)
  {
    hide Hits;
    if key < |l| && l[key] != Null {
      HitsWide(l, Fetch(rs, EntriesAt(entries, l[key].n)), on, m, w);
    }
  }

  /** Every row is as wide as the layout says. */
  lemma {:induction false} OpenWide(p: Plan, alias: Option<Name>)
    requires Sound(p, alias) && Runnable(p)
    ensures Wide(Open(p), |Layout(p, alias)|)
    decreases p
  {
    if p.Join? {
      OpenWide(p.left, p.aliasLeft);
      var ls, m, wl, w := Open(p.left), PositionsOf(p, None), |Layout(p.left, p.aliasLeft)|, |p.right.cols|;
      var pad := p.kind == LeftOuter;
      hide PositionsOf, NestedRows, IndexedRows;
      if p.op.Nested? {
        NestedWide(ls, p.right.rows, p.on, m, pad, wl, w);
      } else {
        var key := LeftKey(p.on, PositionsOf(p.left, p.op.leftKeyAlias), p.right.cols);
        if key.Some? {
          IndexedWide(ls, key.value, p.right.rows, p.op.entries, p.on, m, pad, wl, w);
        }
      }
    }
  }

  // ----- the theorem

  /** The same tree with every node a nested loop. */
  function Plain(p: Plan): Plan {
    match p
    case Scan(_) => p
    case Join(left, aliasLeft, right, aliasRight, on, kind, _) => Join(Plain(left), aliasLeft, right, aliasRight, on,
                                                                       kind, Nested)
  }

  lemma {:induction false} PlainSame(p: Plan, alias: Option<Name>)
    ensures PositionsOf(Plain(p), alias) == PositionsOf(p, alias) && Runnable(Plain(p))
    decreases p
  {
    if p.Join? {
      PlainSame(p.left, p.aliasLeft);
    }
  }

  /** At every indexed node, no NULL key on the left meets a NULL key on the right. */
  ghost predicate Clean(p: Plan, alias: Option<Name>)
    requires Sound(p, alias) && Runnable(p)
    decreases p
  {
    p.Join? ==>
      && Clean(p.left, p.aliasLeft)
      && (p.op.Indexed? ==> NodeOk(NodeOf(p)) && NoClash(NodeOf(p), Open(p.left), p.right.rows, p.kind == LeftOuter))
  }

  /** The whole tree yields the same rows, up to order, whichever joins use an index. */
  lemma {:induction false} IndexesDoNotMatter(p: Plan, alias: Option<Name>)
    requires Sound(p, alias) && Runnable(p) && Clean(p, alias)
    ensures Runnable(Plain(p)) && multiset(Open(p)) == multiset(Open(Plain(p)))
    decreases p
  {
    PlainSame(p, alias);
    if p.Join? {
      IndexesDoNotMatter(p.left, p.aliasLeft);
      PlainSame(p, None);
      var ls, m, w, pad := Open(p.left), PositionsOf(p, None), |p.right.cols|, p.kind == LeftOuter;
      NestedBag(ls, Open(Plain(p.left)), p.right.rows, p.on, m, pad, w);
      if p.op.Indexed? {
        NodeIsOk(p, alias);
        OpenWide(p.left, p.aliasLeft);
        NodeAgrees(NodeOf(p), ls, p.right.rows, p.op.entries, pad);
      }
      hide PositionsOf, NestedRows, IndexedRows, IndexAgrees, WellNamed;
    }
  }

  /** In particular when the right key columns hold no NULL. */
  ghost predicate NoNullKeys(p: Plan)
  {
    p.Join? ==>
      NoNullKeys(p.left) &&
      (p.op.Indexed? && p.op.keyCol in p.right.cols ==>
         NullKeyed(p.right.rows, IndexIn(p.right.cols, p.op.keyCol)) == [])
  }

  lemma {:induction false} NoNullKeysIsClean(p: Plan, alias: Option<Name>)
    requires Sound(p, alias) && Runnable(p) && NoNullKeys(p)
    ensures Clean(p, alias)
    decreases p
  {
    if p.Join? {
      NoNullKeysIsClean(p.left, p.aliasLeft);
      if p.op.Indexed? {
        NodeIsOk(p, alias);
      }
    }
  }

  // ----- the planner's choice

  datatype Choice = Choice(keyCol: Name, leftKeyAlias: Option<Name>)

  predicate BelongsRight(r: Ref, alias: Name, table: Name) {
    r.table == Some(alias) || r.table == Some(table)
  }

  /** `_try_indexed_join`: the right table is `table` under `alias`; `indexed` are its indexed columns. */
  function TryIndexed(on: Option<On>, alias: Name, table: Name, aliasLeft: Option<Name>,
                      indexed: set<Name>): Option<Choice> {
    if on.None? then None
    else
      var l, r := on.value.l, on.value.r;
      if BelongsRight(r, alias, table) then
        if r.name in indexed then Some(Choice(r.name, if l.table.Some? then l.table else aliasLeft)) else None
      else if BelongsRight(l, alias, table) then
        if l.name in indexed then Some(Choice(l.name, if r.table.Some? then r.table else aliasLeft)) else None
      else None
  }

  /** A nested LEFT join yields at least one row per left row. */
  lemma {:induction false} LeftJoinKeepsRows(ls: seq<Row>, rs: seq<Row>, on: Option<On>, m: Positions, w: nat)
    ensures |NestedRows(ls, rs, on, m, true, w)| >= |ls|
    decreases |ls|
  {
    if ls != [] {
      LeftJoinKeepsRows(ls[..|ls| - 1], rs, on, m, w);
    }
  }
}
