/** ON with its sides swapped, `right.c = left.d`: the planner still picks the index on `right.c`, but the
    operator looks for its key under the name `c` on the left. Exactly when the result is still right. */
module JoinSwapped {
  import opened Common
  import opened Rows
  import opened JoinLayout
  import opened Join
  import opened JoinSlots
  import opened JoinProof
  import opened JoinDeep

  /** An indexed node with the right table's column on the left of `=`. */
  ghost predicate Swapped(p: Plan, alias: Option<Name>) {
    && p.Join? && p.op.Indexed? && p.on.Some? && WellNamed(p, alias)
    && p.on.value.l == Ref(Some(p.aliasRight), p.op.keyCol) && p.op.keyCol in p.right.cols
    && IsLeft(p.on.value.r, Layout(p.left, p.aliasLeft))
    && p.op.leftKeyAlias == (if p.on.value.r.table.Some? then p.on.value.r.table else p.aliasLeft)
  }

  /** The node as the ON clause means it. */
  ghost function Meant(p: Plan): Node
    requires p.Join? && p.op.Indexed? && p.on.Some? && Aliased(p.left, p.aliasLeft)
    requires IsLeft(p.on.value.r, Layout(p.left, p.aliasLeft))
    requires p.op.keyCol in p.right.cols
  {
    var lay := Layout(p.left, p.aliasLeft);
    Node(Some(On(p.on.value.r, p.on.value.l)), PositionsOf(p, None), |lay|, |p.right.cols|,
         LeftSlot(p.on.value.r, lay), IndexIn(p.right.cols, p.op.keyCol))
  }

  /** The left slot the operator takes the key from. */
  ghost function KeySlot(p: Plan): Option<nat>
    requires p.Join? && p.op.Indexed?
  {
    LeftKey(p.on, PositionsOf(p.left, p.op.leftKeyAlias), p.right.cols)
  }

  /** What the operator yields on given rows; `Open` is this on the plan's own rows. */
  ghost function IndexedOut(p: Plan, ls: seq<Row>, rs: seq<Row>, entries: map<int, seq<nat>>, pad: bool): seq<Row>
    requires p.Join? && p.op.Indexed? && InTable(entries, |rs|)
  {
    match KeySlot(p)
    case None => []
    case Some(key) => IndexedRows(ls, key, rs, entries, p.on, PositionsOf(p, None), pad, |p.right.cols|)
  }

  lemma OpenIsIndexedOut(p: Plan)
    requires p.Join? && p.op.Indexed? && Runnable(p)
    ensures Open(p) == IndexedOut(p, Open(p.left), p.right.rows, p.op.entries, p.kind == LeftOuter)
  {
  }

  // ----- what the planner chooses

  /** The operator the planner emits for a join whose right table has these indexes. */
  function OperatorFor(on: Option<On>, alias: Name, table: Name, aliasLeft: Option<Name>,
                       indexes: map<Name, map<int, seq<nat>>>): Operator {
    match TryIndexed(on, alias, table, aliasLeft, indexes.Keys)
    case None => Nested
    case Some(c) => if c.keyCol in indexes then Indexed(c.keyCol, c.leftKeyAlias, indexes[c.keyCol]) else Nested
  }

  /** For every ON between a left column and a column of the right table: with an index on the right one the
      planner emits the indexed join that `IndexesDoNotMatter` is about, or, written the other way round,
      the one that `SwappedExact` is about; without, the nested loop. */
  lemma PlannedJoin(p: Plan, alias: Option<Name>, table: Name, l: Ref, r: Ref,
                    indexes: map<Name, map<int, seq<nat>>>)
    requires p.Join? && WellNamed(p, alias) && p.on in {Some(On(l, r)), Some(On(r, l))}
    requires p.op == OperatorFor(p.on, p.aliasRight, table, p.aliasLeft, indexes)
    requires IsLeft(l, Layout(p.left, p.aliasLeft)) && (l.table.Some? ==> l.table.value !in {p.aliasRight, table})
    requires r.table in {Some(p.aliasRight), Some(table)} && r.name in p.right.cols
    requires forall c | c in indexes ::
               c in p.right.cols && IndexAgrees(indexes[c], p.right.rows, IndexIn(p.right.cols, c))
    ensures p.op.Indexed? <==> r.name in indexes
    ensures p.op.Indexed? && r.table == Some(p.aliasRight) ==>
              if p.on == Some(On(l, r)) then IndexedOk(p) else Swapped(p, alias)
  {
    hide Layout, WellNamed, IndexAgrees, IsLeft;
  }

  // ----- equality is symmetric

  lemma {:induction false} HitsSwap(l: Row, rs: seq<Row>, a: Ref, b: Ref, m: Positions)
    ensures Hits(l, rs, Some(On(a, b)), m) == Hits(l, rs, Some(On(b, a)), m)
    decreases |rs|
  {
    if rs != [] {
      HitsSwap(l, rs[..|rs| - 1], a, b, m);
    }
  }

  lemma {:induction false} NestedSwap(ls: seq<Row>, rs: seq<Row>, a: Ref, b: Ref, m: Positions, pad: bool, w: nat)
    ensures NestedRows(ls, rs, Some(On(a, b)), m, pad, w) == NestedRows(ls, rs, Some(On(b, a)), m, pad, w)
    decreases |ls|
  {
    if ls != [] {
      NestedSwap(ls[..|ls| - 1], rs, a, b, m, pad, w);
      HitsSwap(ls[|ls| - 1], rs, a, b, m);
    }
  }

  lemma {:induction false} IndexedSwap(ls: seq<Row>, key: nat, rs: seq<Row>, entries: map<int, seq<nat>>, a: Ref,
                                       b: Ref, m: Positions, pad: bool, w: nat)
    requires InTable(entries, |rs|)
    ensures IndexedRows(ls, key, rs, entries, Some(On(a, b)), m, pad, w)
            == IndexedRows(ls, key, rs, entries, Some(On(b, a)), m, pad, w)
    decreases |ls|
  {
    if ls != [] {
      var l := ls[|ls| - 1];
      IndexedSwap(ls[..|ls| - 1], key, rs, entries, a, b, m, pad, w);
      if key < |l| && l[key] != Null {
        HitsSwap(l, Fetch(rs, EntriesAt(entries, l[key].n)), a, b, m);
      }
    }
  }

  // ----- where the key comes from

  lemma MeantIsOk(p: Plan, alias: Option<Name>)
    requires Swapped(p, alias)
    ensures NodeOk(Meant(p))
  {
    hide PositionsOf, Exact, Resolve, WidthOf;
    var n, ll, lay := Meant(p), Layout(p.left, p.aliasLeft), Layout(p, alias);
    PositionsAreExact(p, alias);
    JoinPositions(p, alias);
    assert Distinct(lay);
    hide WellNamed, Means;
    assert lay[n.wl + n.j] == Col(p.aliasRight, p.right.cols[n.j]);
    StaysLeft(p.on.value.r, ll, lay, n.i);
    ResolvesMeant(p.on.value.r, n.m, lay, n.i);
    ResolvesTo(n.m, lay, n.wl + n.j);
  }

  /** The alias handed down is the left table's own, or is not used. */
  lemma SameLeftPositions(p: Plan, alias: Option<Name>)
    requires Swapped(p, alias)
    ensures PositionsOf(p.left, p.op.leftKeyAlias) == PositionsOf(p.left, p.aliasLeft)
  {
    if p.left.Scan? && p.on.value.r.table.Some? {
      var i := IndexIn(Layout(p.left, p.aliasLeft), Col(p.on.value.r.table.value, p.on.value.r.name));
    }
  }

  lemma BareResolves(m: Positions, lay: seq<Col>, alias: Name, name: Name)
    requires Exact(m, lay) && forall q :: 0 <= q < |lay| ==> lay[q] != Col(alias, name)
    ensures Resolve(Ref(Some(alias), name), m).None? <==> !Named(lay, name)
    ensures Resolve(Ref(Some(alias), name), m).Some? ==> FirstOf(lay, name, Resolve(Ref(Some(alias), name), m).value)
  {
    ResolveExact(Ref(Some(alias), name), m, lay);
  }

  /** The key is taken from the leftmost left column that has the right column's name; there is none, and
      the operator yields nothing, exactly when no left column has it or the left column's own name is
      not a name on the right. */
  lemma KeySlotIs(p: Plan, alias: Option<Name>)
    requires Swapped(p, alias)
    ensures var lay := Layout(p.left, p.aliasLeft);
            && (KeySlot(p).None? <==> p.on.value.r.name !in p.right.cols || !Named(lay, p.op.keyCol))
            && (KeySlot(p).Some? ==> FirstOf(lay, p.op.keyCol, KeySlot(p).value))
  {
    var ll, m := Layout(p.left, p.aliasLeft), PositionsOf(p.left, p.aliasLeft);
    PositionsAreExact(p.left, p.aliasLeft);
    KeySlotResolves(p, alias);
    RightNotLeft(p, alias);
    hide *;
    BareResolves(m, ll, p.aliasRight, p.op.keyCol);
  }

  /** The operator looks the right column's reference up on the left. */
  lemma KeySlotResolves(p: Plan, alias: Option<Name>)
    requires Swapped(p, alias)
    ensures KeySlot(p) ==
              if p.on.value.r.name !in p.right.cols then None
              else Resolve(Ref(Some(p.aliasRight), p.op.keyCol), PositionsOf(p.left, p.aliasLeft))
  {
    SameLeftPositions(p, alias);
    hide PositionsOf, Resolve, Layout, WellNamed;
  }

  lemma RightNotLeft(p: Plan, alias: Option<Name>)
    requires Swapped(p, alias)
    ensures var ll := Layout(p.left, p.aliasLeft); forall q :: 0 <= q < |ll| ==> ll[q] != Col(p.aliasRight, p.op.keyCol)
  {
    var ll, lr := Layout(p.left, p.aliasLeft), ColsOf(p.right.cols, p.aliasRight);
    var j := IndexIn(p.right.cols, p.op.keyCol);
    assert Layout(p, alias) == ll + lr;
    forall q | 0 <= q < |ll| ensures ll[q] != Col(p.aliasRight, p.op.keyCol) {
      assert (ll + lr)[q] != (ll + lr)[|ll| + j];
    }
  }

  // ----- the theorem

  /** On rows without NULL keys on the right, the operator agrees with the nested loop. */
  ghost predicate AgreesOn(p: Plan, n: Node, ls: seq<Row>, rs: seq<Row>, entries: map<int, seq<nat>>, pad: bool)
    requires p.Join? && p.op.Indexed?
  {
    Wide(ls, n.wl) && Wide(rs, n.w) && IndexAgrees(entries, rs, n.j) && NullKeyed(rs, n.j) == [] ==>
      multiset(IndexedOut(p, ls, rs, entries, pad)) == multiset(NestedRows(ls, rs, p.on, n.m, pad, n.w))
  }

  /** Swapped sides are harmless, on all rows, exactly when both columns have the same name and no left
      column before it has that name: only then is the key taken from the right place. */
  lemma SwappedExact(p: Plan, alias: Option<Name>, pad: bool)
    requires Swapped(p, alias)
    ensures (forall ls, rs, entries :: AgreesOn(p, Meant(p), ls, rs, entries, pad)) <==>
              FirstOf(Layout(p.left, p.aliasLeft), p.op.keyCol, Meant(p).i)
  {
    var n := Meant(p);
    MeantIsOk(p, alias);
    KeySlotIs(p, alias);
    if FirstOf(Layout(p.left, p.aliasLeft), p.op.keyCol, n.i) {
      SameNameSameKey(p, alias);
      hide KeySlot;
      forall ls, rs, entries ensures AgreesOn(p, n, ls, rs, entries, pad) {
        RightKeyAgrees(p, n, ls, rs, entries, pad);
      }
    } else {
      WrongKeyDiffers(p, alias, pad);
    }
  }

  /** The whole tree: a swapped join on top of sound joins of any depth yields, up to order, what nested
      loops yield throughout, when the column meant is the leftmost one with its name. */
  lemma SwappedTree(p: Plan, alias: Option<Name>)
    requires Swapped(p, alias) && FirstOf(Layout(p.left, p.aliasLeft), p.op.keyCol, Meant(p).i)
    requires Sound(p.left, p.aliasLeft) && Runnable(p.left) && Clean(p.left, p.aliasLeft)
    requires Wide(p.right.rows, |p.right.cols|) && IndexAgrees(p.op.entries, p.right.rows, Meant(p).j)
    requires NullKeyed(p.right.rows, Meant(p).j) == []
    ensures Runnable(p) && Runnable(Plain(p)) && multiset(Open(p)) == multiset(Open(Plain(p)))
  {
    var n, ls, rs, pad := Meant(p), Open(p.left), p.right.rows, p.kind == LeftOuter;
    IndexesDoNotMatter(p.left, p.aliasLeft);
    PlainSame(p, None);
    OpenIsIndexedOut(p);
    OpenWide(p.left, p.aliasLeft);
    hide PositionsOf, NestedRows, IndexedOut, IndexAgrees, WellNamed, FirstOf, NullKeyed, Clean, Sound;
    SwappedExact(p, alias, pad);
    assert AgreesOn(p, n, ls, rs, p.op.entries, pad);
    NestedBag(ls, Open(Plain(p.left)), rs, p.on, n.m, pad, n.w);
  }

  lemma SameNameSameKey(p: Plan, alias: Option<Name>)
    requires Swapped(p, alias) && FirstOf(Layout(p.left, p.aliasLeft), p.op.keyCol, Meant(p).i)
    ensures KeySlot(p) == Some(Meant(p).i)
  {
    var lay, n := Layout(p.left, p.aliasLeft), Meant(p);
    KeySlotIs(p, alias);
    assert lay[n.i].name == p.on.value.r.name;
    assert Named(lay, p.op.keyCol);
  }

  lemma RightKeyAgrees(p: Plan, n: Node, ls: seq<Row>, rs: seq<Row>, entries: map<int, seq<nat>>, pad: bool)
    requires p.Join? && p.op.Indexed? && p.on.Some? && KeySlot(p) == Some(n.i) && NodeOk(n)
    requires n.on == Some(On(p.on.value.r, p.on.value.l)) && n.m == PositionsOf(p, None) && n.w == |p.right.cols|
    ensures AgreesOn(p, n, ls, rs, entries, pad)
  {
    if Wide(ls, n.wl) && Wide(rs, n.w) && IndexAgrees(entries, rs, n.j) && NullKeyed(rs, n.j) == [] {
      var a, b := p.on.value.l, p.on.value.r;
      NodeAgrees(n, ls, rs, entries, pad);
      hide IndexedRows, NestedRows, NodeOk;
      NestedSwap(ls, rs, a, b, n.m, pad, n.w);
      IndexedSwap(ls, n.i, rs, entries, a, b, n.m, pad, n.w);
    }
  }

  function Uniform(w: nat, v: Val): Row {
    seq(w, _ => v)
  }

  /** One left row whose meant key is 1 and whose other columns are 2, one right row of 1s. */
  lemma WrongKeyDiffers(p: Plan, alias: Option<Name>, pad: bool)
    requires Swapped(p, alias) && NodeOk(Meant(p)) && !FirstOf(Layout(p.left, p.aliasLeft), p.op.keyCol, Meant(p).i)
    ensures exists ls, rs, entries :: !AgreesOn(p, Meant(p), ls, rs, entries, pad)
  {
    hide AgreesOn, KeySlot, PositionsOf, Distinct, NodeOk;
    var n := Meant(p);
    KeySlotIs(p, alias);
    NodeBounds(n);
    var l, r := TwoRows(n);
    DiffersOn(p, n, l, r, pad);
  }

  lemma TwoRows(n: Node) returns (l: Row, r: Row)
    requires n.i < n.wl && n.j < n.w
    ensures |l| == n.wl && |r| == n.w && l[n.i] == V(1) && r[n.j] == V(1) && forall q :: 0 <= q < n.wl && q != n.i ==>
              l[q] == V(2)
  {
    l, r := Uniform(n.wl, V(2))[n.i := V(1)], Uniform(n.w, V(1));
  }

  lemma DiffersOn(p: Plan, n: Node, l: Row, r: Row, pad: bool)
    requires p.Join? && p.op.Indexed? && p.on.Some? && NodeOk(n) && n.on == Some(On(p.on.value.r, p.on.value.l))
             && n.w == |p.right.cols|
    requires |l| == n.wl && |r| == n.w && l[n.i] == V(1) && r[n.j] == V(1)
    requires KeySlot(p).Some? ==> KeySlot(p).value < |l| && l[KeySlot(p).value] == V(2)
    ensures !AgreesOn(p, n, [l], [r], map[1 := [0 as nat]], pad)
  {
    hide KeySlot, NodeOk, IndexAgrees, NestedRows, NullKeyed, IndexedOut;
    var entries := map[1 := [0 as nat]];
    assert n.i < n.wl && n.j < n.w by { NodeBounds(n); }
    OneNotNull(r, n.j);
    OneRowIndex(r, n.j);
    MeantMatches(p, n, l, r, pad);
    WrongKeyMisses(p, n, l, r, pad);
    var out, nested := IndexedOut(p, [l], [r], entries, pad), NestedRows([l], [r], p.on, n.m, pad, n.w);
    assert l + r in multiset(nested) && l + r !in multiset(out);
  }

  lemma NodeBounds(n: Node)
    requires NodeOk(n)
    ensures n.i < n.wl && n.j < n.w
  {
  }

  lemma OneNotNull(r: Row, j: nat)
    requires j < |r| && r[j] != Null
    ensures NullKeyed([r], j) == []
  {
    var p := KeyIs(j, Null);
    assert !p([r][0]) && [r][..0] == [];
    assert Matching([r], p) == Matching([], p) + [];
  }

  lemma OneRowIndex(r: Row, j: nat)
    requires j < |r| && r[j] == V(1)
    ensures IndexAgrees(map[1 := [0 as nat]], [r], j)
  {
    var entries := map[1 := [0 as nat]];
    forall k ensures Covers(EntriesAt(entries, k), [r], KeyIs(j, V(k))) {
      if k != 1 {
        assert EntriesAt(entries, k) == [];
      }
    }
  }

  lemma MeantMatches(p: Plan, n: Node, l: Row, r: Row, pad: bool)
    requires p.Join? && p.on.Some? && n.on == Some(On(p.on.value.r, p.on.value.l)) && NodeOk(n)
    requires |l| == n.wl && |r| == n.w && l[n.i] == r[n.j]
    ensures l + r in NestedRows([l], [r], p.on, n.m, pad, n.w)
  {
    HoldsIs(n, l, r);
    assert Hits(l, [r], n.on, n.m) == [l + r] by { assert [r][..0] == []; }
    HitsSwap(l, [r], p.on.value.l, p.on.value.r, n.m);
    assert [l][..0] == [];
  }

  lemma WrongKeyMisses(p: Plan, n: Node, l: Row, r: Row, pad: bool)
    requires p.Join? && p.op.Indexed? && |l| == n.wl && |r| == n.w == |p.right.cols| && n.j < n.w && r[n.j] != Null
    requires KeySlot(p).Some? ==> KeySlot(p).value < |l| && l[KeySlot(p).value] == V(2)
    ensures InTable(map[1 := [0 as nat]], 1) && l + r !in IndexedOut(p, [l], [r], map[1 := [0 as nat]], pad)
  {
    var entries := map[1 := [0 as nat]];
    assert l + r != l + Nulls(n.w) by { assert (l + r)[n.wl + n.j] != (l + Nulls(n.w))[n.wl + n.j]; }
    if KeySlot(p).Some? {
      var key, m := KeySlot(p).value, PositionsOf(p, None);
      hide PositionsOf;
      assert Fetch([r], EntriesAt(entries, 2)) == [];
      assert IndexedBlock(l, key, [r], entries, p.on, m, pad, n.w) == if pad then [l + Nulls(n.w)] else [];
      assert [l][..0] == [] && [l][0] == l;
      assert IndexedRows([l], key, [r], entries, p.on, m, pad, n.w)
             == IndexedBlock(l, key, [r], entries, p.on, m, pad, n.w);
    }
  }

  /** Both ways of going wrong occur, for an INNER and for a LEFT join: with different names, whether the
      operator finds no key or a wrong one, some rows come out wrong. */
  lemma DifferentNamesGoWrong(p: Plan, alias: Option<Name>, pad: bool)
    requires Swapped(p, alias) && p.on.value.r.name != p.op.keyCol
    ensures exists ls, rs, entries :: !AgreesOn(p, Meant(p), ls, rs, entries, pad)
  {
    MeantIsOk(p, alias);
    WrongKeyDiffers(p, alias, pad);
  }

  /** `a JOIN b ON b.y = a.x`, with and without a column y on a and a column x on b. */
  lemma SwappedExamples()
    ensures Swapped(Example(["x"], ["y"]), None) && KeySlot(Example(["x"], ["y"])) == None
    ensures Swapped(Example(["x", "y"], ["y", "x"]), None) && KeySlot(Example(["x", "y"], ["y", "x"])) == Some(1)
  {
    var p, q := Example(["x"], ["y"]), Example(["x", "y"], ["y", "x"]);
    ExampleSwapped(["x"], ["y"]);
    ExampleSwapped(["x", "y"], ["y", "x"]);
    KeySlotIs(p, None);
    KeySlotIs(q, None);
    assert Layout(p.left, p.aliasLeft) == [Col("a", "x")];
    assert Layout(q.left, q.aliasLeft) == [Col("a", "x"), Col("a", "y")];
    assert Layout(q.left, q.aliasLeft)[1].name == "y";
  }

  function Example(left: seq<Name>, right: seq<Name>): Plan {
    Join(Scan(Table(left, [])), Some("a"), Table(right, []), "b",
         Some(On(Ref(Some("b"), "y"), Ref(Some("a"), "x"))), Inner, Indexed("y", Some("a"), map[]))
  }

  lemma ExampleSwapped(left: seq<Name>, right: seq<Name>)
    requires Distinct(left) && Distinct(right) && "x" in left && "y" in right
    ensures Swapped(Example(left, right), None)
  {
    var p := Example(left, right);
    var i := IndexIn(left, "x");
    var a, b := ColsOf(left, "a"), ColsOf(right, "b");
    assert a[i] == Col("a", "x") && Layout(p.left, p.aliasLeft) == a && Layout(p, None) == a + b;
    assert "a"[0] != "b"[0];
    forall q, r | 0 <= q < r < |a + b| ensures (a + b)[q] != (a + b)[r] {
      if r < |a| {
        assert left[q] != left[r];
      } else if q >= |a| {
        assert right[q - |a|] != right[r - |a|];
      }
    }
    assert Distinct(a) && WellNamed(p.left, p.aliasLeft);
  }
}
