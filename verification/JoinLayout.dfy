/** Where the columns of a join tree's rows are: the map the executor builds against the true slots. */
module JoinLayout {
  import opened Common
  import opened Rows

  type Name = string

  /** A key of the position map: a bare column name, or `alias.column`. */
  datatype Key = Bare(name: Name) | Qual(alias: Name, name: Name)

  type Positions = map<Key, nat>

  /** One physical slot of a row. */
  datatype Col = Col(alias: Name, name: Name)

  datatype Table = Table(cols: seq<Name>, rows: seq<Row>)

  datatype Kind = Inner | LeftOuter

  datatype Ref = Ref(table: Option<Name>, name: Name)

  /** `l = r`; the other ON shapes never reach the indexed operator. */
  datatype On = On(l: Ref, r: Ref)

  /** How a join node was emitted. `entries` is the index on `keyCol`: row ids by key. */
  datatype Operator = Nested | Indexed(keyCol: Name, leftKeyAlias: Option<Name>, entries: map<int, seq<nat>>)

  datatype Plan =
    | Scan(table: Table)
    | Join(left: Plan, aliasLeft: Option<Name>, right: Table, aliasRight: Name, on: Option<On>, kind: Kind,
           op: Operator)

  // ----- the executor's map

  /** A table's own positions, bare and, under an alias, qualified. */
  function TablePositions(cols: seq<Name>, alias: Option<Name>): Positions {
    if cols == [] then map[]
    else
      var n := |cols| - 1;
      var m := TablePositions(cols[..n], alias);
      if alias.Some? then WithColumn(m, n, alias.value, cols[n]) else m[Bare(cols[n]) := n]
  }

  /** `max(positions) + 1`, or 0 for an empty map. */
  ghost function WidthOf(m: Positions): nat
  {
    if m == map[] then 0
    else
      MaxExists(m);
      (var w: nat :| IsMax(m, w); w) + 1
  }

  ghost predicate IsMax(m: Positions, w: nat) {
    (exists k :: k in m && m[k] == w) && forall k | k in m :: m[k] <= w
  }

  /** The right side shifted: qualified entries always, bare ones unless the left has the name. */
  function Merge(l: Positions, r: Positions, offset: nat): Positions {
    map k | k in l.Keys + r.Keys :: if k in r && (k.Qual? || k !in l) then r[k] + offset else l[k]
  }

  /** `row_n2i_for_plan`. */
  ghost function PositionsOf(p: Plan, alias: Option<Name>): Positions {
    match p
    case Scan(t) => TablePositions(t.cols, alias)
    case Join(left, aliasLeft, right, aliasRight, _, _, _) =>
      var l := PositionsOf(left, aliasLeft);
      Merge(l, TablePositions(right.cols, Some(aliasRight)), WidthOf(l))
  }

  // ----- reference: the slots as the rows are built

  predicate Aliased(p: Plan, alias: Option<Name>) {
    match p
    case Scan(_) => alias.Some?
    case Join(left, aliasLeft, _, _, _, _, _) => Aliased(left, aliasLeft)
  }

  function ColsOf(cols: seq<Name>, alias: Name): (r: seq<Col>)
    ensures |r| == |cols| && forall i :: 0 <= i < |cols| ==> r[i] == Col(alias, cols[i])
  {
    seq(|cols|, i requires 0 <= i < |cols| => Col(alias, cols[i]))
  }

  /** Left columns, then right columns. */
  function Layout(p: Plan, alias: Option<Name>): seq<Col>
    requires Aliased(p, alias)
  {
    match p
    case Scan(t) => ColsOf(t.cols, alias.value)
    case Join(left, aliasLeft, right, aliasRight, _, _, _) => Layout(left, aliasLeft) + ColsOf(right.cols, aliasRight)
  }

  /** The map is exact: every qualified name gives its own slot, every bare name the first slot of
      that name, and there is nothing else in it. */
  ghost predicate Exact(m: Positions, lay: seq<Col>) {
    && (forall i :: 0 <= i < |lay| ==> QualExact(m, lay, i) && Bare(lay[i].name) in m)
    && (forall k | k in m :: KeyExact(m, lay, k))
  }

  ghost predicate QualExact(m: Positions, lay: seq<Col>, i: nat)
    requires i < |lay|
  {
    var k := Qual(lay[i].alias, lay[i].name);
    k in m && m[k] == i
  }

  ghost predicate KeyExact(m: Positions, lay: seq<Col>, k: Key)
    requires k in m
  {
    && m[k] < |lay| && lay[m[k]].name == k.name
    && (match k
        case Qual(a, _) => lay[m[k]].alias == a
        case Bare(n) => forall j :: 0 <= j < m[k] ==> lay[j].name != n)
  }

  lemma {:induction false} TableExact(cols: seq<Name>, alias: Name)
    requires Distinct(cols)
    ensures Exact(TablePositions(cols, Some(alias)), ColsOf(cols, alias))
  {
    if cols != [] {
      var n := |cols| - 1;
      TableExact(cols[..n], alias);
      assert ColsOf(cols, alias) == ColsOf(cols[..n], alias) + [Col(alias, cols[n])];
      AddColumn(TablePositions(cols[..n], Some(alias)), ColsOf(cols[..n], alias), alias, cols[n]);
    }
  }

  function WithColumn(m: Positions, n: nat, alias: Name, c: Name): Positions {
    var m1: Positions := m[Bare(c) := n];
    m1[Qual(alias, c) := n]
  }

  lemma AddColumn(m: Positions, lay: seq<Col>, alias: Name, c: Name)
    requires Exact(m, lay) && forall i :: 0 <= i < |lay| ==> lay[i].name != c
    ensures Exact(WithColumn(m, |lay|, alias, c), lay + [Col(alias, c)])
  {
    var m', lay' := WithColumn(m, |lay|, alias, c), lay + [Col(alias, c)];
    forall i | 0 <= i < |lay'| ensures QualExact(m', lay', i) && Bare(lay'[i].name) in m' {
      if i < |lay| {
        assert QualExact(m, lay, i) && lay'[i] == lay[i];
      }
    }
    forall k | k in m' ensures KeyExact(m', lay', k) {
      if k.name != c {
        assert KeyExact(m, lay, k) && lay'[m[k]] == lay[m[k]];
      } else {
        NotThere(m, lay, k);
      }
    }
  }

  lemma NotThere(m: Positions, lay: seq<Col>, k: Key)
    requires Exact(m, lay) && forall i :: 0 <= i < |lay| ==> lay[i].name != k.name
    ensures k !in m
  {
  }

  lemma {:induction false} MaxExists(m: Positions)
    requires m != map[]
    ensures exists w: nat :: IsMax(m, w)
    decreases |m|
  {
    var k := Member(m.Keys);
    var rest := m - {k};
    if rest == map[] {
      forall x | x in m ensures x == k {
        assert x == k || x in rest;
      }
      assert IsMax(m, m[k]);
    } else {
      assert rest.Keys < m.Keys;
      SmallerMap(rest, m);
      MaxExists(rest);
      var w: nat :| IsMax(rest, w);
      var w' := if m[k] > w then m[k] else w;
      assert IsMax(m, w') by {
        if w' == w {
          var x :| x in rest && rest[x] == w;
          assert x in m && m[x] == w;
        }
        forall x | x in m ensures m[x] <= w' {
          if x != k {
            assert x in rest;
          }
        }
      }
    }
  }

  lemma SmallerMap(a: Positions, b: Positions)
    requires a.Keys < b.Keys
    ensures |a| < |b|
  {
    assert |a| == |a.Keys| && |b| == |b.Keys|;
    var extra := b.Keys - a.Keys;
    assert b.Keys == a.Keys + extra && extra != {};
  }

  /** The offset the executor computes is the true width. */
  lemma WidthIs(m: Positions, lay: seq<Col>)
    requires Exact(m, lay)
    ensures WidthOf(m) == |lay|
  {
    if lay != [] {
      assert QualExact(m, lay, 0);
    }
    if m != map[] {
      MaxExists(m);
      var w: nat :| IsMax(m, w) && WidthOf(m) == w + 1;
      var k :| k in m && m[k] == w;
      assert KeyExact(m, lay, k);
      var last := |lay| - 1;
      assert QualExact(m, lay, last);
      assert m[Qual(lay[last].alias, lay[last].name)] <= w;
    }
  }

  lemma MergeExact(l: Positions, ll: seq<Col>, r: Positions, lr: seq<Col>)
    requires Exact(l, ll) && Exact(r, lr) && Distinct(ll + lr)
    ensures Exact(Merge(l, r, |ll|), ll + lr)
  {
    var m, lay := Merge(l, r, |ll|), ll + lr;
    forall i | 0 <= i < |lay| ensures QualExact(m, lay, i) && Bare(lay[i].name) in m {
      MergeQual(l, ll, r, lr, i);
    }
    forall k | k in m ensures KeyExact(m, lay, k) {
      MergeKey(l, ll, r, lr, k);
    }
  }

  lemma NotNamed(r: Positions, lr: seq<Col>, k: Key)
    requires Exact(r, lr) && k.Qual? && forall j :: 0 <= j < |lr| ==> lr[j] != Col(k.alias, k.name)
    ensures k !in r
  {
  }

  lemma MergeQual(l: Positions, ll: seq<Col>, r: Positions, lr: seq<Col>, i: nat)
    requires Exact(l, ll) && Exact(r, lr) && Distinct(ll + lr) && i < |ll + lr|
    ensures QualExact(Merge(l, r, |ll|), ll + lr, i) && Bare((ll + lr)[i].name) in Merge(l, r, |ll|)
  {
    var lay := ll + lr;
    if i < |ll| {
      assert QualExact(l, ll, i) && lay[i] == ll[i];
      var k := Qual(ll[i].alias, ll[i].name);
      forall j | 0 <= j < |lr| ensures lr[j] != ll[i] {
        assert lay[|ll| + j] != lay[i];
      }
      NotNamed(r, lr, k);
    } else {
      assert QualExact(r, lr, i - |ll|) && lay[i] == lr[i - |ll|];
    }
  }

  lemma MergeKey(l: Positions, ll: seq<Col>, r: Positions, lr: seq<Col>, k: Key)
    requires Exact(l, ll) && Exact(r, lr) && Distinct(ll + lr) && k in Merge(l, r, |ll|)
    ensures KeyExact(Merge(l, r, |ll|), ll + lr, k)
  {
    var m, lay := Merge(l, r, |ll|), ll + lr;
    if k in r && (k.Qual? || k !in l) {
      assert KeyExact(r, lr, k) && lay[m[k]] == lr[r[k]];
      if k.Bare? {
        forall j | 0 <= j < m[k] ensures lay[j].name != k.name {
          if j < |ll| {
            assert Bare(ll[j].name) in l && lay[j] == ll[j];
          } else {
            assert lay[j] == lr[j - |ll|];
          }
        }
      }
    } else {
      assert KeyExact(l, ll, k) && lay[m[k]] == ll[m[k]];
    }
  }

  /** Aliases are distinct and tables have distinct column names. */
  predicate WellNamed(p: Plan, alias: Option<Name>)
  {
    && Aliased(p, alias) && Distinct(Layout(p, alias))
    && (match p
        case Scan(t) => Distinct(t.cols)
        case Join(left, aliasLeft, right, _, _, _, _) => WellNamed(left, aliasLeft) && Distinct(right.cols))
  }

  /** `row_n2i_for_plan` gives every alias.column its true slot and every bare name the leftmost slot,
      at every nesting depth. */
  lemma {:induction false} PositionsAreExact(p: Plan, alias: Option<Name>)
    requires WellNamed(p, alias)
    ensures Exact(PositionsOf(p, alias), Layout(p, alias)) && WidthOf(PositionsOf(p, alias)) == |Layout(p, alias)|
    decreases p
  {
    match p
    case Scan(t) =>
      TableExact(t.cols, alias.value);
      WidthIs(PositionsOf(p, alias), Layout(p, alias));
    case Join(left, aliasLeft, right, aliasRight, _, _, _) =>
      PositionsAreExact(left, aliasLeft);
      TableExact(right.cols, aliasRight);
      MergeExact(PositionsOf(left, aliasLeft), Layout(left, aliasLeft),
                 TablePositions(right.cols, Some(aliasRight)), ColsOf(right.cols, aliasRight));
      WidthIs(PositionsOf(p, alias), Layout(p, alias));
  }
}
