/** Choosing an index scan for a WHERE clause, and exactly when that choice keeps the query's meaning. */
module IndexPlan {
  import opened Common
  import opened BTree
  import opened BTreeChain
  import opened Expressions
  import Rows

  type Val = Rows.Val
  type Row = Rows.Row

  // ----- extraction

  datatype Pred = Pred(column: nat, op: Cmp, value: int, hiOp: Option<Cmp>, hiValue: int)

  predicate Lower(op: Cmp) { op == Gt || op == Ge }

  predicate Upper(op: Cmp) { op == Lt || op == Le }

  /** `_single_bound`: `column op literal`, and `literal op column` with the operator as it stands. */
  function SingleBound(e: Expr, ncols: nat): Option<Pred> {
    if !e.Compare? || e.op == Ne then None
    else if e.l.Column? && e.l.c < ncols && e.r.Lit? then
      if e.r.v == Rows.Null then None else Some(Pred(e.l.c, e.op, e.r.v.n, None, 0))
    else if e.r.Column? && e.r.c < ncols && e.l.Lit? then
      if e.l.v == Rows.Null then None else Some(Pred(e.r.c, e.op, e.l.v.n, None, 0))
    else None
  }

  function Both(a: Pred, b: Pred): Pred {
    Pred(a.column, a.op, a.value, Some(b.op), b.value)
  }

  function MergeLower(a: Pred, b: Pred): Pred {
    if a.op == Gt && b.op == Ge then if a.value >= b.value then a else b
    else if a.op == Ge && b.op == Gt then if b.value >= a.value then b else a
    else if a.value > b.value then a
    else if b.value > a.value then b
    else if a.op == Gt then a else b
  }

  function MergeUpper(a: Pred, b: Pred): Pred {
    if a.op == Lt && b.op == Le then if a.value <= b.value then a else b
    else if a.op == Le && b.op == Lt then if b.value <= a.value then b else a
    else if a.value < b.value then a
    else if b.value < a.value then b
    else if a.op == Lt then a else b
  }

  /** `_merge_same_column`. */
  function MergeSame(a: Pred, b: Pred): Pred {
    if Lower(a.op) && Upper(b.op) then Both(a, b)
    else if Upper(a.op) && Lower(b.op) then Both(b, a)
    else if Lower(a.op) && Lower(b.op) then MergeLower(a, b)
    else if Upper(a.op) && Upper(b.op) then MergeUpper(a, b)
    else Both(a, b)
  }

  /** `extract_indexable`. */
  function Extract(where: Expr, ncols: nat): Option<Pred> {
    match where
    case And(l, r) =>
      var a, b := Extract(l, ncols), Extract(r, ncols);
      if a.None? || b.None? || a.value.column != b.value.column then None else Some(MergeSame(a.value, b.value))
    case _ => SingleBound(where, ncols)
  }

  /** `_try_index_plan`: the ends of the scan. */
  function ScanBounds(p: Pred): Bounds {
    if p.hiOp.None? then
      if p.op == Eq then Bounds(Some(p.value), true, Some(p.value), true)
      else Bounds(Some(p.value), p.op in {Eq, Ge, Le}, None, true)
    else Bounds(Some(p.value), p.op in {Eq, Ge, Le}, Some(p.hiValue), p.hiOp.value in {Eq, Le, Ge})
  }

  // ----- the meaning of a column-first AND tree

  /** A comparison of the column with a literal, on either side. */
  predicate ColumnLeaf(e: Expr, col: nat) {
    e.Compare? && e.op != Ne
    && ((e.l == Column(col) && e.r.Lit? && e.r.v != Rows.Null)
        || (e.r == Column(col) && e.l.Lit? && e.l.v != Rows.Null))
  }

  /** AND of such comparisons. */
  predicate OneColumn(where: Expr, col: nat) {
    match where
    case And(l, r) => OneColumn(l, col) && OneColumn(r, col)
    case _ => ColumnLeaf(where, col)
  }

  /** The column stands on the left throughout. */
  predicate ColumnFirst(where: Expr) {
    match where
    case And(l, r) => ColumnFirst(l) && ColumnFirst(r)
    case Compare(_, l, _) => l.Column?
    case _ => true
  }

  /** `literal op column` read from the column's side. */
  function Turn(op: Cmp): Cmp {
    match op
    case Lt => Gt
    case Le => Ge
    case Gt => Lt
    case Ge => Le
    case _ => op
  }

  function LeafOp(e: Expr): Cmp
    requires e.Compare?
  {
    if e.l.Column? then e.op else Turn(e.op)
  }

  function LeafLit(e: Expr, col: nat): int
    requires ColumnLeaf(e, col)
  {
    if e.l.Column? then e.r.v.n else e.l.v.n
  }

  /** What a predicate record says about a key. */
  predicate Says(p: Pred, x: int) {
    Compares(p.op, x, p.value) && (p.hiOp.Some? ==> Compares(p.hiOp.value, x, p.hiValue))
  }

  lemma LeafIs(e: Expr, col: nat, row: Row)
    requires ColumnLeaf(e, col)
    ensures Truthy(Eval(e, row)) <==>
              KeyOf(row, col) != Rows.Null && Compares(LeafOp(e), KeyOf(row, col).n, LeafLit(e, col))
  {
    if e.l.Column? {
      assert Eval(e.l, row) == KeyOf(row, col) && Eval(e.r, row) == e.r.v;
    } else {
      assert Eval(e.r, row) == KeyOf(row, col) && Eval(e.l, row) == e.l.v;
    }
  }

  lemma AndIs(where: Expr, row: Row)
    requires where.And?
    ensures Truthy(Eval(where, row)) <==> Truthy(Eval(where.l, row)) && Truthy(Eval(where.r, row))
  {
  }

  /** Such a clause is always taken for the index, whichever side the literal is on. */
  lemma {:induction false} Extracts(where: Expr, ncols: nat, col: nat)
    requires OneColumn(where, col) && col < ncols
    ensures Extract(where, ncols).Some? && Extract(where, ncols).value.column == col
    decreases where
  {
    if where.And? {
      Extracts(where.l, ncols, col);
      Extracts(where.r, ncols, col);
    }
  }

  // ----- which clauses are taken for the index

  /** s is e or a part of it. */
  predicate Occurs(s: Expr, e: Expr) {
    || s == e
    || (match e
        case Compare(_, l, r) => Occurs(s, l) || Occurs(s, r)
        case Calc(_, l, r) => Occurs(s, l) || Occurs(s, r)
        case And(l, r) => Occurs(s, l) || Occurs(s, r)
        case Or(l, r) => Occurs(s, l) || Occurs(s, r)
        case Not(x) => Occurs(s, x)
        case IsNull(x) => Occurs(s, x)
        case IsNotNull(x) => Occurs(s, x)
        case _ => false)
  }

  /** Of all clauses, exactly the AND trees of comparisons of one column with literals. */
  lemma {:induction false} ExtractsExactly(where: Expr, ncols: nat)
    ensures match Extract(where, ncols)
            case None => forall col: nat | col < ncols :: !OneColumn(where, col)
            case Some(p) => p.column < ncols && OneColumn(where, p.column)
    decreases where
  {
    if where.And? {
      ExtractsExactly(where.l, ncols);
      ExtractsExactly(where.r, ncols);
    }
    if Extract(where, ncols).None? {
      forall col: nat | col < ncols ensures !OneColumn(where, col) {
        if OneColumn(where, col) {
          Extracts(where, ncols, col);
        }
      }
    }
  }

  /** In such a tree there are AND, comparisons other than `!=`, the column and literals other than NULL. */
  lemma {:induction false} PartsOf(where: Expr, col: nat, s: Expr)
    requires OneColumn(where, col) && Occurs(s, where)
    ensures s.And? || (s.Compare? && s.op != Ne) || s == Column(col) || (s.Lit? && s.v != Rows.Null)
    decreases where
  {
    if where.And? && s != where {
      PartsOf(if Occurs(s, where.l) then where.l else where.r, col, s);
    } else if s != where {
      assert where.l.Lit? || where.l.Column?;
      assert where.r.Lit? || where.r.Column?;
      assert s == where.l || s == where.r;
    }
  }

  /** So OR, NOT, IS NULL, IS NOT NULL, `!=`, arithmetic, a NULL or a second column anywhere in the clause
      keeps the index out. */
  lemma NotTaken(where: Expr, ncols: nat, s: Expr, t: Expr)
    requires Occurs(s, where) && Occurs(t, where)
    requires || s.Or? || s.Not? || s.IsNull? || s.IsNotNull? || s.Calc? || s == Lit(Rows.Null)
             || (s.Compare? && s.op == Ne) || (s.Column? && t.Column? && s != t)
    ensures Extract(where, ncols).None?
  {
    ExtractsExactly(where, ncols);
    if Extract(where, ncols).Some? {
      PartsOf(where, Extract(where, ncols).value.column, s);
      PartsOf(where, Extract(where, ncols).value.column, t);
    }
  }

  // ----- the range that is scanned

  predicate SameSide(a: Cmp, b: Cmp) {
    (Lower(a) && Lower(b)) || (Upper(a) && Upper(b))
  }

  /** Of two comparisons on one side, the left one is kept. */
  predicate Beats(a: Expr, b: Expr, col: nat)
    requires ColumnLeaf(a, col) && ColumnLeaf(b, col)
  {
    var x, y := LeafLit(a, col), LeafLit(b, col);
    if Lower(a.op) then x > y || (x == y && a.op == Gt) else x < y || (x == y && a.op == Lt)
  }

  /** The comparison that gives the scan its start. */
  function Lead(where: Expr, col: nat): (e: Expr)
    requires OneColumn(where, col)
    ensures ColumnLeaf(e, col)
  {
    if !where.And? then where
    else
      var a, b := Lead(where.l, col), Lead(where.r, col);
      if SameSide(a.op, b.op) then if Beats(a, b, col) then a else b
      else if Upper(a.op) && Lower(b.op) then b
      else a
  }

  /** The comparison that gives it its end. */
  function Second(where: Expr, col: nat): (e: Option<Expr>)
    requires OneColumn(where, col)
    ensures e.Some? ==> ColumnLeaf(e.value, col)
  {
    if !where.And? then None
    else
      var a, b := Lead(where.l, col), Lead(where.r, col);
      if SameSide(a.op, b.op) then Second(if Beats(a, b, col) then where.l else where.r, col)
      else if Upper(a.op) && Lower(b.op) then Some(a)
      else Some(b)
  }

  function LowEnd(e: Expr, col: nat): int
    requires ColumnLeaf(e, col)
  {
    if e.op == Gt || e.op == Lt then LeafLit(e, col) + 1 else LeafLit(e, col)
  }

  function HighEnd(e: Expr, col: nat): int
    requires ColumnLeaf(e, col)
  {
    if e.op == Gt || e.op == Lt then LeafLit(e, col) - 1 else LeafLit(e, col)
  }

  /** The keys that the scan for the clause passes. */
  function Scanned(where: Expr, col: nat): Interval
    requires OneColumn(where, col)
  {
    var a, b := Lead(where, col), Second(where, col);
    Interval(Some(LowEnd(a, col)),
             if b.Some? then Some(HighEnd(b.value, col)) else if a.op == Eq then Some(LeafLit(a, col)) else None)
  }

  function RecordOf(a: Expr, b: Option<Expr>, col: nat): Pred
    requires ColumnLeaf(a, col) && (b.Some? ==> ColumnLeaf(b.value, col))
  {
    if b.None? then Pred(col, a.op, LeafLit(a, col), None, 0)
    else Pred(col, a.op, LeafLit(a, col), Some(b.value.op), LeafLit(b.value, col))
  }

  lemma {:induction false} ExtractIs(where: Expr, ncols: nat, col: nat)
    requires OneColumn(where, col) && col < ncols
    ensures Extract(where, ncols) == Some(RecordOf(Lead(where, col), Second(where, col), col))
    decreases where
  {
    if where.And? {
      ExtractIs(where.l, ncols, col);
      ExtractIs(where.r, ncols, col);
      hide OneColumn, ColumnLeaf, LeafLit;
    }
  }

  /** The bounds handed to the index are those of the scanned range. */
  lemma ScannedIs(where: Expr, ncols: nat, col: nat)
    requires OneColumn(where, col) && col < ncols
    ensures Extract(where, ncols).Some?
    ensures ScanInterval(ScanBounds(Extract(where, ncols).value)) == Scanned(where, col)
  {
    ExtractIs(where, ncols, col);
    hide Extract, Lead, Second;
  }

  /** A row that passes has a key, and with the column first the extracted record is true of it. */
  lemma {:induction false} PassingRowsFit(where: Expr, ncols: nat, col: nat, row: Row)
    requires OneColumn(where, col) && ColumnFirst(where) && col < ncols
    ensures Extract(where, ncols).Some? && Extract(where, ncols).value.column == col
    ensures Truthy(Eval(where, row)) ==>
              KeyOf(row, col) != Rows.Null && Says(Extract(where, ncols).value, KeyOf(row, col).n)
    decreases where
  {
    Extracts(where, ncols, col);
    if where.And? {
      PassingRowsFit(where.l, ncols, col, row);
      PassingRowsFit(where.r, ncols, col, row);
      AndIs(where, row);
      hide Eval;
    } else {
      LeafIs(where, col, row);
      hide Eval;
    }
  }

  // ----- the truth set as an interval

  /** The integers from lo to hi, None being open. */
  datatype Interval = Interval(lo: Option<int>, hi: Option<int>)

  predicate Inside(x: int, t: Interval) {
    (t.lo.Some? ==> t.lo.value <= x) && (t.hi.Some? ==> x <= t.hi.value)
  }

  function LeafInterval(op: Cmp, v: int): Interval {
    match op
    case Lt => Interval(None, Some(v - 1))
    case Le => Interval(None, Some(v))
    case Gt => Interval(Some(v + 1), None)
    case Ge => Interval(Some(v), None)
    case _ => Interval(Some(v), Some(v))
  }

  function Greater(a: Option<int>, b: Option<int>): Option<int> {
    if a.None? then b else if b.None? || a.value >= b.value then a else b
  }

  function Smaller(a: Option<int>, b: Option<int>): Option<int> {
    if a.None? then b else if b.None? || a.value <= b.value then a else b
  }

  function TruthSet(where: Expr, col: nat): Interval
    requires OneColumn(where, col)
  {
    match where
    case And(l, r) =>
      var a, b := TruthSet(l, col), TruthSet(r, col);
      Interval(Greater(a.lo, b.lo), Smaller(a.hi, b.hi))
    case _ => LeafInterval(LeafOp(where), LeafLit(where, col))
  }

  lemma {:induction false} TruthSetIs(where: Expr, col: nat, row: Row)
    requires OneColumn(where, col)
    ensures Truthy(Eval(where, row)) <==>
              KeyOf(row, col) != Rows.Null && Inside(KeyOf(row, col).n, TruthSet(where, col))
    decreases where
  {
    if where.And? {
      TruthSetIs(where.l, col, row);
      TruthSetIs(where.r, col, row);
      AndIs(where, row);
      hide Eval;
    } else {
      LeafIs(where, col, row);
      hide Eval;
    }
  }

  /** The scan's range as an interval. */
  function ScanInterval(b: Bounds): Interval {
    Interval(if b.lo.None? then None else Some(if b.loInclusive then b.lo.value else b.lo.value + 1),
             if b.hi.None? then None else Some(if b.hiInclusive then b.hi.value else b.hi.value - 1))
  }

  predicate Empty(t: Interval) {
    t.lo.Some? && t.hi.Some? && t.lo.value > t.hi.value
  }

  /** Decidable from the ends alone: t lies within s. */
  predicate Within(t: Interval, s: Interval) {
    || Empty(t)
    || ((s.lo.Some? ==> t.lo.Some? && s.lo.value <= t.lo.value)
        && (s.hi.Some? ==> t.hi.Some? && t.hi.value <= s.hi.value))
  }

  lemma WithinIs(t: Interval, s: Interval) returns (x: int)
    ensures Within(t, s) ==> forall y :: Inside(y, t) ==> Inside(y, s)
    ensures !Within(t, s) ==> Inside(x, t) && !Inside(x, s)
  {
    x := 0;
    if !Within(t, s) {
      if s.lo.Some? && !(t.lo.Some? && s.lo.value <= t.lo.value) {
        x := if t.lo.Some? then t.lo.value else if t.hi.Some? && t.hi.value < s.lo.value then t.hi.value
            else s.lo.value - 1;
      } else {
        x := if t.hi.Some? then t.hi.value else if t.lo.Some? && t.lo.value > s.hi.value then t.lo.value
            else s.hi.value + 1;
      }
    }
  }

  // ----- the two plans

  /** A key with a row id; NULL keys are not indexed. */
  datatype IndexEntry = IndexEntry(key: int, rid: nat)

  /** The index lists exactly the rows with a key, each once. */
  ghost predicate IndexAgrees(index: seq<IndexEntry>, rows: seq<Row>, col: nat) {
    && (forall i, j :: 0 <= i < j < |index| ==> index[i].rid != index[j].rid)
    && (forall i :: 0 <= i < |index| ==>
          index[i].rid < |rows| && KeyOf(rows[index[i].rid], col) == Rows.V(index[i].key))
    && (forall r: nat :: r < |rows| && KeyOf(rows[r], col) != Rows.Null ==>
          IndexEntry(KeyOf(rows[r], col).n, r) in index)
  }

  /** What a scan of the index yields (see `BTreePages.BTreeIndex.Range`, `Walk` and `Search`). */
  function ScanRids(index: seq<IndexEntry>, b: Bounds): seq<nat> {
    if index == [] then []
    else
      var n := |index| - 1;
      ScanRids(index[..n], b) + if InBounds(index[n].key, b) then [index[n].rid] else []
  }

  /** The entries of a tree, with each row id replaced by the row's place in the heap. */
  function Placed(es: seq<Entry>, place: Rid -> nat): (index: seq<IndexEntry>)
    ensures |index| == |es| && forall i :: 0 <= i < |es| ==> index[i] == IndexEntry(es[i].key, place(es[i].rid))
  {
    seq(|es|, i requires 0 <= i < |es| => IndexEntry(es[i].key, place(es[i].rid)))
  }

  function Places(rids: seq<Rid>, place: Rid -> nat): (ps: seq<nat>)
    ensures |ps| == |rids| && forall i :: 0 <= i < |rids| ==> ps[i] == place(rids[i])
  {
    seq(|rids|, i requires 0 <= i < |rids| => place(rids[i]))
  }

  lemma {:induction false} ScanToIsRange(es: seq<Entry>, place: Rid -> nat, p: nat, b: Bounds)
    requires p <= |es|
    ensures ScanRids(Placed(es, place)[..p], b) == Places(RangeTo(es, p, b), place)
  {
    var index := Placed(es, place);
    if p > 0 {
      ScanToIsRange(es, place, p - 1, b);
      assert index[..p][..p - 1] == index[..p - 1] && index[..p][p - 1] == index[p - 1];
    }
  }

  /** The scan the plan reasons about is the range that `BTreePages.BTreeIndex` yields. */
  lemma ScanIsRange(es: seq<Entry>, place: Rid -> nat, b: Bounds)
    ensures ScanRids(Placed(es, place), b) == Places(RangeOf(es, b), place)
  {
    ScanToIsRange(es, place, |es|, b);
    assert Placed(es, place)[..|es|] == Placed(es, place);
  }

  /** `IndexScan.open`. */
  method IndexScan(index: seq<IndexEntry>, rows: seq<Row>, b: Bounds) returns (out: seq<Row>)
    requires Rows.InHeap(ScanRids(index, b), |rows|)
    ensures out == Rows.Fetch(rows, ScanRids(index, b))
  {
    out := [];
    var rids := ScanRids(index, b);
    for i := 0 to |rids|
      invariant |out| == i && forall k :: 0 <= k < i ==> out[k] == rows[rids[k]]
    {
      out := out + [rows[rids[i]]];
    }
  }

  function InScan(col: nat, b: Bounds): Row -> bool {
    (row: Row) => KeyOf(row, col) != Rows.Null && InBounds(KeyOf(row, col).n, b)
  }

  lemma {:induction false} ScanAre(index: seq<IndexEntry>, b: Bounds)
    ensures forall r :: r in ScanRids(index, b) <==>
              exists i :: 0 <= i < |index| && index[i].rid == r && InBounds(index[i].key, b)
    decreases |index|
  {
    if index != [] {
      var n := |index| - 1;
      ScanAre(index[..n], b);
      hide InBounds;
      forall r ensures r in ScanRids(index, b) <==>
            exists i :: 0 <= i < |index| && index[i].rid == r && InBounds(index[i].key, b) {
        if i :| 0 <= i < |index| && index[i].rid == r && InBounds(index[i].key, b) {
          if i < n {
            assert index[..n][i].rid == r;
          }
        }
      }
    }
  }

  lemma {:induction false} ScanDistinct(index: seq<IndexEntry>, b: Bounds)
    requires forall i, j :: 0 <= i < j < |index| ==> index[i].rid != index[j].rid
    ensures Distinct(ScanRids(index, b))
    decreases |index|
  {
    if index != [] {
      var n := |index| - 1;
      ScanDistinct(index[..n], b);
      ScanAre(index[..n], b);
      hide InBounds;
      var a := ScanRids(index[..n], b);
      assert index[n].rid !in a;
      assert ScanRids(index, b) == a || ScanRids(index, b) == a + [index[n].rid];
    }
  }

  /** An index that agrees with the heap yields exactly the rows whose key is in bounds. */
  lemma ScanCovers(index: seq<IndexEntry>, rows: seq<Row>, col: nat, b: Bounds)
    requires IndexAgrees(index, rows, col)
    ensures Rows.Covers(ScanRids(index, b), rows, InScan(col, b))
  {
    var rids := ScanRids(index, b);
    ScanAre(index, b);
    ScanDistinct(index, b);
    hide InBounds, ScanRids;
    forall k | 0 <= k < |rids| ensures rids[k] < |rows| {
      assert rids[k] in rids;
    }
    forall r: nat ensures r in rids <==> r < |rows| && InScan(col, b)(rows[r]) {
      if r < |rows| && InScan(col, b)(rows[r]) {
        var e := IndexEntry(KeyOf(rows[r], col).n, r);
        assert e in index;
        var i :| 0 <= i < |index| && index[i] == e;
        assert index[i].rid == r && InBounds(index[i].key, b);
      }
    }
  }

  lemma {:induction false} MatchingInside(rows: seq<Row>, p: Row -> bool, q: Row -> bool)
    requires forall k :: 0 <= k < |rows| && q(rows[k]) ==> p(rows[k])
    ensures Rows.Matching(Rows.Matching(rows, p), q) == Rows.Matching(rows, q)
    decreases |rows|
  {
    if rows != [] {
      var n := |rows| - 1;
      MatchingInside(rows[..n], p, q);
      var a := Rows.Matching(rows[..n], p);
      if p(rows[n]) {
        assert (a + [rows[n]])[..|a|] == a;
      } else {
        assert Rows.Matching(rows, p) == a;
      }
    }
  }

  /** Filtering counts each row as often as it occurs. */
  lemma {:induction false} MatchingCount(rows: seq<Row>, q: Row -> bool, r: Row)
    ensures multiset(Rows.Matching(rows, q))[r] == if q(r) then multiset(rows)[r] else 0
    decreases |rows|
  {
    if rows != [] {
      var n := |rows| - 1;
      MatchingCount(rows[..n], q, r);
      assert rows == rows[..n] + [rows[n]];
      assert multiset(rows) == multiset(rows[..n]) + multiset{rows[n]};
    }
  }

  lemma MatchingBag(a: seq<Row>, b: seq<Row>, q: Row -> bool)
    requires multiset(a) == multiset(b)
    ensures multiset(Rows.Matching(a, q)) == multiset(Rows.Matching(b, q))
  {
    forall r ensures multiset(Rows.Matching(a, q))[r] == multiset(Rows.Matching(b, q))[r] {
      MatchingCount(a, q, r);
      MatchingCount(b, q, r);
    }
  }

  /** Filter over the index scan gives what Filter over the table scan gives, up to order. */
  ghost predicate SameResult(where: Expr, index: seq<IndexEntry>, rows: seq<Row>, b: Bounds) {
    && Rows.InHeap(ScanRids(index, b), |rows|)
    && multiset(Rows.Matching(Rows.Fetch(rows, ScanRids(index, b)), Keeps(where)))
       == multiset(Rows.Matching(rows, Keeps(where)))
  }

  /** On one table: exactly when every row that passes has its key in the scanned range. */
  lemma ResultExact(where: Expr, index: seq<IndexEntry>, rows: seq<Row>, col: nat, b: Bounds)
    requires IndexAgrees(index, rows, col)
    ensures SameResult(where, index, rows, b) <==>
              forall k :: 0 <= k < |rows| && Keeps(where)(rows[k]) ==> InScan(col, b)(rows[k])
  {
    var p, q := InScan(col, b), Keeps(where);
    var rids := ScanRids(index, b);
    ScanCovers(index, rows, col, b);
    Rows.FetchIsFilter(rids, rows, p);
    var f := Rows.Fetch(rows, rids);
    MatchingBag(f, Rows.Matching(rows, p), q);
    hide ScanRids, Rows.Fetch, Rows.Matching, Rows.Covers, IndexAgrees, InScan, Keeps;
    if forall k :: 0 <= k < |rows| && q(rows[k]) ==> p(rows[k]) {
      MatchingInside(rows, p, q);
    } else {
      var k :| 0 <= k < |rows| && q(rows[k]) && !p(rows[k]);
      MatchingLoses(rows, p, q, k);
    }
  }

  lemma MatchingLoses(rows: seq<Row>, p: Row -> bool, q: Row -> bool, k: nat)
    requires k < |rows| && q(rows[k]) && !p(rows[k])
    ensures multiset(Rows.Matching(Rows.Matching(rows, p), q)) != multiset(Rows.Matching(rows, q))
  {
    var r := rows[k];
    hide Rows.Matching;
    MatchingCount(rows, q, r);
    MatchingCount(Rows.Matching(rows, p), q, r);
    MatchingCount(rows, p, r);
    assert r in multiset(rows);
  }

  /** `_try_index_plan` on a table with these single-column indexes; None is the scan of the whole table. */
  datatype Scan = Scan(col: nat, b: Bounds)

  function PlanFor(where: Expr, ncols: nat, indexed: set<nat>): Option<Scan> {
    match Extract(where, ncols)
    case None => None
    case Some(p) => if p.column in indexed then Some(Scan(p.column, ScanBounds(p))) else None
  }

  /** For every clause: the index is used exactly for AND trees of comparisons of one indexed column with
      literals on either side, and then the result is right on every table exactly when the truth set
      lies within the scanned range, which the clause alone decides. */
  lemma SelectionExact(where: Expr, ncols: nat, indexed: set<nat>)
    ensures PlanFor(where, ncols, indexed).None? <==>
              forall col: nat | col < ncols && col in indexed :: !OneColumn(where, col)
    ensures PlanFor(where, ncols, indexed).Some? ==>
              var Scan(col, b) := PlanFor(where, ncols, indexed).value;
              && col < ncols && col in indexed && OneColumn(where, col)
              && ((forall index, rows :: IndexAgrees(index, rows, col) ==> SameResult(where, index, rows, b))
                  <==> Within(TruthSet(where, col), Scanned(where, col)))
  {
    ExtractsExactly(where, ncols);
    var plan := PlanFor(where, ncols, indexed);
    if plan.None? {
      NoPlan(where, ncols, indexed);
    } else {
      ScannedIs(where, ncols, plan.value.col);
      ScanExact(where, plan.value.col, plan.value.b);
    }
  }

  lemma ScanExact(where: Expr, col: nat, b: Bounds)
    requires OneColumn(where, col)
    ensures (forall index, rows :: IndexAgrees(index, rows, col) ==> SameResult(where, index, rows, b))
            <==> Within(TruthSet(where, col), ScanInterval(b))
  {
    var t, s := TruthSet(where, col), ScanInterval(b);
    var x := WithinIs(t, s);
    hide TruthSet, Eval, SameResult;
    if Within(t, s) {
      forall index, rows | IndexAgrees(index, rows, col) ensures SameResult(where, index, rows, b) {
        ResultExact(where, index, rows, col, b);
        forall k | 0 <= k < |rows| && Keeps(where)(rows[k]) ensures InScan(col, b)(rows[k]) {
          TruthSetIs(where, col, rows[k]);
        }
      }
    } else {
      OneRowShows(where, col, b, x);
    }
  }

  /** Every row that passes has a key, and the scan passes it. */
  ghost predicate Covered(where: Expr, col: nat, rows: seq<Row>)
    requires OneColumn(where, col)
  {
    forall k :: 0 <= k < |rows| && rows[k] in TruthOf(where) ==>
      KeyOf(rows[k], col) != Rows.Null && Inside(KeyOf(rows[k], col).n, Scanned(where, col))
  }

  /** The single-table query `_plan_select` builds, run: for every clause, every table and every set of
      indexes that agree with it, the right rows come out exactly when no index gets in the way. */
  method Select(where: Expr, ncols: nat, indexes: map<nat, seq<IndexEntry>>, rows: seq<Row>) returns (out: seq<Row>)
    requires forall col | col in indexes :: IndexAgrees(indexes[col], rows, col)
    ensures (forall col | col in indexes && col < ncols :: !OneColumn(where, col)) ==>
              out == Rows.Matching(rows, Keeps(where))
    ensures multiset(out) == multiset(Rows.Matching(rows, Keeps(where)))
            <==> forall col | col in indexes && col < ncols && OneColumn(where, col) :: Covered(where, col, rows)
  {
    ExtractsExactly(where, ncols);
    var plan := PlanFor(where, ncols, indexes.Keys);
    ghost var at;
    if plan.None? {
      NoPlan(where, ncols, indexes.Keys);
      out, at := Filter(rows, where);
    } else {
      var col, b := plan.value.col, plan.value.b;
      OnlyColumn(where, col);
      ScannedIs(where, ncols, col);
      ScanCovers(indexes[col], rows, col, b);
      CoveredIs(where, col, rows, indexes[col], b);
      var found := IndexScan(indexes[col], rows, b);
      hide *;
      out, at := Filter(found, where);
    }
  }

  /** A table of one row whose key passes and is not scanned. */
  lemma OneRowShows(where: Expr, col: nat, b: Bounds, x: int)
    requires OneColumn(where, col) && Inside(x, TruthSet(where, col)) && !Inside(x, ScanInterval(b))
    ensures exists index, rows :: IndexAgrees(index, rows, col) && !SameResult(where, index, rows, b)
  {
    var row := seq(col + 1, _ => Rows.V(x));
    var rows, index := [row], [IndexEntry(x, 0)];
    assert KeyOf(row, col) == Rows.V(x);
    assert IndexAgrees(index, rows, col) by {
      assert index[0] in index;
    }
    TruthSetIs(where, col, row);
    ResultExact(where, index, rows, col, b);
    assert Keeps(where)(rows[0]) && !InScan(col, b)(rows[0]);
    assert !SameResult(where, index, rows, b);
  }

  lemma NoPlan(where: Expr, ncols: nat, indexed: set<nat>)
    requires PlanFor(where, ncols, indexed).None?
    ensures forall col | col in indexed && col < ncols :: !OneColumn(where, col)
  {
    forall col | col in indexed && col < ncols ensures !OneColumn(where, col) {
      if OneColumn(where, col) {
        Extracts(where, ncols, col);
      }
    }
  }

  lemma {:induction false} OnlyColumn(where: Expr, col: nat)
    requires OneColumn(where, col)
    ensures forall c: nat :: OneColumn(where, c) <==> c == col
    decreases where
  {
    if where.And? {
      OnlyColumn(where.l, col);
    }
  }

  /** On one table. */
  lemma CoveredIs(where: Expr, col: nat, rows: seq<Row>, index: seq<IndexEntry>, b: Bounds)
    requires OneColumn(where, col) && IndexAgrees(index, rows, col) && ScanInterval(b) == Scanned(where, col)
    ensures SameResult(where, index, rows, b) <==> Covered(where, col, rows)
  {
    ResultExact(where, index, rows, col, b);
    hide SameResult, IndexAgrees, OneColumn, Scanned;
    forall k | 0 <= k < |rows|
      ensures rows[k] in TruthOf(where) <==> Keeps(where)(rows[k])
      ensures InScan(col, b)(rows[k]) <==>
                KeyOf(rows[k], col) != Rows.Null && Inside(KeyOf(rows[k], col).n, Scanned(where, col))
    {
      TruthIs(where, rows[k]);
    }
    hide TruthOf, Keeps, InScan;
  }

  // ----- shapes that are right, and shapes that are not

  /** The shapes that are always right: the scan starts at an equality or a lower end, and ends nowhere, at
      an upper end or at an equality, whatever NULLs the column holds. */
  lemma GoodShapesKeepMeaning(where: Expr, col: nat)
    requires OneColumn(where, col) && ColumnFirst(where)
    requires Lead(where, col).op == Eq || Lower(Lead(where, col).op)
    requires var b := Second(where, col); b.Some? ==> b.value.op == Eq || Upper(b.value.op)
    ensures Within(TruthSet(where, col), Scanned(where, col))
  {
    var x := WithinIs(TruthSet(where, col), Scanned(where, col));
    if Inside(x, TruthSet(where, col)) {
      EndsHold(where, col, x);
      hide TruthSet, Lead, Second;
    }
  }

  /** What is true of the clause is true of the two comparisons. */
  lemma {:induction false} EndsHold(where: Expr, col: nat, x: int)
    requires OneColumn(where, col) && ColumnFirst(where) && Inside(x, TruthSet(where, col))
    ensures Lead(where, col).l.Column? && Compares(Lead(where, col).op, x, LeafLit(Lead(where, col), col))
    ensures var b := Second(where, col); b.Some? ==>
              b.value.l.Column? && Compares(b.value.op, x, LeafLit(b.value, col))
    decreases where
  {
    if where.And? {
      EndsHold(where.l, col, x);
      EndsHold(where.r, col, x);
      hide OneColumn, ColumnLeaf, LeafLit, ColumnFirst, Compares;
    }
  }

  /** All comparisons are column first and on one side. */
  predicate Only(where: Expr, side: Cmp -> bool) {
    if where.And? then Only(where.l, side) && Only(where.r, side)
    else where.Compare? && where.l.Column? && side(where.op)
  }

  lemma {:induction false} LowerTree(where: Expr, col: nat)
    requires OneColumn(where, col) && Only(where, Lower)
    ensures Lower(Lead(where, col).op) && Second(where, col).None?
    ensures TruthSet(where, col) == Interval(Some(LowEnd(Lead(where, col), col)), None)
    decreases where
  {
    if where.And? {
      LowerTree(where.l, col);
      LowerTree(where.r, col);
      hide OneColumn, ColumnLeaf, LeafLit, Only;
    }
  }

  lemma {:induction false} UpperTree(where: Expr, col: nat)
    requires OneColumn(where, col) && Only(where, Upper)
    ensures Upper(Lead(where, col).op) && Second(where, col).None?
    ensures TruthSet(where, col) == Interval(None, Some(HighEnd(Lead(where, col), col)))
    decreases where
  {
    if where.And? {
      UpperTree(where.l, col);
      UpperTree(where.r, col);
      hide OneColumn, ColumnLeaf, LeafLit, Only;
    }
  }

  /** Lower bounds alone, and lower bounds with upper bounds in either order: nothing is scanned but what
      the clause is true of. */
  lemma RangesAreExact(l: Expr, u: Expr, col: nat)
    requires OneColumn(l, col) && OneColumn(u, col) && Only(l, Lower) && Only(u, Upper)
    ensures Scanned(l, col) == TruthSet(l, col)
    ensures Scanned(And(l, u), col) == TruthSet(And(l, u), col) == Scanned(And(u, l), col) == TruthSet(And(u, l), col)
  {
    LowerTree(l, col);
    UpperTree(u, col);
    assert Lead(And(l, u), col) == Lead(l, col) == Lead(And(u, l), col);
    assert Second(And(l, u), col) == Some(Lead(u, col)) == Second(And(u, l), col);
    assert TruthSet(And(l, u), col) == TruthSet(And(u, l), col);
    hide Lead, Second, OneColumn, Only;
  }

  /** `column f v AND column g w`. */
  function Pair(f: Cmp, v: int, g: Cmp, w: int, col: nat): (e: Expr)
    requires f != Ne && g != Ne
    ensures OneColumn(e, col)
  {
    var a, b := Compare(f, Column(col), Lit(Rows.V(v))), Compare(g, Column(col), Lit(Rows.V(w)));
    assert OneColumn(a, col) && OneColumn(b, col);
    And(a, b)
  }

  /** Upper bounds alone lose rows on some table, whatever they are. A lower bound after an equality loses
      them unless no key passes both or it is `>=` at the same value; an upper bound before an equality
      unless the value is not below it. */
  lemma BadShapes(u: Expr, col: nat, v: int, w: int)
    requires OneColumn(u, col) && Only(u, Upper)
    ensures !Within(TruthSet(u, col), Scanned(u, col))
    ensures forall op | Lower(op) :: var e := Pair(Eq, v, op, w, col);
              Within(TruthSet(e, col), Scanned(e, col)) <==> !Compares(op, v, w) || (op == Ge && v == w)
    ensures forall op | Upper(op) :: var e := Pair(op, w, Eq, v, col);
              Within(TruthSet(e, col), Scanned(e, col)) <==> v >= w
  {
    UpperTree(u, col);
    forall op | Lower(op) ensures var e := Pair(Eq, v, op, w, col);
        Within(TruthSet(e, col), Scanned(e, col)) <==> !Compares(op, v, w) || (op == Ge && v == w) {
      PairIs(Eq, v, op, w, col);
    }
    forall op | Upper(op) ensures var e := Pair(op, w, Eq, v, col);
        Within(TruthSet(e, col), Scanned(e, col)) <==> v >= w {
      PairIs(op, w, Eq, v, col);
    }
  }

  lemma PairIs(f: Cmp, v: int, g: Cmp, w: int, col: nat)
    requires f != Ne && g != Ne && (f == Eq || (Upper(f) && g == Eq))
    ensures var e := Pair(f, v, g, w, col);
            && Scanned(e, col) == Interval(Some(LowEnd(e.l, col)), Some(HighEnd(e.r, col)))
            && TruthSet(e, col) == Interval(Greater(LeafInterval(f, v).lo, LeafInterval(g, w).lo),
                                            Smaller(LeafInterval(f, v).hi, LeafInterval(g, w).hi))
  {
    var e := Pair(f, v, g, w, col);
    assert Lead(e.l, col) == e.l && Lead(e.r, col) == e.r;
    assert TruthSet(e.l, col) == LeafInterval(f, v) && TruthSet(e.r, col) == LeafInterval(g, w);
  }

  /** One comparison with the literal on the left, whose operator the extraction does not turn: right on
      every table exactly for `=`, `<` and `<=`. */
  lemma LiteralFirst(op: Cmp, v: int, ncols: nat, col: nat)
    requires op != Ne && col < ncols
    ensures var where := Compare(op, Lit(Rows.V(v)), Column(col));
            && Extract(where, ncols) == Some(Pred(col, op, v, None, 0))
            && ((forall index, rows :: IndexAgrees(index, rows, col) ==>
                   SameResult(where, index, rows, ScanBounds(Pred(col, op, v, None, 0))))
                <==> op in {Eq, Lt, Le})
  {
    var where := Compare(op, Lit(Rows.V(v)), Column(col));
    assert TruthSet(where, col) == LeafInterval(Turn(op), v);
    ScanExact(where, col, ScanBounds(Pred(col, op, v, None, 0)));
  }

  /** For `>` and `>=` every row that passes is lost, but for the literal itself under `>=`. */
  lemma LiteralFirstLoses(op: Cmp, v: int, x: int)
    requires (op == Gt || op == Ge) && Compares(op, v, x)
    ensures Keeps(Compare(op, Lit(Rows.V(v)), Column(0)))([Rows.V(x)])
    ensures InScan(0, ScanBounds(Pred(0, op, v, None, 0)))([Rows.V(x)]) <==> op == Ge && x == v
  {
    var f := Compare(op, Lit(Rows.V(v)), Column(0));
    LeafIs(f, 0, [Rows.V(x)]);
  }
}
