/** WHERE clauses: how the executor evaluates them, and the sets of rows they stand for. */
module Expressions {
  import opened Common
  import opened Rows

  datatype Cmp = Eq | Ne | Lt | Le | Gt | Ge

  datatype Arith = Add | Sub | Mul

  /** A column is its position; truth values are the integers 0 and 1, as in the host language. */
  datatype Expr =
    | Lit(v: Val)
    | Column(c: nat)
    | Compare(op: Cmp, l: Expr, r: Expr)
    | Calc(f: Arith, l: Expr, r: Expr)
    | And(l: Expr, r: Expr)
    | Or(l: Expr, r: Expr)
    | Not(e: Expr)
    | IsNull(e: Expr)
    | IsNotNull(e: Expr)

  function Bool(b: bool): Val {
    V(if b then 1 else 0)
  }

  predicate Truthy(v: Val) {
    v != Null && v != V(0)
  }

  predicate Compares(op: Cmp, a: int, b: int) {
    match op
    case Eq => a == b
    case Ne => a != b
    case Lt => a < b
    case Le => a <= b
    case Gt => a > b
    case Ge => a >= b
  }

  /** Equality and its negation treat NULL as a value; the other comparisons with NULL are NULL. */
  function EvalCompare(op: Cmp, a: Val, b: Val): Val {
    if op == Eq then Bool(a == b)
    else if op == Ne then Bool(a != b)
    else if a == Null || b == Null then Null
    else Bool(Compares(op, a.n, b.n))
  }

  function EvalCalc(f: Arith, a: Val, b: Val): Val {
    if a == Null || b == Null then Null
    else V(match f case Add => a.n + b.n case Sub => a.n - b.n case Mul => a.n * b.n)
  }

  function KeyOf(row: Row, col: nat): Val {
    if col < |row| then row[col] else Null
  }

  /** `eval_expr`; AND and OR return the operand that decided. A column past the row reads NULL (the
      planner has refused the statement before). */
  function Eval(e: Expr, row: Row): Val {
    match e
    case Lit(v) => v
    case Column(c) => KeyOf(row, c)
    case Compare(op, l, r) => EvalCompare(op, Eval(l, row), Eval(r, row))
    case Calc(f, l, r) => EvalCalc(f, Eval(l, row), Eval(r, row))
    case And(l, r) => if !Truthy(Eval(l, row)) then Eval(l, row) else Eval(r, row)
    case Or(l, r) => if Truthy(Eval(l, row)) then Eval(l, row) else Eval(r, row)
    case Not(x) => Bool(!Truthy(Eval(x, row)))
    case IsNull(x) => Bool(Eval(x, row) == Null)
    case IsNotNull(x) => Bool(Eval(x, row) != Null)
  }

  function Keeps(where: Expr): Row -> bool {
    (row: Row) => Truthy(Eval(where, row))
  }

  // ----- the reference: sets of rows

  /** A test that is true or not, as a value. */
  ghost predicate Tests(yes: bool, v: Val) {
    if yes then v == V(1) else v == V(0)
  }

  /** What a comparison of two values comes to: equal or not, NULLs included; in order or not, without. */
  ghost predicate Comes(op: Cmp, a: Val, b: Val, v: Val) {
    match op
    case Eq => v == V(if a == b then 1 else 0)
    case Ne => v == V(if a == b then 0 else 1)
    case _ =>
      if a.Null? || b.Null? then v.Null?
      else
        var before, same := a.n < b.n, a.n == b.n;
        v == V(if (op.Lt? && before) || (op.Le? && (before || same)) || (op.Gt? && !before && !same)
                  || (op.Ge? && !before) then 1 else 0)
  }

  /** What a calculation with two values comes to: NULL if one is NULL, else for the sum v - b = a, and so on. */
  ghost predicate Gives(f: Arith, a: Val, b: Val, v: Val) {
    if a.Null? || b.Null? then v.Null?
    else v.V? && match f case Add => v.n - b.n == a.n case Sub => v.n + b.n == a.n case Mul => v.n == b.n * a.n
  }

  /** On this row e has the value v, from what its parts have. */
  ghost predicate Has(e: Expr, row: Row, v: Val)
    decreases e, 0
  {
    match e
    case Lit(w) => v == w
    case Column(c) => (c < |row| && row[c] == v) || (c >= |row| && v == Null)
    case Compare(op, l, r) => exists a, b :: Has(l, row, a) && Has(r, row, b) && Comes(op, a, b, v)
    case Calc(f, l, r) => exists a, b :: Has(l, row, a) && Has(r, row, b) && Gives(f, a, b, v)
    case And(l, r) => if True(l, row) then Has(r, row, v) else Has(l, row, v)
    case Or(l, r) => if True(l, row) then Has(l, row, v) else Has(r, row, v)
    case Not(x) => Tests(!True(x, row), v)
    case IsNull(x) => Tests(Has(x, row, Null), v)
    case IsNotNull(x) => Tests(!Has(x, row, Null), v)
  }

  ghost predicate True(e: Expr, row: Row)
    decreases e, 1
  {
    exists v :: Has(e, row, v) && v != Null && v != V(0)
  }

  /** The rows of which e is true. */
  ghost function TruthOf(e: Expr): iset<Row> {
    iset row: Row | True(e, row)
  }

  /** The evaluator gives each row the one value that this gives it. */
  lemma {:induction false} EvalIs(e: Expr, row: Row, v: Val)
    ensures Has(e, row, v) <==> Eval(e, row) == v
    decreases e, 0
  {
    match e
    case Lit(_) =>
    case Column(_) =>
    case Compare(op, l, r) =>
      var x, y := Eval(l, row), Eval(r, row);
      OnlyValue(l, row);
      OnlyValue(r, row);
      hide Has;
      assert Comes(op, x, y, v) <==> EvalCompare(op, x, y) == v;
      CompareHas(op, l, r, row, v, x, y);
    case Calc(f, l, r) =>
      var x, y := Eval(l, row), Eval(r, row);
      OnlyValue(l, row);
      OnlyValue(r, row);
      hide Has;
      assert Gives(f, x, y, v) <==> EvalCalc(f, x, y) == v;
      CalcHas(f, l, r, row, v, x, y);
    case And(l, r) => EvalIs(l, row, v); EvalIs(r, row, v); TruthIs(l, row);
    case Or(l, r) => EvalIs(l, row, v); EvalIs(r, row, v); TruthIs(l, row);
    case Not(x) => TruthIs(x, row);
    case IsNull(x) => EvalIs(x, row, Null);
    case IsNotNull(x) => EvalIs(x, row, Null);
  }

  lemma {:induction false} OnlyValue(e: Expr, row: Row)
    ensures forall v :: Has(e, row, v) <==> v == Eval(e, row)
    decreases e, 1
  {
    forall v ensures Has(e, row, v) <==> v == Eval(e, row) {
      EvalIs(e, row, v);
    }
  }

  lemma CompareHas(op: Cmp, l: Expr, r: Expr, row: Row, v: Val, x: Val, y: Val)
    requires (forall a :: Has(l, row, a) <==> a == x) && (forall b :: Has(r, row, b) <==> b == y)
    ensures Has(Compare(op, l, r), row, v) <==> Comes(op, x, y, v)
  {
    hide Comes;
    assert Has(l, row, x) && Has(r, row, y);
  }

  lemma CalcHas(f: Arith, l: Expr, r: Expr, row: Row, v: Val, x: Val, y: Val)
    requires (forall a :: Has(l, row, a) <==> a == x) && (forall b :: Has(r, row, b) <==> b == y)
    ensures Has(Calc(f, l, r), row, v) <==> Gives(f, x, y, v)
  {
    hide Gives;
    assert Has(l, row, x) && Has(r, row, y);
  }

  /** A row passes a clause exactly when it is in the clause's set. */
  lemma {:induction false} TruthIs(e: Expr, row: Row)
    ensures True(e, row) <==> Keeps(e)(row)
    decreases e, 2
  {
    OnlyValue(e, row);
    hide Has, Eval;
    assert Has(e, row, Eval(e, row));
  }

  ghost predicate SameValue(l: Expr, r: Expr, row: Row) {
    exists v :: Has(l, row, v) && Has(r, row, v)
  }

  /** AND is intersection, OR union, NOT complement; IS NULL, IS NOT NULL, = and != are decided for every
      row, NULLs included. */
  lemma TruthLaws(l: Expr, r: Expr)
    ensures TruthOf(And(l, r)) == TruthOf(l) * TruthOf(r)
    ensures TruthOf(Or(l, r)) == TruthOf(l) + TruthOf(r)
    ensures forall row: Row :: row in TruthOf(Not(l)) <==> row !in TruthOf(l)
    ensures forall row: Row :: row in TruthOf(IsNull(l)) <==> Has(l, row, Null)
    ensures forall row: Row :: row in TruthOf(IsNotNull(l)) <==> row !in TruthOf(IsNull(l))
    ensures forall row: Row :: row in TruthOf(Compare(Eq, l, r)) <==> SameValue(l, r, row)
    ensures forall row: Row :: row in TruthOf(Compare(Ne, l, r)) <==> row !in TruthOf(Compare(Eq, l, r))
  {
    forall row: Row
      ensures True(And(l, r), row) <==> True(l, row) && True(r, row)
      ensures True(Or(l, r), row) <==> True(l, row) || True(r, row)
      ensures True(Not(l), row) <==> !True(l, row)
      ensures True(IsNull(l), row) <==> Has(l, row, Null)
      ensures True(IsNotNull(l), row) <==> !True(IsNull(l), row)
      ensures True(Compare(Eq, l, r), row) <==> SameValue(l, r, row)
      ensures True(Compare(Ne, l, r), row) <==> !True(Compare(Eq, l, r), row)
    {
      TruthOn(l, r, row);
    }
    hide True, Has, SameValue;
  }

  lemma TruthOn(l: Expr, r: Expr, row: Row)
    ensures True(And(l, r), row) <==> True(l, row) && True(r, row)
    ensures True(Or(l, r), row) <==> True(l, row) || True(r, row)
    ensures True(Not(l), row) <==> !True(l, row)
    ensures True(IsNull(l), row) <==> Has(l, row, Null)
    ensures True(IsNotNull(l), row) <==> !True(IsNull(l), row)
    ensures True(Compare(Eq, l, r), row) <==> SameValue(l, r, row)
    ensures True(Compare(Ne, l, r), row) <==> !True(Compare(Eq, l, r), row)
  {
    TruthIs(l, row);
    TruthIs(r, row);
    TruthIs(And(l, r), row);
    TruthIs(Or(l, r), row);
    TruthIs(Not(l), row);
    TruthIs(IsNull(l), row);
    TruthIs(IsNotNull(l), row);
    TruthIs(Compare(Eq, l, r), row);
    TruthIs(Compare(Ne, l, r), row);
    OnlyValue(l, row);
    OnlyValue(r, row);
    hide True, Has;
    assert Has(l, row, Eval(l, row));
  }

  // ----- filtering

  /** The places of the rows that pass, in order. */
  ghost predicate Picks(at: seq<nat>, rows: seq<Row>, good: iset<Row>) {
    && (forall i :: 0 <= i < |at| ==> at[i] < |rows|)
    && (forall i, j :: 0 <= i < j < |at| ==> at[i] < at[j])
    && (forall p: nat :: p in at <==> p < |rows| && rows[p] in good)
  }

  /** The rows at those places below n. */
  ghost predicate Behind(out: seq<Row>, at: seq<nat>, rows: seq<Row>, n: nat) {
    |out| == |at| && n <= |rows| && forall i :: 0 <= i < |at| ==> at[i] < n && out[i] == rows[at[i]]
  }

  /** `Filter.open`: exactly the rows of the clause's set, in the order they came. */
  method Filter(rows: seq<Row>, where: Expr) returns (out: seq<Row>, ghost at: seq<nat>)
    ensures out == Matching(rows, Keeps(where))
    ensures Picks(at, rows, TruthOf(where)) && Behind(out, at, rows, |rows|)
  {
    hide True, Picks, Eval;
    out, at := [], [];
    PickNone(TruthOf(where));
    for i := 0 to |rows|
      invariant out == Matching(rows[..i], Keeps(where))
      invariant Picks(at, rows[..i], TruthOf(where)) && Behind(out, at, rows, i)
    {
      TruthIs(where, rows[i]);
      PickNext(at, rows[..i], rows[i], TruthOf(where));
      assert rows[..i + 1] == rows[..i] + [rows[i]];
      MatchNext(rows[..i], rows[i], Keeps(where));
      if Truthy(Eval(where, rows[i])) {
        out, at := out + [rows[i]], at + [i];
      }
    }
    assert rows[..|rows|] == rows;
  }

  lemma PickNone(good: iset<Row>)
    ensures Picks([], [], good)
  {
  }

  lemma MatchNext(rows: seq<Row>, row: Row, p: Row -> bool)
    ensures Matching(rows + [row], p) == Matching(rows, p) + if p(row) then [row] else []
  {
    assert (rows + [row])[..|rows|] == rows;
  }

  lemma PickNext(at: seq<nat>, rows: seq<Row>, row: Row, good: iset<Row>)
    requires Picks(at, rows, good)
    ensures Picks(if row in good then at + [|rows|] else at, rows + [row], good)
  {
    var at' := if row in good then at + [|rows|] else at;
    forall i, j | 0 <= i < j < |at'| ensures at'[i] < at'[j] {
      if j == |at| {
        assert at[i] in at;
      }
    }
    forall p: nat ensures p in at' <==> p < |rows + [row]| && (rows + [row])[p] in good {
      assert p in at <==> p < |rows| && rows[p] in good;
    }
  }
}
