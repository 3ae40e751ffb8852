/** Deletion with borrow, merge and root collapse, and exactly when it refines map removal. */
module BTreeDelete {
  import opened Common
  import opened BTree
  import opened BTreeInsert

  datatype Del = Del(t: Tree, removed: bool, under: bool)

  /** The first position of an entry. */
  function IndexOf(es: seq<Entry>, e: Entry): (r: Option<nat>)
    ensures r.Some? ==> r.value < |es| && es[r.value] == e
    ensures r.None? ==> e !in es
  {
    if es == [] then None
    else if es[0] == e then Some(0)
    else match IndexOf(es[1..], e) case None => None case Some(i) => Some(i + 1)
  }

  predicate Spare(t: Tree) {
    match t
    case Leaf(l) => |l.es| > MIN_LEAF
    case Node(_, _, kids) => |kids| > MIN_KIDS
  }

  predicate SameKind(a: Tree, b: Tree) {
    a.Leaf? <==> b.Leaf?
  }

  /** A node's separators and children. */
  datatype Row = Row(keys: seq<int>, kids: seq<Tree>)

  /** `borrow_from_sibling` on the pair (a, b): b takes a's last entry or child, a's last key becomes
      the separator and b's first key. */
  function TakeLeft(a: Tree, b: Tree): (int, Tree, Tree)
    requires Spare(a) && SameKind(a, b) && (a.Node? ==> |a.kids| == |a.keys| + 1)
  {
    if a.Leaf? then
      var n := |a.l.es| - 1;
      var x := a.l.es[n];
      (x.key, Leaf(a.l.(es := a.l.es[..n])), Leaf(b.l.(es := [x] + b.l.es)))
    else
      var n := |a.keys| - 1;
      var x := a.keys[n];
      (x, Node(a.pid, a.keys[..n], a.kids[..n + 1]), Node(b.pid, [x] + b.keys, [a.kids[n + 1]] + b.kids))
  }

  /** a takes b's first entry or child; the separator becomes what is now b's first key. */
  function TakeRight(a: Tree, b: Tree): (int, Tree, Tree)
    requires Spare(b) && SameKind(a, b) && (b.Node? ==> |b.kids| == |b.keys| + 1)
  {
    if a.Leaf? then
      var x := b.l.es[0];
      (b.l.es[1].key, Leaf(a.l.(es := a.l.es + [x])), Leaf(b.l.(es := b.l.es[1..])))
    else
      (b.keys[1], Node(a.pid, a.keys + [b.keys[0]], a.kids + [b.kids[0]]), Node(b.pid, b.keys[1..], b.kids[1..]))
  }

  /** `_merge_into_right`: the right page wins, the left one is abandoned. */
  function Merged(a: Tree, s: int, b: Tree): Tree
    requires SameKind(a, b)
  {
    if a.Leaf? then Leaf(LeafRec(b.l.pid, a.l.es + b.l.es, b.l.next))
    else Node(b.pid, a.keys + [s] + b.keys, a.kids + b.kids)
  }

  /** `_try_borrow_or_merge` for the underfull child i. None where the code would raise. */
  function Rebalance(keys: seq<int>, kids: seq<Tree>, i: nat): Option<Row>
    requires i < |kids| == |keys| + 1 && ShapedAll(kids)
  {
    ShapedAt(kids, i);
    if i > 0 && !SameKind(kids[i - 1], kids[i]) then None
    else if i > 0 && Spare(kids[i - 1]) then
      ShapedAt(kids, i - 1);
      var (s, a, b) := TakeLeft(kids[i - 1], kids[i]);
      Some(Row(Splice(keys, i - 1, 1, [s]), Splice(kids, i - 1, 2, [a, b])))
    else if i + 1 < |kids| && !SameKind(kids[i], kids[i + 1]) then None
    else if i + 1 < |kids| && Spare(kids[i + 1]) then
      ShapedAt(kids, i + 1);
      var (s, a, b) := TakeRight(kids[i], kids[i + 1]);
      Some(Row(Splice(keys, i, 1, [s]), Splice(kids, i, 2, [a, b])))
    else if i + 1 < |kids| then
      Some(Row(Splice(keys, i, 1, []), Splice(kids, i, 2, [Merged(kids[i], keys[i], kids[i + 1])])))
    else if i > 0 then
      Some(Row(Splice(keys, i - 1, 1, []), Splice(kids, i - 1, 2, [Merged(kids[i - 1], keys[i - 1], kids[i])])))
    else None
  }

  /** `delete_from_subtree`. */
  function DelT(t: Tree, e: Entry): (d: Del)
    requires Shaped(t)
    ensures Shaped(d.t)
    decreases t
  {
    match t
    case Leaf(l) =>
      (match IndexOf(l.es, e)
       case None => Del(t, false, false)
       case Some(p) =>
         var es := Splice(l.es, p, 1, []);
         Del(Leaf(l.(es := es)), true, |es| < MIN_LEAF))
    case Node(pid, keys, kids) =>
      var i := UpperBound(keys, e.key);
      ShapedAt(kids, i);
      NodeDel(pid, keys, kids, i, DelT(kids[i], e))
  }

  /** The node after its child i became `d.t`. */
  function NodeDel(pid: nat, keys: seq<int>, kids: seq<Tree>, i: nat, d: Del): (r: Del)
    requires i < |kids| == |keys| + 1 && ShapedAll(kids) && Shaped(d.t)
    ensures Shaped(r.t)
  {
    var kids' := Splice(kids, i, 1, [d.t]);
    ShapedSplice(kids, i, 1, [d.t]);
    if !d.removed || !d.under then Del(Node(pid, keys, kids'), d.removed, false)
    else
      match Rebalance(keys, kids', i)
      case None => Del(Node(pid, keys, kids'), true, false)
      case Some(row) =>
        RebalanceShaped(keys, kids', i);
        Del(Node(pid, row.keys, row.kids), true, |row.keys| + 1 < MIN_KIDS)
  }

  /** `delete`, with the collapse of a root left with one child. */
  function Delete(t: Tree, e: Entry): Tree
    requires Shaped(t)
  {
    RootOf(DelT(t, e).t)
  }

  function RootOf(r: Tree): Tree {
    if r.Node? && |r.kids| == 1 then r.kids[0] else r
  }

  lemma {:induction false} ShapedAppend(a: seq<Tree>, b: seq<Tree>)
    ensures ShapedAll(a + b) <==> ShapedAll(a) && ShapedAll(b)
  {
    if a == [] {
      assert a + b == b;
    } else {
      ShapedAppend(a[1..], b);
      assert (a + b)[1..] == a[1..] + b;
    }
  }

  lemma ShapedSplice(kids: seq<Tree>, i: nat, n: nat, mc: seq<Tree>)
    requires i + n <= |kids| && ShapedAll(kids) && ShapedAll(mc)
    ensures ShapedAll(Splice(kids, i, n, mc))
  {
    var a, m, b := kids[..i], kids[i..i + n], kids[i + n..];
    assert kids == a + m + b;
    ShapedAppend(a, m);
    ShapedAppend(a + m, b);
    ShapedAppend(a, mc);
    ShapedAppend(a + mc, b);
  }

  lemma TwoShaped(a: Tree, b: Tree)
    requires Shaped(a) && Shaped(b)
    ensures ShapedAll([a, b]) && ShapedAll([a])
  {
    assert [a, b][1..] == [b] && [b][1..] == [] && [a][1..] == [];
  }

  lemma TakeLeftShaped(a: Tree, b: Tree)
    requires Shaped(a) && Shaped(b) && Spare(a) && SameKind(a, b)
    ensures Shaped(TakeLeft(a, b).1) && Shaped(TakeLeft(a, b).2)
  {
    if a.Node? {
      var n := |a.keys|;
      assert a.kids == a.kids[..n] + [a.kids[n]];
      ShapedAppend(a.kids[..n], [a.kids[n]]);
      ShapedAppend([a.kids[n]], b.kids);
    }
  }

  lemma TakeRightShaped(a: Tree, b: Tree)
    requires Shaped(a) && Shaped(b) && Spare(b) && SameKind(a, b)
    ensures Shaped(TakeRight(a, b).1) && Shaped(TakeRight(a, b).2)
  {
    if a.Node? {
      assert b.kids == [b.kids[0]] + b.kids[1..];
      ShapedAppend([b.kids[0]], b.kids[1..]);
      ShapedAppend(a.kids, [b.kids[0]]);
    }
  }

  lemma MergedShaped(a: Tree, s: int, b: Tree)
    requires Shaped(a) && Shaped(b) && SameKind(a, b)
    ensures Shaped(Merged(a, s, b))
  {
    if a.Node? {
      ShapedAppend(a.kids, b.kids);
    }
  }

  lemma RebalanceShaped(keys: seq<int>, kids: seq<Tree>, i: nat)
    requires i < |kids| == |keys| + 1 && ShapedAll(kids)
    ensures var r := Rebalance(keys, kids, i);
            r.Some? ==> |r.value.kids| == |r.value.keys| + 1 && ShapedAll(r.value.kids)
  {
    ShapedAt(kids, i);
    if i > 0 { ShapedAt(kids, i - 1); }
    if i + 1 < |kids| { ShapedAt(kids, i + 1); }
    if i > 0 && !SameKind(kids[i - 1], kids[i]) {
    } else if i > 0 && Spare(kids[i - 1]) {
      var (_, a, b) := TakeLeft(kids[i - 1], kids[i]);
      TakeLeftShaped(kids[i - 1], kids[i]);
      TwoShaped(a, b);
      ShapedSplice(kids, i - 1, 2, [a, b]);
    } else if i + 1 < |kids| && !SameKind(kids[i], kids[i + 1]) {
    } else if i + 1 < |kids| && Spare(kids[i + 1]) {
      var (_, a, b) := TakeRight(kids[i], kids[i + 1]);
      TakeRightShaped(kids[i], kids[i + 1]);
      TwoShaped(a, b);
      ShapedSplice(kids, i, 2, [a, b]);
    } else if i + 1 < |kids| {
      MergedShaped(kids[i], keys[i], kids[i + 1]);
      var m := Merged(kids[i], keys[i], kids[i + 1]);
      TwoShaped(m, m);
      ShapedSplice(kids, i, 2, [m]);
    } else if i > 0 {
      MergedShaped(kids[i - 1], keys[i - 1], kids[i]);
      var m := Merged(kids[i - 1], keys[i - 1], kids[i]);
      TwoShaped(m, m);
      ShapedSplice(kids, i - 1, 2, [m]);
    }
  }
}
