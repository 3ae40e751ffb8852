/** Deletion refines map removal exactly when it does not borrow between internal nodes. */
module BTreeDeleteProof {
  import opened Common
  import opened BTree
  import opened BTreeInsert
  import opened BTreeDelete

  /** The guard of the branch that is wrong: on the way back up from the entry, an underfull
      internal node has a sibling internal node with a child to spare. */
  predicate BorrowsInternally(t: Tree, e: Entry)
    requires Shaped(t)
    decreases t
  {
    match t
    case Leaf(_) => false
    case Node(_, keys, kids) =>
      var i := UpperBound(keys, e.key);
      ShapedAt(kids, i);
      var d := DelT(kids[i], e);
      || BorrowsInternally(kids[i], e)
      || BorrowsHere(kids, i, d)
  }

  // ----- one pair of neighbours

  lemma TwoWF(a: Tree, s: int, b: Tree, h: nat, lo: Bound, hi: Bound)
    ensures WFs([s], [a, b], h, lo, hi) <==> WF(a, h, lo, Some(s)) && WF(b, h, Some(s), hi)
  {
    assert [s][1..] == [] && [a, b][1..] == [b];
    assert WFs([], [b], h, Some(s), hi) <==> WF(b, h, Some(s), hi);
  }

  lemma TwoEntries(a: Tree, b: Tree)
    ensures EntriesAll([a, b]) == Entries(a) + Entries(b)
  {
    assert [a, b] == [a] + [b];
    EntriesAppend([a], [b]);
    OneKid(a);
    OneKid(b);
  }

  lemma TakeLeftLeaf(a: Tree, s: int, b: Tree, lo: Bound, hi: Bound)
    requires a.Leaf? && b.Leaf? && Spare(a) && WF(a, 0, lo, Some(s)) && WF(b, 0, Some(s), hi)
    ensures var (s', a', b') := TakeLeft(a, b); WF(a', 0, lo, Some(s')) && WF(b', 0, Some(s'), hi)
  {
    var n := |a.l.es| - 1;
    var es, x := a.l.es, a.l.es[n];
    assert x in es;
    Halves(es, n, lo, Some(s));
    assert es[n..] == [x] && Increasing([x]);
    JoinSorted([x], b.l.es, Some(x.key), s, hi);
    hide Increasing, Between;
  }

  lemma TakeRightLeaf(a: Tree, s: int, b: Tree, lo: Bound, hi: Bound)
    requires a.Leaf? && b.Leaf? && Spare(b) && WF(a, 0, lo, Some(s)) && WF(b, 0, Some(s), hi)
    ensures var (s', a', b') := TakeRight(a, b); WF(a', 0, lo, Some(s')) && WF(b', 0, Some(s'), hi)
  {
    var es, x := b.l.es, b.l.es[0];
    Halves(es, 1, Some(s), hi);
    assert es[..1] == [x];
    JoinSorted(a.l.es, [x], lo, s, Some(es[1].key));
    hide Increasing, Between;
  }

  lemma TakeEntries(a: Tree, b: Tree)
    requires a.Leaf? && b.Leaf?
    ensures Spare(a) ==> var (_, a', b') := TakeLeft(a, b); Entries(a') + Entries(b') == Entries(a) + Entries(b)
    ensures Spare(b) ==> var (_, a', b') := TakeRight(a, b); Entries(a') + Entries(b') == Entries(a) + Entries(b)
  {
    forall l { OneLeaf(l); }
    hide Entries;
    if Spare(a) {
      var n := |a.l.es| - 1;
      assert a.l.es[..n] + ([a.l.es[n]] + b.l.es) == a.l.es + b.l.es;
    }
    if Spare(b) {
      assert (a.l.es + [b.l.es[0]]) + b.l.es[1..] == a.l.es + b.l.es;
    }
  }

  lemma MergedWF(a: Tree, s: int, b: Tree, h: nat, lo: Bound, hi: Bound)
    requires SameKind(a, b) && WF(a, h, lo, Some(s)) && WF(b, h, Some(s), hi)
    ensures WF(Merged(a, s, b), h, lo, hi)
    ensures Entries(Merged(a, s, b)) == Entries(a) + Entries(b)
  {
    if a.Leaf? {
      JoinSorted(a.l.es, b.l.es, lo, s, hi);
      OneLeaf(a.l);
      OneLeaf(b.l);
      OneLeaf(Merged(a, s, b).l);
    } else {
      WFsJoin(a.keys, a.kids, s, b.keys, b.kids, h - 1, lo, hi);
      EntriesAppend(a.kids, b.kids);
    }
  }

  // ----- rebalancing

  function Size(t: Tree): nat {
    match t case Leaf(l) => |l.es| case Node(_, _, kids) => |kids|
  }

  function Least(t: Tree): nat {
    if t.Leaf? then MIN_LEAF else MIN_KIDS
  }

  /** Fits its page, with sound children. */
  ghost predicate Fits(t: Tree, c: Caps) {
    match t
    case Leaf(l) => |l.es| <= c.leaf
    case Node(_, keys, kids) => |keys| <= c.inner && |kids| == |keys| + 1 && forall k | k in kids :: Occ(k, false, c)
  }

  lemma OccIs(t: Tree, c: Caps)
    ensures Occ(t, false, c) <==> Fits(t, c) && Size(t) >= Least(t)
  {
  }

  ghost predicate AllOcc(kids: seq<Tree>, c: Caps) {
    forall k | k in kids :: Occ(k, false, c)
  }

  /** Two neighbours replaced by a row within the same bounds, holding the same entries. */
  ghost predicate Same(a: Tree, s: int, b: Tree, row: Row, h: nat, lo: Bound, hi: Bound) {
    WFs(row.keys, row.kids, h, lo, hi) && EntriesAll(row.kids) == Entries(a) + Entries(b)
  }

  lemma PairSplice(keys: seq<int>, kids: seq<Tree>, j: nat, row: Row, c: Caps, h: nat, lo: Bound, hi: Bound)
    requires WFs(keys, kids, h, lo, hi) && j + 1 < |kids| && |kids| == |keys| + 1
    requires Same(kids[j], keys[j], kids[j + 1], row, h, Lo(keys, j, lo), Hi(keys, j + 1, hi))
    requires AllOcc(kids[..j], c) && AllOcc(row.kids, c) && AllOcc(kids[j + 2..], c)
    ensures var keys', kids' := Splice(keys, j, 1, row.keys), Splice(kids, j, 2, row.kids);
            && WFs(keys', kids', h, lo, hi) && EntriesAll(kids') == EntriesAll(kids) && AllOcc(kids', c)
            && |kids'| == |keys'| + 1
  {
    WFsSplice(keys, kids, h, lo, hi, j, 2, row.keys, row.kids);
    WFsLength(Splice(keys, j, 1, row.keys), Splice(kids, j, 2, row.kids), h, lo, hi);
    hide WFs, Occ, EntriesAll, Entries;
    EntriesSplice(kids, j, 2, row.kids);
    assert kids[j..j + 2] == [kids[j], kids[j + 1]];
    TwoEntries(kids[j], kids[j + 1]);
  }

  lemma PairWF(keys: seq<int>, kids: seq<Tree>, j: nat, h: nat, lo: Bound, hi: Bound)
    requires WFs(keys, kids, h, lo, hi) && j + 1 < |kids| && |kids| == |keys| + 1
    ensures WF(kids[j], h, Lo(keys, j, lo), Some(keys[j])) && WF(kids[j + 1], h, Some(keys[j]), Hi(keys, j + 1, hi))
    ensures SameKind(kids[j], kids[j + 1]) && (kids[j].Leaf? <==> h == 0)
  {
    WFsAt(keys, kids, h, lo, hi, j);
    WFsAt(keys, kids, h, lo, hi, j + 1);
  }

  lemma LeftStep(keys: seq<int>, kids: seq<Tree>, i: nat, c: Caps, h: nat, lo: Bound, hi: Bound)
    requires WFs(keys, kids, h, lo, hi) && 0 < i < |kids| && |kids| == |keys| + 1 && ShapedAll(kids)
    requires kids[i].Leaf? && Spare(kids[i - 1]) && Size(kids[i]) == MIN_LEAF - 1 && Roomy(c)
    requires AllOcc(kids[..i], c) && AllOcc(kids[i + 1..], c)
    ensures SameKind(kids[i - 1], kids[i])
    ensures var (s, a, b) := TakeLeft(kids[i - 1], kids[i]);
            var keys', kids' := Splice(keys, i - 1, 1, [s]), Splice(kids, i - 1, 2, [a, b]);
            WFs(keys', kids', h, lo, hi) && EntriesAll(kids') == EntriesAll(kids) && AllOcc(kids', c)
  {
    PairWF(keys, kids, i - 1, h, lo, hi);
    TakeLeftLeaf(kids[i - 1], keys[i - 1], kids[i], Lo(keys, i - 1, lo), Hi(keys, i, hi));
    TakeEntries(kids[i - 1], kids[i]);
    var (s, a, b) := TakeLeft(kids[i - 1], kids[i]);
    TwoWF(a, s, b, h, Lo(keys, i - 1, lo), Hi(keys, i, hi));
    TwoEntries(a, b);
    assert kids[..i][i - 1] == kids[i - 1] && kids[i - 1] in kids[..i];
    assert Occ(a, false, c) && Occ(b, false, c);
    hide WFs, WF, Entries, EntriesAll;
    assert kids[..i - 1] == kids[..i][..i - 1];
    PairSplice(keys, kids, i - 1, Row([s], [a, b]), c, h, lo, hi);
  }

  lemma RightStep(keys: seq<int>, kids: seq<Tree>, i: nat, c: Caps, h: nat, lo: Bound, hi: Bound)
    requires WFs(keys, kids, h, lo, hi) && i + 1 < |kids| && |kids| == |keys| + 1 && ShapedAll(kids)
    requires kids[i].Leaf? && Spare(kids[i + 1]) && Size(kids[i]) == MIN_LEAF - 1 && Roomy(c)
    requires AllOcc(kids[..i], c) && AllOcc(kids[i + 1..], c)
    ensures SameKind(kids[i], kids[i + 1])
    ensures var (s, a, b) := TakeRight(kids[i], kids[i + 1]);
            var keys', kids' := Splice(keys, i, 1, [s]), Splice(kids, i, 2, [a, b]);
            WFs(keys', kids', h, lo, hi) && EntriesAll(kids') == EntriesAll(kids) && AllOcc(kids', c)
  {
    PairWF(keys, kids, i, h, lo, hi);
    TakeRightLeaf(kids[i], keys[i], kids[i + 1], Lo(keys, i, lo), Hi(keys, i + 1, hi));
    TakeEntries(kids[i], kids[i + 1]);
    var (s, a, b) := TakeRight(kids[i], kids[i + 1]);
    TwoWF(a, s, b, h, Lo(keys, i, lo), Hi(keys, i + 1, hi));
    TwoEntries(a, b);
    assert kids[i + 1..][0] == kids[i + 1] && kids[i + 1] in kids[i + 1..];
    assert Occ(a, false, c) && Occ(b, false, c);
    hide WFs, WF, Entries, EntriesAll;
    assert kids[i + 2..] == kids[i + 1..][1..];
    PairSplice(keys, kids, i, Row([s], [a, b]), c, h, lo, hi);
  }

  /** Merging an underfull node with a neighbour that has nothing to spare always fits a page. */
  lemma MergeStep(keys: seq<int>, kids: seq<Tree>, j: nat, c: Caps, h: nat, lo: Bound, hi: Bound)
    requires WFs(keys, kids, h, lo, hi) && j + 1 < |kids| && |kids| == |keys| + 1
    requires Fits(kids[j], c) && Fits(kids[j + 1], c) && Roomy(c)
    requires Size(kids[j]) + Size(kids[j + 1]) == 2 * Least(kids[j]) - 1
    requires AllOcc(kids[..j], c) && AllOcc(kids[j + 2..], c)
    ensures SameKind(kids[j], kids[j + 1])
    ensures var keys', kids' := Splice(keys, j, 1, []), Splice(kids, j, 2, [Merged(kids[j], keys[j], kids[j + 1])]);
            WFs(keys', kids', h, lo, hi) && EntriesAll(kids') == EntriesAll(kids) && AllOcc(kids', c)
  {
    PairWF(keys, kids, j, h, lo, hi);
    var l, u := Lo(keys, j, lo), Hi(keys, j + 1, hi);
    MergedWF(kids[j], keys[j], kids[j + 1], h, l, u);
    var m := Merged(kids[j], keys[j], kids[j + 1]);
    assert WFs([], [m], h, l, u);
    OneKid(m);
    assert Occ(m, false, c);
    hide WFs, WF, Entries, EntriesAll, Occ;
    PairSplice(keys, kids, j, Row([], [m]), c, h, lo, hi);
  }

  lemma RebalanceOk(keys: seq<int>, kids: seq<Tree>, i: nat, c: Caps, h: nat, lo: Bound, hi: Bound)
    requires WFs(keys, kids, h, lo, hi) && i < |kids| && 2 <= |kids| == |keys| + 1 && ShapedAll(kids)
    requires Fits(kids[i], c) && Size(kids[i]) == Least(kids[i]) - 1 && Roomy(c)
    requires AllOcc(kids[..i], c) && AllOcc(kids[i + 1..], c)
    requires kids[i].Node? ==> (i > 0 ==> !Spare(kids[i - 1])) && (i + 1 < |kids| ==> !Spare(kids[i + 1]))
    ensures var r := Rebalance(keys, kids, i);
            && r.Some? && WFs(r.value.keys, r.value.kids, h, lo, hi)
            && EntriesAll(r.value.kids) == EntriesAll(kids) && AllOcc(r.value.kids, c)
            && |kids| - 1 <= |r.value.kids| <= |kids| && |r.value.kids| == |r.value.keys| + 1
  {
    if i > 0 {
      PairWF(keys, kids, i - 1, h, lo, hi);
      assert kids[..i][i - 1] == kids[i - 1] && kids[i - 1] in kids[..i];
      OccIs(kids[i - 1], c);
      assert kids[..i - 1] == kids[..i][..i - 1];
    }
    if i + 1 < |kids| {
      PairWF(keys, kids, i, h, lo, hi);
      assert kids[i + 1..][0] == kids[i + 1] && kids[i + 1] in kids[i + 1..];
      OccIs(kids[i + 1], c);
      assert kids[i + 2..] == kids[i + 1..][1..];
    }
    hide WFs, WF, Entries, EntriesAll, Occ, Merged, ShapedAll;
    if i > 0 && Spare(kids[i - 1]) {
      LeftStep(keys, kids, i, c, h, lo, hi);
    } else if i + 1 < |kids| && Spare(kids[i + 1]) {
      RightStep(keys, kids, i, c, h, lo, hi);
    } else if i + 1 < |kids| {
      MergeStep(keys, kids, i, c, h, lo, hi);
    } else {
      MergeStep(keys, kids, i - 1, c, h, lo, hi);
    }
  }

  // ----- the recursion

  lemma RemoveSorted(es: seq<Entry>, p: nat, lo: Bound, hi: Bound)
    requires Increasing(es) && Between(es, lo, hi) && p < |es|
    ensures Increasing(Splice(es, p, 1, [])) && Between(Splice(es, p, 1, []), lo, hi)
  {
    var r := Splice(es, p, 1, []);
    forall i | 0 <= i < |r| ensures r[i] == es[if i < p then i else i + 1] {}
    forall x | x in r ensures x in es {}
  }

  ghost predicate DelOcc(d: Del, root: bool, c: Caps) {
    && Fits(d.t, c)
    && (!root ==> (d.under <==> Size(d.t) < Least(d.t)) && Size(d.t) >= Least(d.t) - 1)
    && (d.t.Node? ==> Size(d.t) >= 1)
    && (d.t.Node? && !d.removed ==> Size(d.t) >= 2)
  }

  lemma {:induction false} DelKeeps(t: Tree, e: Entry, c: Caps, root: bool, h: nat, lo: Bound, hi: Bound)
    returns (p: nat)
    requires WF(t, h, lo, hi) && Shaped(t) && Above(lo, e.key) && Below(e.key, hi)
    requires Occ(t, root, c) && Roomy(c) && !BorrowsInternally(t, e)
    ensures WF(DelT(t, e).t, h, lo, hi) && DelOcc(DelT(t, e), root, c)
    ensures DelT(t, e).removed <==> e in Entries(t)
    ensures !DelT(t, e).removed ==> DelT(t, e).t == t
    ensures DelT(t, e).removed ==>
              p < |Entries(t)| && Entries(t)[p] == e && Entries(DelT(t, e).t) == Splice(Entries(t), p, 1, [])
    decreases t
  {
    match t
    case Leaf(l) =>
      OneLeaf(l);
      p := 0;
      var r := IndexOf(l.es, e);
      if r.Some? {
        p := r.value;
        RemoveSorted(l.es, p, lo, hi);
        OneLeaf(l.(es := Splice(l.es, p, 1, [])));
      }
    case Node(pid, keys, kids) =>
      var i := UpperBound(keys, e.key);
      ShapedAt(kids, i);
      UpperBoundIsChild(keys, e.key, lo, hi);
      WFsAt(keys, kids, h - 1, lo, hi, i);
      assert kids[i] in kids;
      p := DelKeeps(kids[i], e, c, false, h - 1, Lo(keys, i, lo), Hi(keys, i, hi));
      p := DelNode(t, e, i, DelT(kids[i], e), p, c, root, h, lo, hi);
  }

  lemma EntryInChild(keys: seq<int>, kids: seq<Tree>, h: nat, lo: Bound, hi: Bound, e: Entry, i: nat)
    requires WFs(keys, kids, h, lo, hi) && Above(lo, e.key) && Below(e.key, hi) && i == UpperBound(keys, e.key)
    ensures i < |kids| && (e in EntriesAll(kids) <==> e in Entries(kids[i]))
  {
    WFsLength(keys, kids, h, lo, hi);
    NotBefore(keys, kids, h, lo, hi, i, e.key);
    NotAfter(keys, kids, h, lo, hi, i, e.key);
    hide WFs, EntriesAll, Entries;
    EntriesSplice(kids, i, 1, []);
    assert kids[i..i + 1] == [kids[i]];
    OneKid(kids[i]);
    AbsentKeys(EntriesAll(kids[..i]), e.key);
    AbsentKeys(EntriesAll(kids[i + 1..]), e.key);
  }

  /** The entries of a node whose child i lost the entry at position q. */
  lemma KidLost(kids: seq<Tree>, i: nat, k: Tree, q: nat) returns (p: nat)
    requires i < |kids| && q < |Entries(kids[i])| && Entries(k) == Splice(Entries(kids[i]), q, 1, [])
    ensures p < |EntriesAll(kids)| && EntriesAll(kids)[p] == Entries(kids[i])[q]
    ensures EntriesAll(Splice(kids, i, 1, [k])) == Splice(EntriesAll(kids), p, 1, [])
  {
    var a, m, b := EntriesAll(kids[..i]), Entries(kids[i]), EntriesAll(kids[i + 1..]);
    p := |a| + q;
    assert EntriesAll(kids) == a + m + b by {
      EntriesSplice(kids, i, 1, []);
      assert kids[i..i + 1] == [kids[i]];
      OneKid(kids[i]);
    }
    calc {
      EntriesAll(Splice(kids, i, 1, [k]));
    ==  { EntriesSplice(kids, i, 1, [k]); OneKid(k); }
      a + Splice(m, q, 1, []) + b;
    ==  { SpliceMiddle(a, m, b, q, []); }
      Splice(a + m + b, p, 1, []);
    }
    SpliceMiddle(a, m, b, q, []);
  }

  /** A spare internal neighbour of an underfull internal child. */
  predicate BorrowsHere(kids: seq<Tree>, i: nat, d: Del)
    requires i < |kids|
  {
    d.removed && d.under && kids[i].Node? &&
      ((i > 0 && Spare(kids[i - 1])) || (i + 1 < |kids| && Spare(kids[i + 1])))
  }

  lemma DelNode(t: Tree, e: Entry, i: nat, d: Del, q: nat, c: Caps, root: bool, h: nat, lo: Bound, hi: Bound)
    returns (p: nat)
    requires t.Node? && WF(t, h, lo, hi) && Shaped(t) && Above(lo, e.key) && Below(e.key, hi)
    requires Occ(t, root, c) && Roomy(c)
    requires i == UpperBound(t.keys, e.key) && i < |t.kids| && Shaped(d.t) && !BorrowsHere(t.kids, i, d)
    requires WF(d.t, h - 1, Lo(t.keys, i, lo), Hi(t.keys, i, hi)) && DelOcc(d, false, c)
    requires (d.removed <==> e in Entries(t.kids[i])) && (!d.removed ==> d.t == t.kids[i])
    requires d.removed ==> q < |Entries(t.kids[i])| && Entries(t.kids[i])[q] == e
    requires d.removed ==> Entries(d.t) == Splice(Entries(t.kids[i]), q, 1, [])
    ensures var r := NodeDel(t.pid, t.keys, t.kids, i, d);
            && WF(r.t, h, lo, hi) && DelOcc(r, root, c)
            && (r.removed <==> e in Entries(t)) && (!r.removed ==> r.t == t)
            && (r.removed ==> p < |Entries(t)| && Entries(t)[p] == e && Entries(r.t) == Splice(Entries(t), p, 1, []))
  {
    var keys, kids := t.keys, t.kids;
    EntryInChild(keys, kids, h - 1, lo, hi, e, i);
    p := 0;
    if !d.removed {
      assert Splice(kids, i, 1, [d.t]) == kids;
    } else {
      p := KidLost(kids, i, d.t, q);
      DelNodeRow(t, i, d, c, root, h, lo, hi);
    }
  }

  lemma DelNodeRow(t: Tree, i: nat, d: Del, c: Caps, root: bool, h: nat, lo: Bound, hi: Bound)
    requires t.Node? && WF(t, h, lo, hi) && Shaped(t) && Occ(t, root, c) && Roomy(c)
    requires i < |t.kids| && Shaped(d.t) && !BorrowsHere(t.kids, i, d)
    requires d.removed && WF(d.t, h - 1, Lo(t.keys, i, lo), Hi(t.keys, i, hi)) && DelOcc(d, false, c)
    ensures var r := NodeDel(t.pid, t.keys, t.kids, i, d);
            && WF(r.t, h, lo, hi) && DelOcc(r, root, c) && r.removed
            && Entries(r.t) == EntriesAll(Splice(t.kids, i, 1, [d.t]))
  {
    if d.under {
      UnderRow(t, i, d, c, root, h, lo, hi);
    } else {
      ReplaceKid(t.keys, t.kids, i, d.t, c, h - 1, lo, hi);
      OccIs(d.t, c);
      hide ShapedAll, WFs, Rebalance;
    }
  }

  lemma UnderRow(t: Tree, i: nat, d: Del, c: Caps, root: bool, h: nat, lo: Bound, hi: Bound)
    requires t.Node? && WF(t, h, lo, hi) && Shaped(t) && Occ(t, root, c) && Roomy(c)
    requires i < |t.kids| && Shaped(d.t) && !BorrowsHere(t.kids, i, d)
    requires d.removed && WF(d.t, h - 1, Lo(t.keys, i, lo), Hi(t.keys, i, hi)) && DelOcc(d, false, c) && d.under
    ensures var kids' := Splice(t.kids, i, 1, [d.t]);
            && ShapedAll(kids') && |kids'| == |t.kids|
            && var r := Rebalance(t.keys, kids', i);
            && r.Some? && WFs(r.value.keys, r.value.kids, h - 1, lo, hi)
            && EntriesAll(r.value.kids) == EntriesAll(kids') && AllOcc(r.value.kids, c)
            && |kids'| - 1 <= |r.value.kids| <= |kids'| && |r.value.kids| == |r.value.keys| + 1
  {
    var kids' := Splice(t.kids, i, 1, [d.t]);
    ReplaceKid(t.keys, t.kids, i, d.t, c, h - 1, lo, hi);
    hide WFs, Occ, Shaped, Rebalance, EntriesAll, ShapedAll, Splice, Lo, Hi;
    RebalanceOk(t.keys, kids', i, c, h - 1, lo, hi);
  }

  lemma ReplaceKid(keys: seq<int>, kids: seq<Tree>, i: nat, k: Tree, c: Caps, h: nat, lo: Bound, hi: Bound)
    requires WFs(keys, kids, h, lo, hi) && i < |kids| == |keys| + 1 && ShapedAll(kids) && AllOcc(kids, c)
    requires WF(k, h, Lo(keys, i, lo), Hi(keys, i, hi)) && Shaped(k)
    ensures var kids' := Splice(kids, i, 1, [k]);
            && WFs(keys, kids', h, lo, hi) && ShapedAll(kids') && |kids'| == |kids|
            && kids'[i] == k && (i > 0 ==> kids'[i - 1] == kids[i - 1])
               && (i + 1 < |kids| ==> kids'[i + 1] == kids[i + 1])
            && AllOcc(kids'[..i], c) && AllOcc(kids'[i + 1..], c) && (Occ(k, false, c) ==> AllOcc(kids', c))
            && SameKind(k, kids[i])
  {
    assert WFs([], [k], h, Lo(keys, i, lo), Hi(keys, i, hi));
    assert SameKind(k, kids[i]) by { WFsAt(keys, kids, h, lo, hi, i); }
    TwoShaped(k, k);
    hide WFs, WF, Occ, ShapedAll, Shaped;
    WFsSplice(keys, kids, h, lo, hi, i, 1, [], [k]);
    assert Splice(keys, i, 0, []) == keys;
    ShapedSplice(kids, i, 1, [k]);
    var kids' := Splice(kids, i, 1, [k]);
    assert kids'[..i] == kids[..i] && kids'[i + 1..] == kids[i + 1..];
  }
}
