/** The leaf page that a merge gives up: it keeps its entries and stays in the chain, so a scan that
    passes it yields them once more. */
module BTreeOrphan {
  import opened Common
  import opened BTree
  import opened BTreeInsert
  import opened BTreeDelete
  import opened BTreeDeleteProof
  import opened BTreeDeleteExact
  import opened BTreeChain
  import opened BTreeRep
  import opened BTreeDeletePages
  import opened BTreeWalk

  // ----- the page

  /** The page that leaf `at` had is no page of the new tree any more, and shows a full leaf's entries
      less at most one; the leaf now at that position begins with them. */
  ghost predicate OrphanStays(pages: Pages, t: Tree, t': Tree, at: Option<nat>) {
    at.Some? ==>
      && at.value < |Leaves(t)| && at.value < |Leaves(t')|
      && var p := Leaves(t)[at.value].pid;
      && p in Foot(t) && p !in Foot(t') && p in pages && LeafOk(pages[p])
      && |EntriesOf(pages[p])| >= MIN_LEAF - 1 && EntriesOf(pages[p]) <= Leaves(t')[at.value].es
  }

  lemma OrphanKept(pages: Pages, pages': Pages, t: Tree, t1: Tree, t2: Tree, at: Option<nat>)
    requires OrphanStays(pages, t, t1, at) && SameOutside(pages, pages', Foot(t1))
    requires Foot(t2) <= Foot(t1) && Leaves(t2) == Leaves(t1)
    ensures OrphanStays(pages', t, t2, at)
  {
    hide Foot, Leaves, LeafOk, EntriesOf;
  }

  lemma KidLeaves(kids: seq<Tree>, i: nat, k: Tree)
    requires i < |kids|
    ensures LeavesAll(kids) == LeavesAll(kids[..i]) + Leaves(kids[i]) + LeavesAll(kids[i + 1..])
    ensures LeavesAll(Splice(kids, i, 1, [k])) == LeavesAll(kids[..i]) + Leaves(k) + LeavesAll(kids[i + 1..])
  {
    LeavesSplice(kids, i, 1, [k]);
    assert kids[i..i + 1] == [kids[i]];
    OneKid(kids[i]);
    OneKid(k);
  }

  /** From a child to its parent. */
  lemma OrphanUp(pages: Pages, t: Tree, i: nat, k: Tree, at: Option<nat>)
    requires t.Node? && Sep(t) && i < |t.kids| && OrphanStays(pages, t.kids[i], k, at)
    ensures OrphanStays(pages, t, Node(t.pid, t.keys, Splice(t.kids, i, 1, [k])), Shift(at, |LeavesAll(t.kids[..i])|))
  {
    if at.Some? {
      UpPosition(t, i, k, at.value);
      UpFeet(t, i, k, Leaves(t.kids[i])[at.value].pid);
      hide Leaves, LeavesAll, Foot, LeafOk, EntriesOf, Sep, Splice;
    }
  }

  lemma UpPosition(t: Tree, i: nat, k: Tree, j: nat)
    requires t.Node? && i < |t.kids| && j < |Leaves(t.kids[i])| && j < |Leaves(k)|
    ensures var t', n := Node(t.pid, t.keys, Splice(t.kids, i, 1, [k])), |LeavesAll(t.kids[..i])|;
            && n + j < |Leaves(t)| && n + j < |Leaves(t')|
            && Leaves(t)[n + j] == Leaves(t.kids[i])[j] && Leaves(t')[n + j] == Leaves(k)[j]
  {
    KidLeaves(t.kids, i, k);
    var t' := Node(t.pid, t.keys, Splice(t.kids, i, 1, [k]));
    assert Leaves(t) == LeavesAll(t.kids) && Leaves(t') == LeavesAll(t'.kids);
    hide Leaves, LeavesAll, Splice;
  }

  lemma UpFeet(t: Tree, i: nat, k: Tree, p: nat)
    requires t.Node? && Sep(t) && i < |t.kids| && p in Foot(t.kids[i]) && p !in Foot(k)
    ensures p in Foot(t) && p !in Foot(Node(t.pid, t.keys, Splice(t.kids, i, 1, [k])))
  {
    var t' := Node(t.pid, t.keys, Splice(t.kids, i, 1, [k]));
    KidFeet(t.kids, i, k);
    SepParts(t.kids, i);
    assert Foot(t') == {t.pid} + FootAll(t'.kids) && Foot(t) == {t.pid} + FootAll(t.kids) && t.pid !in FootAll(t.kids);
    hide Foot, FootAll, Sep, SepAll, Splice;
  }

  lemma PairLeaves(kids: seq<Tree>, j: nat, mc: seq<Tree>)
    requires j + 1 < |kids| && LeavesAll(mc) == Leaves(kids[j]) + Leaves(kids[j + 1])
    ensures LeavesAll(Splice(kids, j, 2, mc)) == LeavesAll(kids)
  {
    LeavesSplice(kids, j, 2, mc);
    assert kids[j..j + 2] == [kids[j], kids[j + 1]];
    TwoLeaves(kids[j], kids[j + 1]);
  }

  /** Mending internal nodes moves no leaf. */
  lemma RebalanceLeaves(row: Row, i: nat, c: Caps)
    requires Mendable(row, i, c) && |row.kids| == |row.keys| + 1 && ShapedAll(row.kids) && row.kids[i].Node?
    ensures Rebalance(row.keys, row.kids, i).Some?
    ensures LeavesAll(Rebalance(row.keys, row.kids, i).value.kids) == LeavesAll(row.kids)
  {
    var kids := row.kids;
    RebalanceIs(row, i, c);
    hide Rebalance, Mendable, Fits;
    if i > 0 && Spare(kids[i - 1]) {
      ShapedAt(kids, i - 1);
      TakeLeftLinks(kids[i - 1], kids[i]);
      var (_, a, b) := TakeLeft(kids[i - 1], kids[i]);
      TwoLeaves(a, b);
      PairLeaves(kids, i - 1, [a, b]);
    } else if i + 1 < |kids| && Spare(kids[i + 1]) {
      ShapedAt(kids, i + 1);
      TakeRightLinks(kids[i], kids[i + 1]);
      var (_, a, b) := TakeRight(kids[i], kids[i + 1]);
      TwoLeaves(a, b);
      PairLeaves(kids, i, [a, b]);
    } else {
      var j := if i + 1 < |kids| then i else i - 1;
      var m := Merged(kids[j], row.keys[j], kids[j + 1]);
      LeavesAppend(kids[j].kids, kids[j + 1].kids);
      OneKid(m);
      PairLeaves(kids, j, [m]);
    }
  }

  /** The page of the left one of two merged leaves. */
  lemma MergedAway(pages: Pages, pages': Pages, pid: nat, parent: PageNode, kids: seq<Tree>, keys: seq<int>, m: nat,
                   node: PageNode)
    requires RowOn(pages, pid, parent, Row(keys, kids)) && m + 1 < |kids| && kids[m].Leaf? && kids[m + 1].Leaf?
    requires Increasing(kids[m].l.es) && Became(pages, pages', pid, kids, node, MergedRow(Row(keys, kids), m))
    ensures var p := kids[m].l.pid;
            && p !in FootAll(MergedRow(Row(keys, kids), m).kids) && p != pid && p in pages' && LeafOk(pages'[p])
            && EntriesOf(pages'[p]) == kids[m].l.es
  {
    var row, p := Row(keys, kids), kids[m].l.pid;
    var merged := Merged(kids[m], keys[m], kids[m + 1]);
    RowKid(pages, pid, parent, row, m);
    RowPair(pages, pid, parent, row, m);
    PairApart(kids, m);
    OneKidSep(merged);
    assert FootAll([merged]) == {kids[m + 1].l.pid} && Foot(kids[m]) == {p};
    assert Foot(kids[m + 1]) == {kids[m + 1].l.pid};
    var feet := FootAll(MergedRow(row, m).kids);
    assert kids[m..m + 2] == [kids[m], kids[m + 1]];
    TwoKidsSep(kids[m], kids[m + 1]);
    hide Rep, Foot, FootAll, Shaped, ShapedAll;
    SepSplice(kids, m, 2, [merged]);
    assert feet == FootAll(kids[..m]) + {kids[m + 1].l.pid} + FootAll(kids[m + 2..]);
    assert p in FootAll(kids) - feet;
    ViewOk(kids[m].l);
  }

  /** The leaf at that position, before and after. */
  lemma MergedAt(keys: seq<int>, kids: seq<Tree>, i: nat, k: Tree, m: nat)
    requires i < |kids| == |keys| + 1 && m <= i <= m + 1 < |kids| && kids[m].Leaf? && k.Leaf?
             && SameKind(kids[m + 1], k)
    ensures var kids' := Splice(kids, i, 1, [k]);
            var n := |LeavesAll(kids[..m])|;
            && |kids'| == |kids| && SameKind(kids'[m], kids'[m + 1]) && kids'[m].Leaf?
            && var merged := Merged(kids'[m], keys[m], kids'[m + 1]).l;
            var after := LeavesAll(Splice(kids', m, 2, [Leaf(merged)]));
            && n < |LeavesAll(kids)| && n < |after| && LeavesAll(kids)[n] == kids[m].l && after[n] == merged
            && kids'[m].l.es <= after[n].es
  {
    var kids' := Splice(kids, i, 1, [k]);
    assert kids' == kids[i := k];
    var merged := Merged(kids'[m], keys[m], kids'[m + 1]);
    KidLeaves(kids, m, k);
    LeavesSplice(kids', m, 2, [merged]);
    OneKid(merged);
    assert kids'[..m] == kids[..m];
    assert Leaves(kids[m]) == [kids[m].l] && Leaves(merged) == [merged.l];
    hide Leaves, LeavesAll, Merged;
  }

  /** One step of `AbandonedLeaf`. */
  lemma AbandonedStep(t: Tree, e: Entry)
    requires t.Node? && Shaped(t)
    ensures var i := UpperBound(t.keys, e.key);
            && i < |t.kids| == |t.keys| + 1 && Shaped(t.kids[i])
            && AbandonedLeaf(t, e) == (var d := DelT(t.kids[i], e);
                 if t.kids[i].Leaf? then
                   if d.removed && d.under && MergeIndex(t.kids, i).Some?
                       then Some(|LeavesAll(t.kids[..MergeIndex(t.kids, i).value])|)
                   else None
                 else Shift(AbandonedLeaf(t.kids[i], e), |LeavesAll(t.kids[..i])|))
            && (t.kids[i].Leaf? ==> AbandonedLeaf(t.kids[i], e) == None)
  {
    ShapedAt(t.kids, UpperBound(t.keys, e.key));
  }

  /** Nothing to mend: the parent of the child that lost the entry. */
  lemma OrphanNoMend(pages: Pages, t: Tree, e: Entry, i: nat)
    requires t.Node? && Shaped(t) && Sep(t) && i == UpperBound(t.keys, e.key) && i < |t.kids| == |t.keys| + 1
             && Shaped(t.kids[i])
    requires OrphanStays(pages, t.kids[i], DelT(t.kids[i], e).t, AbandonedLeaf(t.kids[i], e))
    requires var d := DelT(t.kids[i], e); !d.removed || !d.under
    ensures OrphanStays(pages, t, DelT(t, e).t, AbandonedLeaf(t, e))
  {
    AbandonedStep(t, e);
    DelStep(t, e);
    NodeDelIs(t, i, DelT(t.kids[i], e));
    hide DelT, NodeDel, AbandonedLeaf, OrphanStays, Sep, Shaped, ShapedAll, UpperBound;
    OrphanUp(pages, t, i, DelT(t.kids[i], e).t, AbandonedLeaf(t.kids[i], e));
    if t.kids[i].Leaf? {
      NoOrphan(pages, t, DelT(t, e).t);
    }
  }

  lemma NoOrphan(pages: Pages, t: Tree, t': Tree)
    ensures OrphanStays(pages, t, t', None)
  {
  }

  /** A mended row of leaves. */
  lemma OrphanLeaves(pages1: Pages, pages2: Pages, t: Tree, i: nat, k: Tree, c: Caps, node: PageNode)
    requires t.Node? && i < |t.kids| == |t.keys| + 1 && k.Leaf? && t.kids[i].Leaf? && Pid(k) == Pid(t.kids[i])
    requires |k.l.es| >= MIN_LEAF - 1 && forall x | x in t.kids :: x.Leaf? && |x.l.es| >= MIN_LEAF
    requires var row := Row(t.keys, Splice(t.kids, i, 1, [k]));
             && RowOn(pages1, t.pid, View(t), row) && Mendable(row, i, c) && Rebalance(row.keys, row.kids, i).Some?
             && Became(pages1, pages2, t.pid, row.kids, node, Rebalance(row.keys, row.kids, i).value)
    ensures var row := Row(t.keys, Splice(t.kids, i, 1, [k])); var row' := Rebalance(row.keys, row.kids, i).value;
            OrphanStays(pages2, t, Node(t.pid, row'.keys, row'.kids),
                        if MergeIndex(t.kids, i).Some? then Some(|LeavesAll(t.kids[..MergeIndex(t.kids, i).value])|)
                            else None)
  {
    if MergeIndex(t.kids, i).Some? {
      var m, row := MergeIndex(t.kids, i).value, Row(t.keys, Splice(t.kids, i, 1, [k]));
      MergeIs(t, i, k, m, c);
      LeafKidFoot(t.kids, m);
      MergedAt(t.keys, t.kids, i, k, m);
      hide *;
      MergedAway(pages1, pages2, t.pid, View(t), row.kids, t.keys, m, node);
      LeavesStay(pages2, t, MergedRow(row, m), m, row.kids[m].l);
    }
  }

  /** Which merge it is. */
  lemma MergeIs(t: Tree, i: nat, k: Tree, m: nat, c: Caps)
    requires t.Node? && i < |t.kids| == |t.keys| + 1 && k.Leaf? && Pid(k) == Pid(t.kids[i]) && |k.l.es| >= MIN_LEAF - 1
    requires forall x | x in t.kids :: x.Leaf? && |x.l.es| >= MIN_LEAF
    requires MergeIndex(t.kids, i) == Some(m)
    requires var row := Row(t.keys, Splice(t.kids, i, 1, [k])); Mendable(row, i, c) && ShapedAll(row.kids)
    ensures var kids' := Splice(t.kids, i, 1, [k]);
            && m <= i <= m + 1 < |t.kids| == |kids'| && t.kids[m].Leaf? && t.kids[m + 1].Leaf? && kids'[m].Leaf?
               && kids'[m + 1].Leaf?
            && Increasing(kids'[m].l.es) && kids'[m].l.pid == t.kids[m].l.pid && |kids'[m].l.es| >= MIN_LEAF - 1
            && Rebalance(t.keys, kids', i) == Some(MergedRow(Row(t.keys, kids'), m))
  {
    var kids, row := t.kids, Row(t.keys, Splice(t.kids, i, 1, [k]));
    assert row.kids == kids[i := k];
    assert kids[m] in kids && kids[m + 1] in kids && row.kids[m] in row.kids;
    RebalanceIs(row, i, c);
    hide Rebalance, Fits, Increasing, ShapedAll, Splice;
  }

  lemma LeavesStay(pages: Pages, t: Tree, row: Row, m: nat, l: LeafRec)
    requires t.Node? && m < |t.kids| && t.kids[m].Leaf? && t.kids[m].l.pid == l.pid && l.pid in FootAll(t.kids)
             && |l.es| >= MIN_LEAF - 1
    requires l.pid !in FootAll(row.kids) && l.pid != t.pid && l.pid in pages && LeafOk(pages[l.pid])
             && EntriesOf(pages[l.pid]) == l.es
    requires var n := |LeavesAll(t.kids[..m])|;
             && n < |LeavesAll(t.kids)| && n < |LeavesAll(row.kids)| && LeavesAll(t.kids)[n] == t.kids[m].l
                && l.es <= LeavesAll(row.kids)[n].es
    ensures OrphanStays(pages, t, Node(t.pid, row.keys, row.kids), Some(|LeavesAll(t.kids[..m])|))
  {
    var t' := Node(t.pid, row.keys, row.kids);
    assert Foot(t') == {t.pid} + FootAll(row.kids) && Leaves(t') == LeavesAll(row.kids)
           && Leaves(t) == LeavesAll(t.kids);
    assert Foot(t) == {t.pid} + FootAll(t.kids);
    hide Foot, FootAll, LeavesAll, Leaves, LeafOk, EntriesOf;
  }

  lemma LeafKidFoot(kids: seq<Tree>, m: nat)
    requires m < |kids| && kids[m].Leaf?
    ensures kids[m].l.pid in FootAll(kids)
  {
    KidFoot(kids, kids[m]);
    assert Foot(kids[m]) == {kids[m].l.pid};
  }

  /** A mended row of internal nodes. */
  lemma OrphanBelow(pages1: Pages, pages2: Pages, t: Tree, i: nat, k: Tree, at: Option<nat>, c: Caps, node: PageNode)
    requires t.Node? && Sep(t) && i < |t.kids| == |t.keys| + 1 && k.Node? && OrphanStays(pages1, t.kids[i], k, at)
    requires var row := Row(t.keys, Splice(t.kids, i, 1, [k]));
             && ShapedAll(row.kids) && i < |row.kids| == |row.keys| + 1
             && Mendable(row, i, c) && Rebalance(row.keys, row.kids, i).Some?
             && Became(pages1, pages2, t.pid, row.kids, node, Rebalance(row.keys, row.kids, i).value)
    ensures var row := Row(t.keys, Splice(t.kids, i, 1, [k])); var row' := Rebalance(row.keys, row.kids, i).value;
            OrphanStays(pages2, t, Node(t.pid, row'.keys, row'.kids), Shift(at, |LeavesAll(t.kids[..i])|))
  {
    var row := Row(t.keys, Splice(t.kids, i, 1, [k]));
    assert row.kids[i] == k;
    hide *;
    RebalanceLeaves(row, i, c);
    var row' := Rebalance(row.keys, row.kids, i).value;
    var t1, t2 := Node(t.pid, row.keys, row.kids), Node(t.pid, row'.keys, row'.kids);
    RowFeet(pages1, pages2, t.pid, row, row', node);
    OrphanUp(pages1, t, i, k, at);
    OrphanKept(pages1, pages2, t, t1, t2, Shift(at, |LeavesAll(t.kids[..i])|));
  }

  lemma RowFeet(pages: Pages, pages': Pages, pid: nat, row: Row, row': Row, node: PageNode)
    requires Became(pages, pages', pid, row.kids, node, row') && LeavesAll(row'.kids) == LeavesAll(row.kids)
    ensures var t1, t2 := Node(pid, row.keys, row.kids), Node(pid, row'.keys, row'.kids);
            SameOutside(pages, pages', Foot(t1)) && Foot(t2) <= Foot(t1) && Leaves(t2) == Leaves(t1)
  {
    hide RowOn, LinksKept, DroppedStay, FootAll, LeavesAll;
  }

  lemma RowLeaves(t: Tree, root: bool, c: Caps, h: nat, lo: Bound, hi: Bound, i: nat)
    requires t.Node? && WF(t, h, lo, hi) && Occ(t, root, c) && i < |t.kids| && t.kids[i].Leaf?
    ensures forall x | x in t.kids :: x.Leaf? && |x.l.es| >= MIN_LEAF
  {
    WFUniform(t, h, lo, hi);
    assert t.kids[i] in t.kids;
  }

  lemma LeafLosesAtMostOne(t: Tree, e: Entry)
    requires t.Leaf?
    ensures DelT(t, e).t.Leaf? && Pid(DelT(t, e).t) == Pid(t) && |DelT(t, e).t.l.es| >= |t.l.es| - 1
  {
  }

  lemma DelKind(t: Tree, e: Entry)
    requires Shaped(t)
    ensures SameKind(DelT(t, e).t, t)
  {
  }

  /** A mended row. */
  lemma OrphanMend(pages1: Pages, pages2: Pages, t: Tree, e: Entry, i: nat, root: bool, c: Caps, h: nat, lo: Bound,
                   hi: Bound, node: PageNode)
    requires t.Node? && Shaped(t) && Sep(t) && i == UpperBound(t.keys, e.key) && i < |t.kids| == |t.keys| + 1
    requires WF(t, h, lo, hi) && Occ(t, root, c) && Shaped(t.kids[i])
    requires OrphanStays(pages1, t.kids[i], DelT(t.kids[i], e).t, AbandonedLeaf(t.kids[i], e))
    requires var d := DelT(t.kids[i], e); d.removed && d.under
    requires var row := Row(t.keys, Splice(t.kids, i, 1, [DelT(t.kids[i], e).t]));
             && RowOn(pages1, t.pid, View(t), row) && Mendable(row, i, c) && Rebalance(row.keys, row.kids, i).Some?
             && Became(pages1, pages2, t.pid, row.kids, node, Rebalance(row.keys, row.kids, i).value)
    ensures OrphanStays(pages2[t.pid := node], t, DelT(t, e).t, AbandonedLeaf(t, e))
  {
    var d := DelT(t.kids[i], e);
    assert pages2[t.pid := node] == pages2 && ShapedAll(Splice(t.kids, i, 1, [d.t])) && t.kids[i] in t.kids;
    hide *;
    AbandonedStep(t, e);
    DelStep(t, e);
    DelKind(t.kids[i], e);
    NodeDelMends(t, i, d);
    if t.kids[i].Leaf? {
      RowLeaves(t, root, c, h, lo, hi, i);
      LeafLosesAtMostOne(t.kids[i], e);
      OrphanLeaves(pages1, pages2, t, i, d.t, c, node);
    } else {
      OrphanBelow(pages1, pages2, t, i, d.t, AbandonedLeaf(t.kids[i], e), c, node);
    }
  }

  // ----- back from the child, all of it

  /** The child is still half full, or kept the entry. */
  lemma Unmended(pages: Pages, pages': Pages, t: Tree, e: Entry, i: nat, node: PageNode, removed: bool, under: bool)
    requires t.Node? && Rep(pages, t) && Shaped(t) && Sep(t) && i == UpperBound(t.keys, e.key)
             && i < |t.kids| == |t.keys| + 1
    requires Shaped(t.kids[i]) && DeletedOn(pages, pages', t.kids[i], DelT(t.kids[i], e), node, removed, under)
             && (!removed || !under)
    requires ChainSafe(pages, pages', t.kids[i], DelT(t.kids[i], e).t)
    requires OrphanStays(pages', t.kids[i], DelT(t.kids[i], e).t, AbandonedLeaf(t.kids[i], e))
    ensures DeletedOn(pages, pages', t, DelT(t, e), View(t), removed, false)
    ensures ChainSafe(pages, pages', t, DelT(t, e).t) && OrphanStays(pages', t, DelT(t, e).t, AbandonedLeaf(t, e))
  {
    var d := DelT(t.kids[i], e);
    assert removed == d.removed && under == d.under;
    hide *;
    DelStep(t, e);
    BackFromDelete(pages, pages', t, i, d, node, removed, under);
    NoRebalance(pages, pages', t, i, d);
    ChainUp(pages, pages', t, i, d.t);
    NodeDelIs(t, i, d);
    OrphanNoMend(pages', t, e, i);
  }

  /** The child is underfull and was mended. */
  lemma Mended(pages: Pages, pages1: Pages, pages2: Pages, t: Tree, e: Entry, i: nat, root: bool, c: Caps, h: nat,
               lo: Bound, hi: Bound,
               node: PageNode, n: nat)
    requires t.Node? && Shaped(t) && Sep(t) && i == UpperBound(t.keys, e.key) && i < |t.kids| == |t.keys| + 1
    requires WF(t, h, lo, hi) && Occ(t, root, c) && Shaped(t.kids[i])
    requires var d := DelT(t.kids[i], e); d.removed && d.under && ChainSafe(pages, pages1, t.kids[i], d.t)
    requires OrphanStays(pages1, t.kids[i], DelT(t.kids[i], e).t, AbandonedLeaf(t.kids[i], e))
    requires SameOutside(pages, pages1, Foot(t)) && KeysBelow(pages1, n) && t.pid in pages1
    requires var row := Row(t.keys, Splice(t.kids, i, 1, [DelT(t.kids[i], e).t]));
             && RowOn(pages1, t.pid, View(t), row) && FootAll(row.kids) <= FootAll(t.kids)
                && Foot(t) == {t.pid} + FootAll(t.kids)
             && Mendable(row, i, c) && Rebalance(row.keys, row.kids, i).Some?
             && Became(pages1, pages2, t.pid, row.kids, node, Rebalance(row.keys, row.kids, i).value)
    ensures |node.keys| <= c.inner && node.InternalNode? && KeysBelow(pages2[t.pid := node], n)
    ensures DeletedOn(pages, pages2[t.pid := node], t, DelT(t, e), node, true, |node.keys| + 1 < MIN_KIDS)
    ensures ChainSafe(pages, pages2[t.pid := node], t, DelT(t, e).t)
    ensures OrphanStays(pages2[t.pid := node], t, DelT(t, e).t, AbandonedLeaf(t, e))
  {
    hide *;
    var d := DelT(t.kids[i], e);
    DelStep(t, e);
    Rebalanced(pages, pages1, pages2, t, i, d, c, node, n);
    ChainMended(pages, pages1, pages2, t, i, d, c, node);
    OrphanMend(pages1, pages2, t, e, i, root, c, h, lo, hi, node);
  }

  lemma NodeDelMends(t: Tree, i: nat, d: Del)
    requires t.Node? && i < |t.kids| == |t.keys| + 1 && ShapedAll(t.kids) && Shaped(d.t) && d.removed && d.under
    requires ShapedAll(Splice(t.kids, i, 1, [d.t])) && Rebalance(t.keys, Splice(t.kids, i, 1, [d.t]), i).Some?
    ensures var row := Rebalance(t.keys, Splice(t.kids, i, 1, [d.t]), i).value;
            NodeDel(t.pid, t.keys, t.kids, i, d).t == Node(t.pid, row.keys, row.kids)
  {
  }

  // ----- the chain

  /** The leaves with one more in front of leaf j. */
  function Detour(ls: seq<LeafRec>, j: nat, o: LeafRec): seq<LeafRec>
    requires j <= |ls|
  {
    ls[..j] + [o] + ls[j..]
  }

  /** The chain passes, just before leaf j, a page that is no leaf of the tree and shows entries that
      leaf j begins with. */
  ghost predicate Detours(pages: Pages, ls: seq<LeafRec>, j: nat) {
    j < |ls| && exists o: LeafRec :: DetoursBy(pages, ls, j, o)
  }

  ghost predicate DetoursBy(pages: Pages, ls: seq<LeafRec>, j: nat, o: LeafRec)
    requires j < |ls|
  {
    |o.es| >= MIN_LEAF - 1 && o.es <= ls[j].es && LinkedOn(pages, Detour(ls, j, o))
  }

  /** After a deletion that gave up leaf j of a whole chain, the old chain is still there. */
  lemma OldChainStays(pages: Pages, pages': Pages, t: Tree, t': Tree, j: nat, h: nat, h': nat)
    requires Rep(pages, t) && Rep(pages', t') && WF(t, h, None, None) && WF(t', h', None, None)
    requires Chained(Leaves(t)) && Dropped(Leaves(t), Leaves(t'), Some(j)) && OrphanStays(pages', t, t', Some(j))
             && LinksKept(pages, pages')
    ensures Detours(pages', Leaves(t'), j)
  {
    var a, b, p := Leaves(t), Leaves(t'), Leaves(t)[j].pid;
    var o := RecAt(pages', p);
    TreeLeafOnPage(pages, t, h, None, None, j);
    assert Link(o) == Link(a[j]) && OnPage(pages', o) && |o.es| >= MIN_LEAF - 1 && o.es <= b[j].es;
    hide *;
    forall q | 0 <= q < |b| ensures OnPage(pages', b[q]) {
      TreeLeafOnPage(pages', t', h', None, None, q);
    }
    OldLinks(pages', a, b, j, o);
  }

  lemma DetourLeft(pages: Pages, pages': Pages, t: Tree, e: Entry, h: nat, h': nat)
    requires Shaped(t) && Rep(pages, t) && WF(t, h, None, None) && Rep(pages', Delete(t, e))
             && WF(Delete(t, e), h', None, None)
    requires Chained(Leaves(t)) && ChainSafe(pages, pages', t, DelT(t, e).t)
    requires OrphanStays(pages', t, DelT(t, e).t, AbandonedLeaf(t, e)) && AbandonedLeaf(t, e).Some?
    ensures Detours(pages', Leaves(Delete(t, e)), AbandonedLeaf(t, e).value)
  {
    var t1 := DelT(t, e).t;
    WFUniform(t, h, None, None);
    DelLinks(t, e, h);
    RootFoot(t1);
    RootLeaves(t1);
    hide Rep, WF, Leaves, DelT, AbandonedLeaf, OrphanStays, Chained, Foot, RootOf, DroppedOk, Dropped;
    OrphanKept(pages', pages', t, t1, RootOf(t1), AbandonedLeaf(t, e));
    OldChainStays(pages, pages', t, Delete(t, e), AbandonedLeaf(t, e).value, h, h');
  }

  lemma RootFoot(t: Tree)
    ensures Foot(RootOf(t)) <= Foot(t)
  {
    if t.Node? && |t.kids| == 1 {
      KidFoot(t.kids, t.kids[0]);
    }
  }

  lemma DetourAt(b: seq<LeafRec>, j: nat, o: LeafRec, k: nat)
    requires j < |b| && k <= |b|
    ensures |Detour(b, j, o)| == |b| + 1
    ensures Detour(b, j, o)[k] == if k < j then b[k] else if k == j then o else b[k - 1]
  {
  }

  lemma OldLinks(pages: Pages, a: seq<LeafRec>, b: seq<LeafRec>, j: nat, o: LeafRec)
    requires Chained(a) && Dropped(a, b, Some(j)) && j < |b| && Link(o) == Link(a[j]) && OnPage(pages, o)
    requires |o.es| >= MIN_LEAF - 1 && o.es <= b[j].es && forall q :: 0 <= q < |b| ==> OnPage(pages, b[q])
    ensures Detours(pages, b, j)
  {
    var path := Detour(b, j, o);
    DroppedAt(a, b, j);
    DetourAt(b, j, o, j);
    hide OnPage, Chained, Detour, Dropped, Link, Links;
    forall k | 0 <= k < |path| ensures OnPage(pages, path[k]) {
      DetourAt(b, j, o, k);
    }
    forall k | 0 <= k < |path| ensures Links(path)[k] == Links(a)[k + 0] {
      DetourLink(a, b, j, o, k);
    }
    SameLinks(a, path, 0);
    assert DetoursBy(pages, b, j, o);
  }

  lemma DetourLink(a: seq<LeafRec>, b: seq<LeafRec>, j: nat, o: LeafRec, k: nat)
    requires j < |b| == |a| - 1 && k < |a| && Link(o) == Link(a[j])
    requires forall i :: 0 <= i < |b| ==> Links(b)[i] == Links(a)[if i < j then i else i + 1]
    ensures |Detour(b, j, o)| == |a| && Links(Detour(b, j, o))[k] == Links(a)[k]
  {
    DetourAt(b, j, o, k);
    hide Link, Links, Detour;
    assert k < j ==> Links(b)[k] == Links(a)[k];
    assert k > j ==> Links(b)[k - 1] == Links(a)[k];
  }

  // ----- what a scan then yields

  lemma {:induction false} WalkAppend(x: seq<LeafRec>, y: seq<LeafRec>, b: Bounds)
    requires Increasing(Cat(x))
    ensures WalkOf(x + y, b) == RangeOf(Cat(x), b) + if Stops(Cat(x), b) then [] else WalkOf(y, b)
    decreases x
  {
    if x == [] {
      assert x + y == y;
      assert !Stops([], b);
    } else {
      var u, v := x[0].es, Cat(x[1..]);
      assert Cat(x) == u + v;
      assert x + y == [x[0]] + (x[1..] + y);
      hide *;
      WalkCons(x[0], x[1..] + y, b);
      SortedParts(u, v);
      RangeAppend(u, v, b);
      StopsAppend(u, v, b);
      NothingPast(u, v, b);
      WalkAppend(x[1..], y, b);
      Cases(RangeOf(u, b), RangeOf(v, b), WalkOf(y, b), Stops(u, b), Stops(v, b));
    }
  }

  lemma WalkCons(l: LeafRec, rest: seq<LeafRec>, b: Bounds)
    ensures WalkOf([l] + rest, b) == RangeOf(l.es, b) + if Stops(l.es, b) then [] else WalkOf(rest, b)
  {
    var all := [l] + rest;
    assert all[0] == l && all[1..] == rest;
    hide RangeOf, Stops;
  }

  lemma Cases(u: seq<Rid>, v: seq<Rid>, w: seq<Rid>, su: bool, sv: bool)
    requires su ==> v == []
    ensures u + (if su then [] else v + (if sv then [] else w)) == (u + v) + if su || sv then [] else w
  {
    assert u + (v + w) == (u + v) + w;
  }

  lemma StopsAppend(u: seq<Entry>, v: seq<Entry>, b: Bounds)
    ensures Stops(u + v, b) <==> Stops(u, b) || Stops(v, b)
  {
    forall e ensures e in u + v <==> e in u || e in v {}
  }

  /** A walk over the detour: the entries of the page that was given up come out, and then come out
      again with the rest, unless the walk ends before. */
  lemma DetourWalk(ls: seq<LeafRec>, j: nat, o: LeafRec, b: Bounds)
    requires Increasing(Cat(ls)) && j < |ls| && o.es <= ls[j].es
    ensures WalkOf(Detour(ls, j, o), b) ==
              RangeOf(Cat(ls[..j]), b) + RangeOf(o.es, b) +
              if Stops(Cat(ls[..j]), b) || Stops(o.es, b) then [] else RangeOf(Cat(ls[j..]), b)
  {
    hide Cat, WalkOf, RangeOf, Stops, Increasing;
    var x, y := ls[..j], ls[j..];
    DetourParts(ls, j, o);
    assert Detour(ls, j, o) == x + ([o] + y);
    hide Detour;
    WalkAppend(x, [o] + y, b);
    WalkCons(o, y, b);
    SortedWalk(y, b);
    NothingPast(Cat(x), o.es, b);
    Cases(RangeOf(Cat(x), b), RangeOf(o.es, b), RangeOf(Cat(y), b), Stops(Cat(x), b), Stops(o.es, b));
  }

  lemma DetourParts(ls: seq<LeafRec>, j: nat, o: LeafRec)
    requires Increasing(Cat(ls)) && j < |ls| && o.es <= ls[j].es
    ensures var u, v := Cat(ls[..j]), Cat(ls[j..]);
            && Cat(ls) == u + v && Increasing(u) && Increasing(v) && o.es <= v
            && forall i, k :: 0 <= i < |u| && 0 <= k < |o.es| ==> u[i].key < o.es[k].key
  {
    var u, v := Cat(ls[..j]), Cat(ls[j..]);
    assert ls == ls[..j] + ls[j..];
    CatAppend(ls[..j], ls[j..]);
    SortedParts(u, v);
    assert v == ls[j].es + Cat(ls[j..][1..]);
  }

  /** Exactly when the detour does no harm: no key on it is in bounds, or the walk ends on it. */
  lemma DetourExact(ls: seq<LeafRec>, j: nat, o: LeafRec, b: Bounds)
    requires Increasing(Cat(ls)) && j < |ls| && o.es <= ls[j].es
    ensures WalkOf(Detour(ls, j, o), b) == RangeOf(Cat(ls), b) <==> RangeOf(o.es, b) == [] || Stops(o.es, b)
  {
    hide *;
    var u, v := Cat(ls[..j]), Cat(ls[j..]);
    DetourParts(ls, j, o);
    DetourWalk(ls, j, o, b);
    var w := v[|o.es|..];
    assert v == o.es + w;
    RangeAppend(u, v, b);
    RangeAppend(o.es, w, b);
    SortedParts(o.es, w);
    NothingPast(u, o.es, b);
    NothingPast(o.es, w, b);
    SortedParts(u, v);
    NothingPast(u, v, b);
    Twice(RangeOf(u, b), RangeOf(o.es, b), RangeOf(w, b), Stops(u, b) || Stops(o.es, b));
  }

  lemma NothingPast(x: seq<Entry>, y: seq<Entry>, b: Bounds)
    requires forall i, j :: 0 <= i < |x| && 0 <= j < |y| ==> x[i].key < y[j].key
    ensures Stops(x, b) ==> RangeOf(y, b) == []
  {
    if Stops(x, b) {
      PastIsPast(x, y, b);
      RangeNone(y, b);
    }
  }

  lemma Twice(x: seq<Rid>, o: seq<Rid>, w: seq<Rid>, stop: bool)
    requires stop ==> w == []
    ensures x + o + (if stop then [] else o + w) == x + (o + w) <==> o == [] || stop
  {
    var a, b := x + o + (if stop then [] else o + w), x + (o + w);
    if stop || o == [] {
      assert a == b;
    } else {
      assert |a| == |b| + |o|;
    }
  }

  /** The same for a scan that starts at leaf k, the one that owns its lower end. Behind the detour
      nothing is wrong; before it, the exact condition. */
  lemma ScanPastDetour(pages: Pages, ls: seq<LeafRec>, j: nat, o: LeafRec, k: nat, path: seq<LeafRec>, b: Bounds)
    requires Increasing(Cat(ls)) && j < |ls| && DetoursBy(pages, ls, j, o) && k < |ls|
    requires LinkedOn(pages, path) && path[0] == ls[k] && forall e <- Cat(ls[..k]) :: !PassesLo(e.key, b)
    ensures WalkOf(path, b) == RangeOf(Cat(ls), b) <==> j <= k || RangeOf(o.es, b) == [] || Stops(o.es, b)
  {
    assert LinkedOn(pages, Detour(ls, j, o)) && o.es <= ls[j].es;
    hide *;
    if j <= k {
      BehindDetour(pages, ls, j, o, k, path);
      WalkFrom(ls, k, b);
    } else {
      BeforeDetour(pages, ls, j, o, k, path);
      TailOf(ls, k, b);
      DetourExact(ls[k..], j - k, o, b);
    }
  }

  lemma BehindDetour(pages: Pages, ls: seq<LeafRec>, j: nat, o: LeafRec, k: nat, path: seq<LeafRec>)
    requires j <= k < |ls| && LinkedOn(pages, Detour(ls, j, o)) && LinkedOn(pages, path) && path[0] == ls[k]
    ensures path == ls[k..]
  {
    hide LinkedOn;
    LinkedFrom(pages, Detour(ls, j, o), k + 1);
    assert Detour(ls, j, o)[k + 1..] == ls[k..];
    OnePath(pages, path, ls[k..]);
  }

  lemma BeforeDetour(pages: Pages, ls: seq<LeafRec>, j: nat, o: LeafRec, k: nat, path: seq<LeafRec>)
    requires k < j < |ls| && LinkedOn(pages, Detour(ls, j, o)) && LinkedOn(pages, path) && path[0] == ls[k]
    ensures path == Detour(ls[k..], j - k, o) && ls[k..][j - k] == ls[j]
  {
    hide LinkedOn;
    LinkedFrom(pages, Detour(ls, j, o), k);
    assert Detour(ls, j, o)[k..] == Detour(ls[k..], j - k, o);
    OnePath(pages, path, Detour(ls[k..], j - k, o));
  }

  lemma TailOf(ls: seq<LeafRec>, k: nat, b: Bounds)
    requires Increasing(Cat(ls)) && k <= |ls| && forall e <- Cat(ls[..k]) :: !PassesLo(e.key, b)
    ensures Increasing(Cat(ls[k..])) && RangeOf(Cat(ls), b) == RangeOf(Cat(ls[k..]), b)
  {
    hide *;
    WalkFrom(ls, k, b);
    CatAppend(ls[..k], ls[k..]);
    assert ls == ls[..k] + ls[k..];
    SortedParts(Cat(ls[..k]), Cat(ls[k..]));
    SortedWalk(ls[k..], b);
  }

  lemma LinkedFrom(pages: Pages, path: seq<LeafRec>, k: nat)
    requires LinkedOn(pages, path) && k < |path|
    ensures LinkedOn(pages, path[k..])
  {
    hide OnPage;
    var tail := path[k..];
    forall i | 0 <= i < |tail| ensures tail[i].next == NextOf(tail, i) && OnPage(pages, tail[i]) {
      assert path[k + i].next == NextOf(path, k + i) && OnPage(pages, path[k + i]);
    }
  }

  // ----- the scan of everything

  const ALL := Bounds(None, true, None, true)

  lemma {:induction false} AllInRange(es: seq<Entry>, p: nat)
    requires p <= |es|
    ensures RangeTo(es, p, ALL) == Rids(es[..p])
  {
    if p > 0 {
      AllInRange(es, p - 1);
      assert Rids(es[..p]) == Rids(es[..p - 1]) + [es[p - 1].rid];
    }
  }

  lemma RangeAll(es: seq<Entry>)
    ensures RangeOf(es, ALL) == Rids(es) && !Stops(es, ALL)
  {
    AllInRange(es, |es|);
    assert es[..|es|] == es;
  }

  /** After a deletion that gave up leaf j > 0, a scan of the whole index yields every rid, and those
      on the abandoned page, at least 62 of them, a second time. */
  lemma FullScanRepeats(pages: Pages, ls: seq<LeafRec>, j: nat, o: LeafRec, path: seq<LeafRec>)
    requires Increasing(Cat(ls)) && 0 < j < |ls| && DetoursBy(pages, ls, j, o) && LinkedOn(pages, path)
             && path[0] == ls[0]
    ensures WalkOf(path, ALL) == Rids(Cat(ls[..j])) + Rids(o.es) + Rids(Cat(ls[j..]))
    ensures Rids(Cat(ls)) == Rids(Cat(ls[..j])) + Rids(Cat(ls[j..])) && o.es <= Cat(ls[j..]) && |o.es| >= MIN_LEAF - 1
  {
    assert LinkedOn(pages, Detour(ls, j, o)) && o.es <= ls[j].es && |o.es| >= MIN_LEAF - 1;
    hide *;
    var u, v := Cat(ls[..j]), Cat(ls[j..]);
    BeforeDetour(pages, ls, j, o, 0, path);
    assert ls[0..] == ls;
    DetourWalk(ls, j, o, ALL);
    DetourParts(ls, j, o);
    RangeAll(u);
    RangeAll(o.es);
    RangeAll(v);
    RidsAppend(u, v);
  }

  lemma RidsAppend(x: seq<Entry>, y: seq<Entry>)
    ensures Rids(x + y) == Rids(x) + Rids(y)
  {
  }
}
