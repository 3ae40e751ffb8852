/** Deletion on pages: what a borrow or a merge leaves on the pages of a row of children. */
module BTreeDeletePages {
  import opened Common
  import opened BTree
  import opened BTreeInsert
  import opened BTreeDelete
  import opened BTreeDeleteProof
  import opened BTreeDeleteExact
  import opened BTreeChain
  import opened BTreeRep

  /** A parent as it is in memory, above children on their pages. */
  ghost predicate RowOn(pages: Pages, pid: nat, parent: PageNode, row: Row) {
    && parent == InternalNode(row.keys, Pids(row.kids)) && |row.kids| == |row.keys| + 1
    && RepAll(pages, row.kids) && SepAll(row.kids) && pid !in FootAll(row.kids) && ShapedAll(row.kids)
    && (pid in pages ==> pages[pid].InternalNode?)
  }

  /** The row was reworked and the parent written. */
  ghost predicate Became(pages: Pages, pages': Pages, pid: nat, kids: seq<Tree>, parent: PageNode, row: Row) {
    && RowOn(pages', pid, parent, row) && pid in pages' && pages'[pid] == parent && pages'.Keys <= pages.Keys + {pid}
    && SameOutside(pages, pages', FootAll(kids) + {pid}) && FootAll(row.kids) <= FootAll(kids)
    && LinksKept(pages, pages') && DroppedStay(pages, pages', kids, FootAll(kids) - FootAll(row.kids))
  }

  /** No write of a deletion changes a leaf page's link, nor makes it anything but a leaf page. */
  ghost predicate LinksKept(pages: Pages, pages': Pages) {
    forall p | p in pages && pages[p].LeafNode? :: p in pages' && pages'[p].LeafNode? && pages'[p].next == pages[p].next
  }

  /** A page that drops out of the row belongs to one of its children and is left as it was. */
  ghost predicate DroppedStay(pages: Pages, pages': Pages, kids: seq<Tree>, dropped: set<nat>) {
    forall p | p in dropped :: p in pages && p in pages' && pages'[p] == pages[p] && exists k | k in kids :: Pid(k) == p
  }

  /** Child i is underfull; it and its neighbours fit their pages and are of one kind. */
  ghost predicate Mendable(row: Row, i: nat, c: Caps) {
    && 2 <= |row.kids| && i < |row.kids| && |row.keys| <= c.inner && Roomy(c)
    && Size(row.kids[i]) < Least(row.kids[i])
    && (forall k | k in row.kids :: Fits(k, c) && SameKind(k, row.kids[i]) && (k.Leaf? ==> Increasing(k.l.es)))
  }

  /** Two neighbours replaced by trees on the same pages. */
  ghost predicate Reworked(pages: Pages, pages': Pages, a: Tree, b: Tree, mc: seq<Tree>) {
    && RepAll(pages', mc) && SepAll(mc) && FootAll(mc) <= Foot(a) + Foot(b) && ShapedAll(mc)
    && DroppedStay(pages, pages', [a, b], Foot(a) + Foot(b) - FootAll(mc))
  }

  lemma PairOn(pages: Pages, pages': Pages, pid: nat, parent: PageNode, row: Row, j: nat, keys': seq<int>,
               mc: seq<Tree>)
    requires RowOn(pages, pid, InternalNode(row.keys, Pids(row.kids)), row) && j + 1 < |row.kids|
    requires Reworked(pages, pages', row.kids[j], row.kids[j + 1], mc) && LinksKept(pages, pages')
    requires SameOutside(pages, pages', Foot(row.kids[j]) + Foot(row.kids[j + 1]) + {pid})
    requires pid in pages' && pages'[pid] == parent && pages'.Keys <= pages.Keys + {pid}
    requires parent == InternalNode(keys', Pids(Splice(row.kids, j, 2, mc))) && |row.kids| - 2 + |mc| == |keys'| + 1
    ensures Became(pages, pages', pid, row.kids, parent, Row(keys', Splice(row.kids, j, 2, mc)))
  {
    var kids := row.kids;
    ShapedSplice(kids, j, 2, mc);
    PairFeet(kids, j, mc);
    hide Rep, ShapedAll, Foot, FootAll, Sep, SepAll, Pids, DroppedStay, LinksKept;
    PairApart(kids, j);
    OthersStay(pages, pages', pid, kids, j);
    hide Splice;
    PairRep(pages', kids, j, mc);
    PairDrops(pages, pages', kids, j, mc);
  }

  lemma PairRep(pages: Pages, kids: seq<Tree>, j: nat, mc: seq<Tree>)
    requires j + 1 < |kids| && RepAll(pages, kids[..j]) && RepAll(pages, mc) && RepAll(pages, kids[j + 2..])
    ensures RepAll(pages, Splice(kids, j, 2, mc))
  {
    hide Rep;
    assert forall k | k in Splice(kids, j, 2, mc) :: k in kids[..j] || k in mc || k in kids[j + 2..];
  }

  lemma PairFeet(kids: seq<Tree>, j: nat, mc: seq<Tree>)
    requires j + 1 < |kids| && SepAll(kids) && SepAll(mc) && FootAll(mc) <= Foot(kids[j]) + Foot(kids[j + 1])
    ensures |Splice(kids, j, 2, mc)| == |kids| - 2 + |mc| && SepAll(Splice(kids, j, 2, mc))
    ensures FootAll(kids) == FootAll(kids[..j]) + (Foot(kids[j]) + Foot(kids[j + 1])) + FootAll(kids[j + 2..])
    ensures FootAll(Splice(kids, j, 2, mc)) == FootAll(kids[..j]) + FootAll(mc) + FootAll(kids[j + 2..])
  {
    assert kids[j..j + 2] == [kids[j], kids[j + 1]];
    TwoKidsSep(kids[j], kids[j + 1]);
    hide Foot, FootAll, Sep, SepAll;
    SepSplice(kids, j, 2, mc);
  }

  lemma PairDrops(pages: Pages, pages': Pages, kids: seq<Tree>, j: nat, mc: seq<Tree>)
    requires j + 1 < |kids| && DroppedStay(pages, pages', [kids[j], kids[j + 1]],
                                           Foot(kids[j]) + Foot(kids[j + 1]) - FootAll(mc))
    requires FootAll(kids) == FootAll(kids[..j]) + (Foot(kids[j]) + Foot(kids[j + 1])) + FootAll(kids[j + 2..])
    requires FootAll(Splice(kids, j, 2, mc)) == FootAll(kids[..j]) + FootAll(mc) + FootAll(kids[j + 2..])
    ensures DroppedStay(pages, pages', kids, FootAll(kids) - FootAll(Splice(kids, j, 2, mc)))
  {
    hide Foot, FootAll;
    forall p | p in FootAll(kids) - FootAll(Splice(kids, j, 2, mc))
      ensures p in pages && p in pages' && pages'[p] == pages[p] && exists k | k in kids :: Pid(k) == p
    {
      assert p in Foot(kids[j]) + Foot(kids[j + 1]) - FootAll(mc);
      var k :| k in [kids[j], kids[j + 1]] && Pid(k) == p;
      assert k in kids;
    }
  }

  lemma PairApart(kids: seq<Tree>, j: nat)
    requires SepAll(kids) && j + 1 < |kids|
    ensures var m := Foot(kids[j]) + Foot(kids[j + 1]);
            && m !! FootAll(kids[..j]) && m !! FootAll(kids[j + 2..])
            && FootAll(kids[..j]) <= FootAll(kids) && FootAll(kids[j + 2..]) <= FootAll(kids) && m <= FootAll(kids)
  {
    hide Sep, SepAll, Foot, FootAll;
    var a, m, b := kids[..j], [kids[j], kids[j + 1]], kids[j + 2..];
    assert kids == a + m + b;
    SepAppend(a, m);
    SepAppend(a + m, b);
    TwoKidsSep(kids[j], kids[j + 1]);
  }

  lemma OthersStay(pages: Pages, pages': Pages, pid: nat, kids: seq<Tree>, j: nat)
    requires RepAll(pages, kids) && SepAll(kids) && pid !in FootAll(kids) && j + 1 < |kids|
    requires SameOutside(pages, pages', Foot(kids[j]) + Foot(kids[j + 1]) + {pid})
    ensures RepAll(pages', kids[..j]) && RepAll(pages', kids[j + 2..])
  {
    RepAllFoot(pages, kids);
    PairApart(kids, j);
    hide Rep, Foot, FootAll, Sep, SepAll;
    assert forall k | k in kids[..j] :: k in kids;
    assert forall k | k in kids[j + 2..] :: k in kids;
    RepAllFrame(pages, pages', kids[..j]);
    RepAllFrame(pages, pages', kids[j + 2..]);
  }

  /** Entries or children moved between two neighbours that keep their pages. */
  lemma MovedOn(pages: Pages, pages': Pages, pid: nat, a: Tree, b: Tree, a': Tree, b': Tree)
    requires Rep(pages, a) && Rep(pages, b) && SepAll([a, b]) && pid !in Foot(a) && pid !in Foot(b)
    requires SameKind(a, b) && SameKind(a, a') && SameKind(b, b') && Pid(a') == Pid(a) && Pid(b') == Pid(b)
    requires a.Node? ==> a'.kids + b'.kids == a.kids + b.kids
    requires Shaped(a') && Shaped(b')
    requires SameOutside(pages, pages', {Pid(a), Pid(b), pid})
    requires Pid(a) in pages' && Pid(b) in pages' && pages'[Pid(a)] == View(a') && pages'[Pid(b)] == View(b')
    ensures Reworked(pages, pages', a, b, [a', b'])
  {
    TwoShaped(a', b');
    if a.Node? {
      MovedKids(pages, pages', pid, a, b, a', b');
    } else {
      TwoKidsSep(a, b);
      RepLeaf(pages', a'.l);
      RepLeaf(pages', b'.l);
    }
    TwoKidsSep(a', b');
    TwoRep(pages', a', b');
    hide Rep, ShapedAll, Shaped;
  }

  lemma MovedKids(pages: Pages, pages': Pages, pid: nat, a: Tree, b: Tree, a': Tree, b': Tree)
    requires a.Node? && b.Node? && a'.Node? && b'.Node? && a'.pid == a.pid && b'.pid == b.pid
    requires Rep(pages, a) && Rep(pages, b) && SepAll([a, b]) && pid !in Foot(a) && pid !in Foot(b)
    requires a'.kids + b'.kids == a.kids + b.kids && SameOutside(pages, pages', {a.pid, b.pid, pid})
    requires a.pid in pages' && b.pid in pages' && pages'[a.pid] == View(a') && pages'[b.pid] == View(b')
    ensures Rep(pages', a') && Rep(pages', b') && Sep(a') && Sep(b') && Foot(a') !! Foot(b')
            && Foot(a') + Foot(b') == Foot(a) + Foot(b)
  {
    MovedSep(a, b, a', b');
    MovedRep(pages, pages', pid, a, b, a', b');
  }

  lemma BothFeet(a: Tree, b: Tree)
    requires a.Node? && b.Node?
    ensures Foot(a) == {a.pid} + FootAll(a.kids) && Foot(b) == {b.pid} + FootAll(b.kids)
    ensures FootAll(a.kids + b.kids) == FootAll(a.kids) + FootAll(b.kids)
    ensures Sep(a) && Sep(b) && Foot(a) !! Foot(b) <==>
              && SepAll(a.kids + b.kids) && a.pid != b.pid
              && a.pid !in FootAll(a.kids) + FootAll(b.kids) && b.pid !in FootAll(a.kids) + FootAll(b.kids)
  {
    SepAppend(a.kids, b.kids);
    hide SepAll, FootAll;
  }

  lemma MovedSep(a: Tree, b: Tree, a': Tree, b': Tree)
    requires a.Node? && b.Node? && a'.Node? && b'.Node? && a'.pid == a.pid && b'.pid == b.pid
    requires SepAll([a, b]) && a'.kids + b'.kids == a.kids + b.kids
    ensures Sep(a') && Sep(b') && Foot(a') !! Foot(b') && Foot(a') + Foot(b') == Foot(a) + Foot(b)
  {
    hide Sep, SepAll, Foot, FootAll;
    TwoKidsSep(a, b);
    BothFeet(a, b);
    BothFeet(a', b');
  }

  lemma MovedRep(pages: Pages, pages': Pages, pid: nat, a: Tree, b: Tree, a': Tree, b': Tree)
    requires a.Node? && b.Node? && a'.Node? && b'.Node? && a'.pid == a.pid && b'.pid == b.pid
    requires Rep(pages, a) && Rep(pages, b) && SepAll([a, b]) && pid !in Foot(a) && pid !in Foot(b)
    requires a'.kids + b'.kids == a.kids + b.kids && SameOutside(pages, pages', {a.pid, b.pid, pid})
    requires a.pid in pages' && b.pid in pages' && pages'[a.pid] == View(a') && pages'[b.pid] == View(b')
    ensures Rep(pages', a') && Rep(pages', b')
  {
    var all := a.kids + b.kids;
    assert RepAll(pages, a.kids) && RepAll(pages, b.kids);
    hide Rep, RepAll, FootAll, Sep, SepAll, Foot, View;
    RepAllAppend(pages, a.kids, b.kids);
    assert RepAll(pages', all) by {
      TwoKidsSep(a, b);
      BothFeet(a, b);
      RepAllFoot(pages, all);
      RepAllFrame(pages, pages', all);
    }
    RepAllAppend(pages', a'.kids, b'.kids);
    RepNode(pages', a');
    RepNode(pages', b');
  }

  lemma RepAllAppend(pages: Pages, a: seq<Tree>, b: seq<Tree>)
    ensures RepAll(pages, a + b) <==> RepAll(pages, a) && RepAll(pages, b)
  {
    hide Rep;
    forall k ensures k in a + b <==> k in a || k in b {}
  }

  lemma MergedOn(pages: Pages, pages': Pages, pid: nat, a: Tree, s: int, b: Tree)
    requires Rep(pages, a) && Rep(pages, b) && SepAll([a, b]) && pid !in Foot(a) && pid !in Foot(b)
    requires SameKind(a, b) && Shaped(a) && Shaped(b)
    requires SameOutside(pages, pages', {Pid(b), pid})
    requires Pid(b) in pages' && pages'[Pid(b)] == View(Merged(a, s, b))
    ensures Reworked(pages, pages', a, b, [Merged(a, s, b)])
  {
    var m := Merged(a, s, b);
    TwoKidsSep(a, b);
    MergedShaped(a, s, b);
    TwoShaped(m, m);
    if a.Node? {
      SepAppend(a.kids, b.kids);
      RepAllFoot(pages, m.kids);
      RepAllFrame(pages, pages', m.kids);
      RepNode(pages', m);
    } else {
      RepLeaf(pages', m.l);
    }
    OneKidSep(m);
  }

  // ----- what the list operations on pages show

  lemma TakeLeftLeafView(a: Tree, b: Tree)
    requires a.Leaf? && b.Leaf? && Spare(a)
    ensures var (s, a', b') := TakeLeft(a, b);
            var x, y, n := View(a), View(b), |View(a).keys| - 1;
            && 0 <= n && s == x.keys[n] && View(a') == LeafNode(x.keys[..n], x.rids[..n], x.next)
            && View(b') == LeafNode([s] + y.keys, [x.rids[n]] + y.rids, y.next)
  {
    HalfView(a.l.es, |a.l.es| - 1);
    ConsView(a.l.es[|a.l.es| - 1], b.l.es);
    hide Keys, Rids;
  }

  lemma NodeShape(t: Tree)
    requires t.Node? && Shaped(t)
    ensures |t.kids| == |t.keys| + 1
  {
  }

  lemma TakeLeftNodeView(a: Tree, b: Tree)
    requires a.Node? && b.Node? && Spare(a) && |a.kids| == |a.keys| + 1
    ensures var (s, a', b') := TakeLeft(a, b);
            var x, y, n := View(a), View(b), |View(a).keys| - 1;
            && 0 <= n && s == x.keys[n] && View(a') == InternalNode(x.keys[..n], x.children[..n + 1])
            && View(b') == InternalNode([s] + y.keys, [x.children[n + 1]] + y.children)
  {
    HalfPids(a.kids, |a.keys|);
    ConsPids(a.kids[|a.keys|], b.kids);
    hide Pids;
  }

  lemma HalfPids(kids: seq<Tree>, n: nat)
    requires n <= |kids|
    ensures Pids(kids[..n]) == Pids(kids)[..n]
  {
  }

  lemma ConsPids(k: Tree, kids: seq<Tree>)
    ensures Pids([k] + kids) == [Pid(k)] + Pids(kids)
  {
  }

  lemma ConsView(e: Entry, es: seq<Entry>)
    ensures Keys([e] + es) == [e.key] + Keys(es) && Rids([e] + es) == [e.rid] + Rids(es)
  {
  }

  lemma TakeRightLeafView(a: Tree, b: Tree)
    requires a.Leaf? && b.Leaf? && Spare(b)
    ensures var (s, a', b') := TakeRight(a, b);
            var x, y := View(a), View(b);
            && |y.keys| > 1 && s == y.keys[1] && View(b') == LeafNode(y.keys[1..], y.rids[1..], y.next)
            && View(a') == LeafNode(x.keys + [y.keys[0]], x.rids + [y.rids[0]], x.next)
  {
    HalfView(b.l.es, 1);
    SnocView(a.l.es, b.l.es[0]);
    hide Keys, Rids;
  }

  lemma TakeRightNodeView(a: Tree, b: Tree)
    requires a.Node? && b.Node? && Spare(b) && |b.kids| == |b.keys| + 1
    ensures var (s, a', b') := TakeRight(a, b);
            var x, y := View(a), View(b);
            && |y.keys| > 1 && s == y.keys[1] && View(b') == InternalNode(y.keys[1..], y.children[1..])
            && View(a') == InternalNode(x.keys + [y.keys[0]], x.children + [y.children[0]])
  {
    TailPids(b.kids);
    SnocPids(a.kids, b.kids[0]);
    hide Pids;
  }

  lemma SnocView(es: seq<Entry>, e: Entry)
    ensures Keys(es + [e]) == Keys(es) + [e.key] && Rids(es + [e]) == Rids(es) + [e.rid]
  {
  }

  lemma TailPids(kids: seq<Tree>)
    requires kids != []
    ensures Pids(kids[1..]) == Pids(kids)[1..]
  {
  }

  lemma SnocPids(kids: seq<Tree>, k: Tree)
    ensures Pids(kids + [k]) == Pids(kids) + [Pid(k)]
  {
  }

  lemma MergedView(a: Tree, s: int, b: Tree)
    requires SameKind(a, b)
    ensures var x, y := View(a), View(b);
            && Pid(Merged(a, s, b)) == Pid(b)
            && View(Merged(a, s, b)) == (if a.Leaf? then LeafNode(x.keys + y.keys, x.rids + y.rids, y.next)
                                         else InternalNode(x.keys + [s] + y.keys, x.children + y.children))
  {
  }

  lemma PairPids(kids: seq<Tree>, j: nat, a: Tree, b: Tree)
    requires j + 1 < |kids|
    ensures Pid(a) == Pid(kids[j]) && Pid(b) == Pid(kids[j + 1]) ==> Pids(Splice(kids, j, 2, [a, b])) == Pids(kids)
    ensures Pid(b) == Pid(kids[j + 1]) ==> Pids(Splice(kids, j, 2, [b])) == Splice(Pids(kids), j, 1, [])
  {
    if Pid(b) == Pid(kids[j + 1]) {
      var x, y := Pids(Splice(kids, j, 2, [b])), Splice(Pids(kids), j, 1, []);
      assert |x| == |y| && forall q :: 0 <= q < |x| ==> x[q] == y[q];
    }
  }

  // ----- the three ways to mend an underfull child

  function BorrowedLeft(row: Row, i: nat): Row
    requires 0 < i < |row.kids| == |row.keys| + 1 && ShapedAll(row.kids)
    requires Spare(row.kids[i - 1]) && SameKind(row.kids[i - 1], row.kids[i])
  {
    ShapedAt(row.kids, i - 1);
    var (s, a, b) := TakeLeft(row.kids[i - 1], row.kids[i]);
    Row(Splice(row.keys, i - 1, 1, [s]), Splice(row.kids, i - 1, 2, [a, b]))
  }

  function BorrowedRight(row: Row, i: nat): Row
    requires i + 1 < |row.kids| == |row.keys| + 1 && ShapedAll(row.kids)
    requires Spare(row.kids[i + 1]) && SameKind(row.kids[i], row.kids[i + 1])
  {
    ShapedAt(row.kids, i + 1);
    var (s, a, b) := TakeRight(row.kids[i], row.kids[i + 1]);
    Row(Splice(row.keys, i, 1, [s]), Splice(row.kids, i, 2, [a, b]))
  }

  lemma BorrowedLeftIs(row: Row, i: nat)
    requires 0 < i < |row.kids| == |row.keys| + 1 && ShapedAll(row.kids)
    requires Spare(row.kids[i - 1]) && SameKind(row.kids[i - 1], row.kids[i]) && Shaped(row.kids[i - 1])
    ensures var (s, a, b) := TakeLeft(row.kids[i - 1], row.kids[i]);
            BorrowedLeft(row, i) == Row(Splice(row.keys, i - 1, 1, [s]), Splice(row.kids, i - 1, 2, [a, b]))
  {
  }

  lemma BorrowedRightIs(row: Row, i: nat)
    requires i + 1 < |row.kids| == |row.keys| + 1 && ShapedAll(row.kids)
    requires Spare(row.kids[i + 1]) && SameKind(row.kids[i], row.kids[i + 1]) && Shaped(row.kids[i + 1])
    ensures var (s, a, b) := TakeRight(row.kids[i], row.kids[i + 1]);
            BorrowedRight(row, i) == Row(Splice(row.keys, i, 1, [s]), Splice(row.kids, i, 2, [a, b]))
  {
  }

  function MergedRow(row: Row, j: nat): Row
    requires j + 1 < |row.kids| == |row.keys| + 1 && SameKind(row.kids[j], row.kids[j + 1])
  {
    Row(Splice(row.keys, j, 1, []), Splice(row.kids, j, 2, [Merged(row.kids[j], row.keys[j], row.kids[j + 1])]))
  }

  lemma Neighbours(row: Row, i: nat, c: Caps)
    requires Mendable(row, i, c)
    ensures Fits(row.kids[i], c)
    ensures i > 0 ==> SameKind(row.kids[i - 1], row.kids[i]) && Fits(row.kids[i - 1], c)
    ensures i + 1 < |row.kids| ==> SameKind(row.kids[i], row.kids[i + 1]) && Fits(row.kids[i + 1], c)
  {
    assert row.kids[i] in row.kids;
    if i > 0 { assert row.kids[i - 1] in row.kids; }
    if i + 1 < |row.kids| { assert row.kids[i + 1] in row.kids; }
  }

  /** How full an underfull child and its neighbours are. */
  lemma BorrowFits(row: Row, i: nat, c: Caps)
    requires Mendable(row, i, c) && ShapedAll(row.kids)
    ensures |row.keys| <= c.inner && |View(row.kids[i]).keys| + 1 <= if row.kids[i].Leaf? then c.leaf else c.inner
    ensures i > 0 ==> |View(row.kids[i - 1]).keys| <= if row.kids[i - 1].Leaf? then c.leaf else c.inner
    ensures i + 1 < |row.kids| ==> |View(row.kids[i + 1]).keys| <= if row.kids[i + 1].Leaf? then c.leaf else c.inner
  {
    Neighbours(row, i, c);
  }

  /** An underfull child and a neighbour with nothing to spare fit one page together. */
  lemma MergeFits(row: Row, i: nat, j: nat, c: Caps)
    requires Mendable(row, i, c) && |row.kids| == |row.keys| + 1 && ShapedAll(row.kids) && j <= i <= j + 1 < |row.kids|
    requires !Spare(row.kids[j]) && !Spare(row.kids[j + 1])
    ensures SameKind(row.kids[j], row.kids[j + 1]) && |row.keys| <= c.inner
    ensures |View(Merged(row.kids[j], row.keys[j], row.kids[j + 1])).keys| <= if row.kids[j].Leaf? then c.leaf
            else c.inner
  {
    Neighbours(row, i, c);
    ShapedAt(row.kids, j);
    ShapedAt(row.kids, j + 1);
  }

  /** A child of the row as its page shows it. */
  lemma RowKid(pages: Pages, pid: nat, parent: PageNode, row: Row, i: nat)
    requires RowOn(pages, pid, parent, row) && i < |row.kids|
    ensures parent.children[i] == Pid(row.kids[i]) && Rep(pages, row.kids[i]) && Shaped(row.kids[i])
    ensures Pid(row.kids[i]) in pages && pages[Pid(row.kids[i])] == View(row.kids[i])
    ensures Pid(row.kids[i]) in Foot(row.kids[i]) && pid !in Foot(row.kids[i]) && pid != Pid(row.kids[i])
  {
    assert row.kids[i] in row.kids;
    ShapedAt(row.kids, i);
    KidFoot(row.kids, row.kids[i]);
  }

  lemma RowPair(pages: Pages, pid: nat, parent: PageNode, row: Row, j: nat)
    requires RowOn(pages, pid, parent, row) && j + 1 < |row.kids|
    ensures SepAll([row.kids[j], row.kids[j + 1]]) && Pid(row.kids[j]) != Pid(row.kids[j + 1])
  {
    RowKid(pages, pid, parent, row, j);
    RowKid(pages, pid, parent, row, j + 1);
    var kids := row.kids;
    hide Rep, Foot, FootAll, SepAll, Sep, Shaped, ShapedAll;
    var m := [kids[j], kids[j + 1]];
    assert kids == kids[..j] + m + kids[j + 2..];
    SepAppend(kids[..j] + m, kids[j + 2..]);
    SepAppend(kids[..j], m);
    TwoKidsSep(kids[j], kids[j + 1]);
  }

  lemma MovedLinks(pages: Pages, pid: nat, x: Tree, y: Tree, a: Tree, b: Tree, parent: PageNode)
    requires Pid(x) in pages && Pid(y) in pages && pages[Pid(x)] == View(x) && pages[Pid(y)] == View(y)
    requires SameKind(x, a) && SameKind(y, b) && SameKind(x, y) && Pid(a) == Pid(x) && Pid(b) == Pid(y)
    requires a.Leaf? ==> a.l.next == x.l.next && b.l.next == y.l.next
    requires pid != Pid(x) && pid != Pid(y) && (pid in pages ==> pages[pid].InternalNode?)
    ensures LinksKept(pages, pages[Pid(a) := View(a)][Pid(b) := View(b)][pid := parent])
  {
  }

  /** Two neighbours that keep their pages were rewritten, then the parent. */
  predicate ViewFits(node: PageNode, c: Caps) {
    if node.LeafNode? then |node.keys| <= c.leaf else |node.keys| <= c.inner
  }

  /** Two neighbours as their parent's row shows them. */
  lemma PairViews(pages: Pages, pid: nat, parent: PageNode, row: Row, i: nat, j: nat, c: Caps)
    requires RowOn(pages, pid, parent, row) && Mendable(row, i, c) && j <= i <= j + 1 < |row.kids|
    ensures |parent.children| == |row.kids| == |parent.keys| + 1 && parent.keys == row.keys && |row.keys| <= c.inner
    ensures var x, y, p, q := row.kids[j], row.kids[j + 1], parent.children[j], parent.children[j + 1];
            && p == Pid(x) && p in pages && pages[p] == View(x) && ViewFits(View(x), c) && Shaped(x)
            && q == Pid(y) && q in pages && pages[q] == View(y) && ViewFits(View(y), c) && Shaped(y)
            && SameKind(x, y) && p != q
    ensures |View(row.kids[i]).keys| + 1 <= if row.kids[i].Leaf? then c.leaf else c.inner
  {
    hide Rep, RepAll, Foot, FootAll, Sep, SepAll, Shaped, ShapedAll;
    RowKid(pages, pid, parent, row, j);
    RowKid(pages, pid, parent, row, j + 1);
    RowPair(pages, pid, parent, row, j);
    Neighbours(row, i, c);
    BorrowFits(row, i, c);
  }

  /** The pages after a borrow from the left. */
  lemma LeftBorrowed(pages: Pages, pid: nat, parent: PageNode, row: Row, i: nat)
    requires RowOn(pages, pid, parent, row) && 0 < i < |row.kids|
    requires Spare(row.kids[i - 1]) && SameKind(row.kids[i - 1], row.kids[i])
    requires Shaped(row.kids[i - 1]) && Shaped(row.kids[i])
    ensures var (s, a, b) := TakeLeft(row.kids[i - 1], row.kids[i]);
            var parent' := InternalNode(Splice(row.keys, i - 1, 1, [s]), parent.children);
            var pages' := pages[Pid(row.kids[i - 1]) := View(a)][Pid(row.kids[i]) := View(b)][pid := parent'];
            Became(pages, pages', pid, row.kids, parent', BorrowedLeft(row, i))
  {
    var (s, a, b) := TakeLeft(row.kids[i - 1], row.kids[i]);
    hide Rep, RepAll, Foot, FootAll, Sep, SepAll, Shaped, Became, TakeLeft, BorrowedLeft, View, Splice, Spare;
    LeftMoves(row.kids[i - 1], row.kids[i]);
    BorrowedLeftIs(row, i);
    MovedRow(pages, pid, parent, row, i - 1, s, a, b);
  }

  lemma MovedRow(pages: Pages, pid: nat, parent: PageNode, row: Row, j: nat, s: int, a: Tree, b: Tree)
    requires RowOn(pages, pid, parent, row) && j + 1 < |row.kids| && Shaped(a) && Shaped(b)
    requires SameKind(row.kids[j], row.kids[j + 1]) && SameKind(row.kids[j], a) && SameKind(row.kids[j + 1], b)
    requires Pid(a) == Pid(row.kids[j]) && Pid(b) == Pid(row.kids[j + 1])
    requires a.Node? ==> a.kids + b.kids == row.kids[j].kids + row.kids[j + 1].kids
    requires a.Leaf? ==> a.l.next == row.kids[j].l.next && b.l.next == row.kids[j + 1].l.next
    ensures var row' := Row(Splice(row.keys, j, 1, [s]), Splice(row.kids, j, 2, [a, b]));
            var parent' := InternalNode(row'.keys, parent.children);
            var pages' := pages[Pid(a) := View(a)][Pid(b) := View(b)][pid := parent'];
            Became(pages, pages', pid, row.kids, parent', row')
  {
    var x, y := row.kids[j], row.kids[j + 1];
    var row' := Row(Splice(row.keys, j, 1, [s]), Splice(row.kids, j, 2, [a, b]));
    var parent' := InternalNode(row'.keys, parent.children);
    var pages' := pages[Pid(a) := View(a)][Pid(b) := View(b)][pid := parent'];
    RowKid(pages, pid, parent, row, j);
    RowKid(pages, pid, parent, row, j + 1);
    RowPair(pages, pid, parent, row, j);
    MovedLinks(pages, pid, x, y, a, b, parent');
    hide Rep, Foot, Shaped, ShapedAll, Sep, SepAll, View, RepAll, FootAll, LinksKept;
    MovedOn(pages, pages', pid, x, y, a, b);
    PairPids(row.kids, j, a, b);
    hide Reworked, Pids;
    PairOn(pages, pages', pid, parent', row, j, row'.keys, [a, b]);
  }

  lemma MergedOnRow(pages: Pages, pid: nat, parent: PageNode, row: Row, j: nat)
    requires RowOn(pages, pid, parent, row) && j + 1 < |row.kids| && SameKind(row.kids[j], row.kids[j + 1])
    ensures var m := Merged(row.kids[j], row.keys[j], row.kids[j + 1]);
            var row' := MergedRow(row, j);
            var parent' := InternalNode(row'.keys, Splice(parent.children, j, 1, []));
            var pages' := pages[Pid(m) := View(m)][pid := parent'];
            Became(pages, pages', pid, row.kids, parent', row')
  {
    var x, s, y := row.kids[j], row.keys[j], row.kids[j + 1];
    var m, row' := Merged(x, s, y), MergedRow(row, j);
    var parent' := InternalNode(row'.keys, Splice(parent.children, j, 1, []));
    var pages' := pages[Pid(m) := View(m)][pid := parent'];
    RowKid(pages, pid, parent, row, j);
    RowKid(pages, pid, parent, row, j + 1);
    RowPair(pages, pid, parent, row, j);
    MergedView(x, s, y);
    assert LinksKept(pages, pages');
    hide Rep, Foot, Shaped, ShapedAll, Sep, SepAll, View, RepAll, FootAll, Merged, LinksKept;
    MergedOn(pages, pages', pid, x, s, y);
    PairPids(row.kids, j, x, m);
    hide Reworked, Pids;
    PairOn(pages, pages', pid, parent', row, j, row'.keys, [m]);
  }

  /** Which way `_try_borrow_or_merge` takes. */
  lemma RebalanceIs(row: Row, i: nat, c: Caps)
    requires Mendable(row, i, c) && |row.kids| == |row.keys| + 1 && ShapedAll(row.kids)
    ensures i > 0 ==> SameKind(row.kids[i - 1], row.kids[i])
    ensures i + 1 < |row.kids| ==> SameKind(row.kids[i], row.kids[i + 1])
    ensures Rebalance(row.keys, row.kids, i) == Some(
              if i > 0 && Spare(row.kids[i - 1]) then BorrowedLeft(row, i)
              else if i + 1 < |row.kids| && Spare(row.kids[i + 1]) then BorrowedRight(row, i)
              else MergedRow(row, if i + 1 < |row.kids| then i else i - 1))
  {
    Neighbours(row, i, c);
    hide Fits;
  }

  lemma LeftMoves(a: Tree, b: Tree)
    requires Shaped(a) && Shaped(b) && Spare(a) && SameKind(a, b)
    ensures var (_, a', b') := TakeLeft(a, b);
            && Pid(a') == Pid(a) && Pid(b') == Pid(b)
            && Shaped(a') && Shaped(b') && SameKind(a, a') && SameKind(b, b')
               && (a.Node? ==> a'.kids + b'.kids == a.kids + b.kids)
            && (a.Leaf? ==> a'.l.next == a.l.next && b'.l.next == b.l.next)
  {
    TakeLeftShaped(a, b);
  }

  lemma RightMoves(a: Tree, b: Tree)
    requires Shaped(a) && Shaped(b) && Spare(b) && SameKind(a, b)
    ensures var (_, a', b') := TakeRight(a, b);
            && Pid(a') == Pid(a) && Pid(b') == Pid(b)
            && Shaped(a') && Shaped(b') && SameKind(a, a') && SameKind(b, b')
               && (a.Node? ==> a'.kids + b'.kids == a.kids + b.kids)
            && (a.Leaf? ==> a'.l.next == a.l.next && b'.l.next == b.l.next)
  {
    TakeRightShaped(a, b);
  }

  lemma WritesCommute(pages: Pages, p: nat, a: PageNode, q: nat, b: PageNode)
    requires p != q
    ensures pages[p := a][q := b] == pages[q := b][p := a]
  {
  }

  // ----- one subtree

  /** A subtree after a deletion, as its caller sees it: same root page, no new pages. */
  ghost predicate DeletedOn(pages: Pages, pages': Pages, t: Tree, d: Del, node: PageNode, removed: bool, under: bool) {
    && Rep(pages', d.t) && Sep(d.t) && Pid(d.t) == Pid(t) && Foot(d.t) <= Foot(t)
    && SameOutside(pages, pages', Foot(t))
    && node == View(d.t) && removed == d.removed && under == d.under
  }

  /** The scan between the two bounds finds the entry's first position or none. */
  lemma FoundAt(es: seq<Entry>, e: Entry, start: nat, end: nat, pos: nat)
    requires forall q :: 0 <= q < |es| ==> (q < start <==> es[q].key < e.key) && (q < end <==> es[q].key <= e.key)
    requires end <= |es| && start <= pos && forall q :: start <= q < pos && q < end ==> es[q].rid != e.rid
    requires pos < end ==> es[pos].rid == e.rid
    ensures IndexOf(es, e) == if pos < end then Some(pos) else None
  {
    var r := IndexOf(es, e);
    if pos < end {
      assert es[pos] == e;
    }
    if r.Some? {
      FirstIndex(es, e);
    }
  }

  lemma {:induction false} FirstIndex(es: seq<Entry>, e: Entry)
    requires IndexOf(es, e).Some?
    ensures forall q :: 0 <= q < IndexOf(es, e).value ==> es[q] != e
  {
    if es[0] != e {
      FirstIndex(es[1..], e);
      forall q | 0 <= q < IndexOf(es, e).value ensures es[q] != e {
        assert q > 0 ==> es[q] == es[1..][q - 1];
      }
    }
  }

  lemma LeafWithout(pages: Pages, l: LeafRec, p: nat)
    requires p < |l.es| && IndexOf(l.es, l.es[p]) == Some(p)
    ensures var node := LeafNode(Splice(Keys(l.es), p, 1, []), Splice(Rids(l.es), p, 1, []), l.next);
            DeletedOn(pages, pages[l.pid := node], Leaf(l), DelT(Leaf(l), l.es[p]), node, true, |node.keys| < MIN_LEAF)
  {
    var es := Splice(l.es, p, 1, []);
    assert Keys(es) == Splice(Keys(l.es), p, 1, []) && Rids(es) == Splice(Rids(l.es), p, 1, []);
    RepLeaf(pages[l.pid := LeafNode(Keys(es), Rids(es), l.next)], l.(es := es));
  }

  lemma DelStep(t: Tree, e: Entry)
    requires t.Node? && Shaped(t)
    ensures var i := UpperBound(t.keys, e.key);
            && i < |t.kids| == |t.keys| + 1 && Shaped(t.kids[i]) && ShapedAll(t.kids)
            && DelT(t, e) == NodeDel(t.pid, t.keys, t.kids, i, DelT(t.kids[i], e))
  {
    ShapedAt(t.kids, UpperBound(t.keys, e.key));
  }

  lemma RowFits(t: Tree, root: bool, c: Caps)
    requires t.Node? && Occ(t, root, c)
    ensures |t.keys| <= c.inner
  {
  }

  /** Child i lost the entry or not: the parent's row and page. */
  lemma BackFromDelete(pages: Pages, pages': Pages, t: Tree, i: nat, d: Del, node: PageNode, removed: bool, under: bool)
    requires t.Node? && Rep(pages, t) && Shaped(t) && Sep(t) && i < |t.kids| == |t.keys| + 1 && Shaped(d.t)
    requires DeletedOn(pages, pages', t.kids[i], d, node, removed, under)
    ensures var row := Row(t.keys, Splice(t.kids, i, 1, [d.t]));
            && RowOn(pages', t.pid, View(t), row) && FootAll(row.kids) <= FootAll(t.kids)
               && Foot(t) == {t.pid} + FootAll(t.kids)
    ensures t.pid in pages' && pages'[t.pid] == View(t) && SameOutside(pages, pages', Foot(t))
  {
    var kids := t.kids;
    assert Foot(t) == {t.pid} + FootAll(t.kids) && RepAll(pages, kids);
    TwoShaped(d.t, d.t);
    ShapedSplice(kids, i, 1, [d.t]);
    hide Rep, Shaped, ShapedAll, View;
    RepPut(pages, pages', kids, i, Done(d.t));
    OneKidSep(kids[i]);
    OneKidSep(d.t);
    KidFoot(kids, kids[i]);
    hide Foot, FootAll, SepAll;
    assert kids[i..i + 1] == [kids[i]];
    SepSplice(kids, i, 1, [d.t]);
    PidsSplice(kids, i, d.t);
  }

  /** The node's page already shows the result. */
  lemma NoRebalance(pages: Pages, pages': Pages, t: Tree, i: nat, d: Del)
    requires t.Node? && i < |t.kids| == |t.keys| + 1 && ShapedAll(t.kids) && Shaped(d.t) && (!d.removed || !d.under)
    requires var row := Row(t.keys, Splice(t.kids, i, 1, [d.t]));
             && RowOn(pages', t.pid, View(t), row) && FootAll(row.kids) <= FootAll(t.kids)
                && Foot(t) == {t.pid} + FootAll(t.kids)
    requires t.pid in pages' && pages'[t.pid] == View(t) && SameOutside(pages, pages', Foot(t))
    ensures DeletedOn(pages, pages', t, NodeDel(t.pid, t.keys, t.kids, i, d), View(t), d.removed, false)
  {
    var t' := Node(t.pid, t.keys, Splice(t.kids, i, 1, [d.t]));
    RepNode(pages', t');
    assert Foot(t') == {t.pid} + FootAll(t'.kids);
    hide Rep, FootAll, SepAll, ShapedAll;
  }

  /** When a child reports underflow, no internal borrow happened below it, so it is mendable. */
  lemma UnderMendable(t: Tree, e: Entry, i: nat, c: Caps, root: bool, h: nat, lo: Bound, hi: Bound)
    requires t.Node? && Shaped(t) && WF(t, h, lo, hi) && Occ(t, root, c) && Roomy(c) && i < |t.kids| == |t.keys| + 1
    requires Shaped(t.kids[i]) && Above(Lo(t.keys, i, lo), e.key) && Below(e.key, Hi(t.keys, i, hi))
             && DelT(t.kids[i], e).under
    ensures Mendable(Row(t.keys, Splice(t.kids, i, 1, [DelT(t.kids[i], e).t])), i, c)
  {
    var kid, d := t.kids[i], DelT(t.kids[i], e);
    WFsAt(t.keys, t.kids, h - 1, lo, hi, i);
    assert kid in t.kids && Occ(kid, false, c) && |t.kids| >= 2 && |t.keys| <= c.inner;
    AllFit(t.keys, t.kids, c, h - 1, lo, hi);
    hide DelT, BorrowsInternally, WF, WFs, Occ, Shaped, Increasing, Fits;
    KidUnder(kid, e, c, h - 1, Lo(t.keys, i, lo), Hi(t.keys, i, hi));
    SpliceFits(t.kids, i, d.t, c, h - 1);
  }

  lemma KidUnder(t: Tree, e: Entry, c: Caps, h: nat, lo: Bound, hi: Bound)
    requires Shaped(t) && WF(t, h, lo, hi) && Occ(t, false, c) && Roomy(c) && Above(lo, e.key) && Below(e.key, hi)
             && DelT(t, e).under
    ensures var d := DelT(t, e);
            Size(d.t) < Least(d.t) && Fits(d.t, c) && (d.t.Leaf? <==> h == 0)
            && (d.t.Leaf? ==> Increasing(d.t.l.es))
  {
    if BorrowsInternally(t, e) {
      var x := InternalBorrowLoses(t, e, c, false, h, lo, hi);
      assert false;
    }
    var p := DelKeeps(t, e, c, false, h, lo, hi);
    hide DelT, BorrowsInternally;
  }

  lemma AllFit(keys: seq<int>, kids: seq<Tree>, c: Caps, h: nat, lo: Bound, hi: Bound)
    requires WFs(keys, kids, h, lo, hi) && AllOcc(kids, c)
    ensures forall k | k in kids :: Fits(k, c) && (k.Leaf? <==> h == 0) && (k.Leaf? ==> Increasing(k.l.es))
  {
    forall k | k in kids ensures Fits(k, c) && (k.Leaf? <==> h == 0) && (k.Leaf? ==> Increasing(k.l.es)) {
      var j :| 0 <= j < |kids| && kids[j] == k;
      WFsAt(keys, kids, h, lo, hi, j);
      OccIs(k, c);
    }
  }

  lemma SpliceFits(kids: seq<Tree>, i: nat, k: Tree, c: Caps, h: nat)
    requires i < |kids| && Fits(k, c) && (k.Leaf? <==> h == 0) && (k.Leaf? ==> Increasing(k.l.es))
    requires forall x | x in kids :: Fits(x, c) && (x.Leaf? <==> h == 0) && (x.Leaf? ==> Increasing(x.l.es))
    ensures var kids' := Splice(kids, i, 1, [k]);
            |kids'| == |kids| && kids'[i] == k && forall x | x in kids' ::
                  Fits(x, c) && SameKind(x, k) && (x.Leaf? ==> Increasing(x.l.es))
  {
    var kids' := Splice(kids, i, 1, [k]);
    assert kids' == kids[i := k];
    hide Fits, Increasing;
    forall x | x in kids' ensures x == k || x in kids {
      var j :| 0 <= j < |kids'| && kids'[j] == x;
    }
  }

  lemma Rebalanced(pages: Pages, pages1: Pages, pages2: Pages, t: Tree, i: nat, d: Del, c: Caps, node: PageNode, n: nat)
    requires t.Node? && i < |t.kids| == |t.keys| + 1 && ShapedAll(t.kids) && Shaped(d.t) && d.removed && d.under
    requires SameOutside(pages, pages1, Foot(t)) && KeysBelow(pages1, n) && t.pid in pages1
    requires Mendable(Row(t.keys, Splice(t.kids, i, 1, [d.t])), i, c)
    requires var kids' := Splice(t.kids, i, 1, [d.t]);
             && RowOn(pages1, t.pid, View(t), Row(t.keys, kids')) && FootAll(kids') <= FootAll(t.kids)
             && Foot(t) == {t.pid} + FootAll(t.kids)
             && var r := Rebalance(t.keys, kids', i);
             && r.Some? && Became(pages1, pages2, t.pid, kids', node, r.value)
    ensures |node.keys| <= c.inner && node.InternalNode? && KeysBelow(pages2[t.pid := node], n)
    ensures DeletedOn(pages, pages2[t.pid := node], t, NodeDel(t.pid, t.keys, t.kids, i, d), node, true,
                      |node.keys| + 1 < MIN_KIDS)
  {
    var kids' := Splice(t.kids, i, 1, [d.t]);
    var row := Rebalance(t.keys, kids', i).value;
    assert pages2[t.pid := node] == pages2;
    RebalanceNoLarger(Row(t.keys, kids'), i, c);
    hide Rebalance, Rep, FootAll, SepAll, ShapedAll, Shaped, Mendable, RepAll;
    RepNode(pages2, Node(t.pid, row.keys, row.kids));
    assert Foot(Node(t.pid, row.keys, row.kids)) == {t.pid} + FootAll(row.kids);
  }

  lemma RebalanceNoLarger(row: Row, i: nat, c: Caps)
    requires Mendable(row, i, c) && |row.kids| == |row.keys| + 1 && ShapedAll(row.kids)
    ensures var r := Rebalance(row.keys, row.kids, i); r.Some? && |r.value.keys| <= |row.keys| <= c.inner
  {
    RebalanceIs(row, i, c);
    hide Rebalance, ShapedAll, TakeLeft, TakeRight, Merged;
  }

  // ----- what a deletion leaves of the leaf chain on the pages

  /** Every link stays, and a leaf page that the tree gives up is still a sound leaf page. */
  ghost predicate ChainSafe(pages: Pages, pages': Pages, t: Tree, t': Tree) {
    LinksKept(pages, pages') && DroppedOk(pages', Foot(t) - Foot(t'))
  }

  ghost predicate DroppedOk(pages: Pages, dropped: set<nat>) {
    forall p | p in dropped :: p in pages && (pages[p].LeafNode? ==> LeafOk(pages[p]))
  }

  lemma LinksTrans(a: Pages, b: Pages, c: Pages)
    requires LinksKept(a, b) && LinksKept(b, c)
    ensures LinksKept(a, c)
  {
  }

  lemma ChainUp(pages: Pages, pages': Pages, t: Tree, i: nat, k: Tree)
    requires t.Node? && Sep(t) && i < |t.kids| && ChainSafe(pages, pages', t.kids[i], k)
    ensures ChainSafe(pages, pages', t, Node(t.pid, t.keys, Splice(t.kids, i, 1, [k])))
  {
    var t' := Node(t.pid, t.keys, Splice(t.kids, i, 1, [k]));
    KidFeet(t.kids, i, k);
    assert Foot(t') == {t.pid} + FootAll(t'.kids) && Foot(t) == {t.pid} + FootAll(t.kids);
    hide Foot, FootAll, LinksKept, LeafOk;
    assert Foot(t) - Foot(t') <= Foot(t.kids[i]) - Foot(k);
  }

  /** The feet of a row around child i, before and after it became k. */
  lemma KidFeet(kids: seq<Tree>, i: nat, k: Tree)
    requires i < |kids|
    ensures FootAll(kids) == FootAll(kids[..i]) + Foot(kids[i]) + FootAll(kids[i + 1..])
    ensures FootAll(Splice(kids, i, 1, [k])) == FootAll(kids[..i]) + Foot(k) + FootAll(kids[i + 1..])
  {
    hide Foot, FootAll, Sep, SepAll;
    var a, b := kids[..i], kids[i + 1..];
    assert kids == a + [kids[i]] + b;
    SepAppend(a, [kids[i]]);
    SepAppend(a + [kids[i]], b);
    SepAppend(a, [k]);
    SepAppend(a + [k], b);
    OneKidSep(kids[i]);
    OneKidSep(k);
  }

  lemma ChainRebalanced(pages: Pages, pages1: Pages, pages2: Pages, t: Tree, i: nat, k: Tree, node: PageNode, row: Row,
                        c: Caps)
    requires t.Node? && Sep(t) && i < |t.kids| && ChainSafe(pages, pages1, t.kids[i], k)
    requires var kids' := Splice(t.kids, i, 1, [k]);
             && RepAll(pages1, kids') && Mendable(Row(t.keys, kids'), i, c)
                && Became(pages1, pages2, t.pid, kids', node, row)
    ensures ChainSafe(pages, pages2, t, Node(t.pid, row.keys, row.kids))
  {
    var kids', t' := Splice(t.kids, i, 1, [k]), Node(t.pid, row.keys, row.kids);
    KidFeet(t.kids, i, k);
    SepParts(t.kids, i);
    assert Foot(t') == {t.pid} + FootAll(t'.kids) && Foot(t) == {t.pid} + FootAll(t.kids) && t.pid !in FootAll(t.kids);
    LinksTrans(pages, pages1, pages2);
    hide Foot, FootAll, LinksKept, Sep, SepAll;
    forall p | p in Foot(t) - Foot(t') ensures p in pages2 && (pages2[p].LeafNode? ==> LeafOk(pages2[p])) {
      if p in FootAll(kids') {
        DroppedLeaf(pages1, pages2, kids', FootAll(kids') - FootAll(row.kids), p);
      } else {
        assert p in Foot(t.kids[i]) - Foot(k);
      }
    }
  }

  lemma DroppedLeaf(pages: Pages, pages': Pages, kids: seq<Tree>, dropped: set<nat>, p: nat)
    requires RepAll(pages, kids) && DroppedStay(pages, pages', kids, dropped) && p in dropped
    requires forall k | k in kids :: k.Leaf? ==> Increasing(k.l.es)
    ensures p in pages' && (pages'[p].LeafNode? ==> LeafOk(pages'[p]))
  {
    var k :| k in kids && Pid(k) == p;
    assert Rep(pages, k) && pages[p] == View(k);
    if k.Leaf? {
      ViewOk(k.l);
    }
  }

  // ----- the root

  /** The only child of a root is on its page, and takes over. */
  lemma RootOn(pages: Pages, t: Tree)
    requires Rep(pages, t) && Sep(t)
    ensures t.Node? <==> View(t).InternalNode?
    ensures t.Node? ==> |View(t).children| == |t.kids|
    ensures t.Node? && |t.kids| == 1 ==>
              var p := View(t).children[0]; p == Pid(t.kids[0]) && p in pages && pages[p] == View(t.kids[0])
    ensures Rep(pages, RootOf(t)) && Sep(RootOf(t)) && Foot(RootOf(t)) <= Foot(t)
  {
    if t.Node? && |t.kids| == 1 {
      assert t.kids[0] in t.kids;
      KidSep(t.kids, 0);
    }
  }

  lemma RootLeaves(t: Tree)
    ensures Leaves(RootOf(t)) == Leaves(t)
  {
    if t.Node? && |t.kids| == 1 {
      assert t.kids == [t.kids[0]];
      OneKid(t.kids[0]);
    }
  }

  lemma {:induction false} LeafFoot(t: Tree, j: nat)
    requires j < |Leaves(t)|
    ensures Leaves(t)[j].pid in Foot(t)
    decreases t, 1
  {
    if t.Node? {
      LeafFootAll(t.kids, j);
    }
  }

  lemma {:induction false} LeafFootAll(kids: seq<Tree>, j: nat)
    requires j < |LeavesAll(kids)|
    ensures LeavesAll(kids)[j].pid in FootAll(kids)
    decreases kids, 0
  {
    var n := |Leaves(kids[0])|;
    if j < n {
      LeafFoot(kids[0], j);
    } else {
      LeafFootAll(kids[1..], j - n);
    }
  }

  /** Separate pages give the leaves distinct pages. */
  lemma {:induction false} SepDistinct(t: Tree)
    requires Sep(t)
    ensures DistinctPids(Leaves(t))
    decreases t, 1
  {
    if t.Node? {
      SepDistinctAll(t.kids);
    }
  }

  lemma {:induction false} SepDistinctAll(kids: seq<Tree>)
    requires SepAll(kids)
    ensures DistinctPids(LeavesAll(kids))
    decreases kids, 0
  {
    if kids != [] {
      SepDistinct(kids[0]);
      SepDistinctAll(kids[1..]);
      var a, b := Leaves(kids[0]), LeavesAll(kids[1..]);
      forall i, j | 0 <= i < |a| && 0 <= j < |b| ensures a[i].pid != b[j].pid {
        LeafFoot(kids[0], i);
        LeafFootAll(kids[1..], j);
      }
      hide Leaves, LeavesAll, SepAll, FootAll, Foot, Sep;
      DistinctAppend(a, b);
    }
  }

  lemma DistinctAppend(a: seq<LeafRec>, b: seq<LeafRec>)
    requires DistinctPids(a) && DistinctPids(b)
    requires forall i, j :: 0 <= i < |a| && 0 <= j < |b| ==> a[i].pid != b[j].pid
    ensures DistinctPids(a + b)
  {
  }

  lemma DeleteOutcome(t: Tree, e: Entry, c: Caps, h: nat) returns (h': nat)
    requires WF(t, h, None, None) && Shaped(t) && Occ(t, true, c) && Roomy(c) && Sep(t)
    ensures Chained(Leaves(t)) ==> (Chained(Leaves(Delete(t, e))) <==> AbandonedLeaf(t, e) in {None, Some(0)})
    ensures !BorrowsInternally(t, e) ==>
              && WF(Delete(t, e), h', None, None) && Shaped(Delete(t, e)) && Occ(Delete(t, e), true, c)
              && var m := Content(Entries(t));
              Content(Entries(Delete(t, e))) == if e.key in m && m[e.key] == e.rid then m - {e.key} else m
  {
    h' := h;
    if Chained(Leaves(t)) {
      SepDistinct(t);
      DeleteChainExact(t, e, h);
      RootLeaves(DelT(t, e).t);
    }
    hide *;
    if !BorrowsInternally(t, e) {
      var p;
      h', p := DeleteKeeps(t, e, c, h);
      DeleteRefinesMap(t, e, c, h, 0);
    }
  }
}
