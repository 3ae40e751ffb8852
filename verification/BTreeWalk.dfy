/** Walking the leaf chain on the pages, whole or not. */
module BTreeWalk {
  import opened Common
  import opened BTree
  import opened BTreeInsert
  import opened BTreeDelete
  import opened BTreeDeleteProof
  import opened BTreeDeleteExact
  import opened BTreeChain
  import opened BTreeRep
  import opened BTreeDeletePages

  // ----- what a walk yields

  /** The walk ends in this leaf: a key from the lower end on is past the upper end. */
  ghost predicate Stops(es: seq<Entry>, b: Bounds) {
    exists e <- es :: PastHi(e.key, b) && (b.lo.Some? ==> b.lo.value <= e.key)
  }

  /** Leaf after leaf: the keys in bounds, until a leaf in which the walk ends. */
  ghost function WalkOf(path: seq<LeafRec>, b: Bounds): seq<Rid> {
    if path == [] then []
    else RangeOf(path[0].es, b) + if Stops(path[0].es, b) then [] else WalkOf(path[1..], b)
  }

  lemma {:induction false} RangeToPrefix(x: seq<Entry>, y: seq<Entry>, p: nat, b: Bounds)
    requires p <= |x|
    ensures RangeTo(x + y, p, b) == RangeTo(x, p, b)
    decreases p
  {
    if p > 0 {
      RangeToPrefix(x, y, p - 1, b);
      assert (x + y)[p - 1] == x[p - 1];
    }
  }

  lemma {:induction false} RangeToAppend(x: seq<Entry>, y: seq<Entry>, q: nat, b: Bounds)
    requires q <= |y|
    ensures RangeTo(x + y, |x| + q, b) == RangeOf(x, b) + RangeTo(y, q, b)
    decreases q
  {
    if q == 0 {
      RangeToPrefix(x, y, |x|, b);
    } else {
      RangeToAppend(x, y, q - 1, b);
      assert (x + y)[|x| + q - 1] == y[q - 1];
    }
  }

  lemma RangeAppend(x: seq<Entry>, y: seq<Entry>, b: Bounds)
    ensures RangeOf(x + y, b) == RangeOf(x, b) + RangeOf(y, b)
  {
    RangeToAppend(x, y, |y|, b);
    assert |x + y| == |x| + |y|;
  }

  lemma RangeNone(es: seq<Entry>, b: Bounds)
    requires forall i :: 0 <= i < |es| ==> !InBounds(es[i].key, b)
    ensures RangeOf(es, b) == []
  {
    RangeSkip(es, 0, |es|, b);
  }

  /** On leaves in key order, the walk is the range of everything. */
  lemma {:induction false} SortedWalk(ls: seq<LeafRec>, b: Bounds)
    requires Increasing(Cat(ls))
    ensures WalkOf(ls, b) == RangeOf(Cat(ls), b)
    decreases ls
  {
    if ls != [] {
      var x, y := ls[0].es, Cat(ls[1..]);
      assert Cat(ls) == x + y;
      SortedParts(x, y);
      SortedWalk(ls[1..], b);
      RangeAppend(x, y, b);
      if Stops(x, b) {
        PastIsPast(x, y, b);
        RangeNone(y, b);
      }
    }
  }

  lemma SortedParts(x: seq<Entry>, y: seq<Entry>)
    requires Increasing(x + y)
    ensures Increasing(x) && Increasing(y) && forall i, j :: 0 <= i < |x| && 0 <= j < |y| ==> x[i].key < y[j].key
  {
    var s := x + y;
    forall i, j | 0 <= i < j < |x| ensures x[i].key < x[j].key {
      assert s[i] == x[i] && s[j] == x[j];
    }
    forall i, j | 0 <= i < j < |y| ensures y[i].key < y[j].key {
      assert s[|x| + i] == y[i] && s[|x| + j] == y[j];
    }
    forall i, j | 0 <= i < |x| && 0 <= j < |y| ensures x[i].key < y[j].key {
      assert s[i] == x[i] && s[|x| + j] == y[j];
    }
  }

  lemma PastIsPast(x: seq<Entry>, y: seq<Entry>, b: Bounds)
    requires Stops(x, b) && forall i, j :: 0 <= i < |x| && 0 <= j < |y| ==> x[i].key < y[j].key
    ensures forall j :: 0 <= j < |y| ==> !InBounds(y[j].key, b)
  {
    var e :| e in x && PastHi(e.key, b);
    var i :| 0 <= i < |x| && x[i] == e;
  }

  /** From the leaf that owns the lower end on, that is still the range of everything. */
  lemma WalkFrom(ls: seq<LeafRec>, j: nat, b: Bounds)
    requires Increasing(Cat(ls)) && j <= |ls| && forall e <- Cat(ls[..j]) :: !PassesLo(e.key, b)
    ensures WalkOf(ls[j..], b) == RangeOf(Cat(ls), b)
  {
    var x, y := Cat(ls[..j]), Cat(ls[j..]);
    assert ls == ls[..j] + ls[j..];
    CatAppend(ls[..j], ls[j..]);
    hide Cat;
    SortedParts(x, y);
    SortedWalk(ls[j..], b);
    RangeAppend(x, y, b);
    forall i | 0 <= i < |x| ensures !InBounds(x[i].key, b) {
      assert x[i] in x;
    }
    RangeNone(x, b);
  }

  // ----- paths on pages

  /** The leaf a page shows. */
  function RecAt(pages: Pages, p: nat): LeafRec
    requires p in pages && LeafOk(pages[p])
  {
    LeafRec(p, EntriesOf(pages[p]), pages[p].next)
  }

  ghost predicate OnPage(pages: Pages, l: LeafRec) {
    l.pid in pages && LeafOk(pages[l.pid]) && RecAt(pages, l.pid) == l
  }

  /** Leaves on their pages, each naming the next, the last one none. */
  ghost predicate LinkedOn(pages: Pages, path: seq<LeafRec>) {
    Chained(path) && forall k :: 0 <= k < |path| ==> OnPage(pages, path[k])
  }

  /** The pages decide: there is one path from a leaf. */
  lemma {:induction false} OnePath(pages: Pages, a: seq<LeafRec>, b: seq<LeafRec>)
    requires LinkedOn(pages, a) && LinkedOn(pages, b) && a[0] == b[0]
    ensures a == b
    decreases |a|
  {
    hide LinkedOn;
    HeadLink(pages, a);
    HeadLink(pages, b);
    if |a| > 1 {
      LinkedTail(pages, a);
      LinkedTail(pages, b);
      SamePage(pages, a[1], b[1]);
      OnePath(pages, a[1..], b[1..]);
      assert a == [a[0]] + a[1..] && b == [b[0]] + b[1..];
    }
  }

  lemma SamePage(pages: Pages, x: LeafRec, y: LeafRec)
    requires OnPage(pages, x) && OnPage(pages, y) && x.pid == y.pid
    ensures x == y
  {
  }

  lemma HeadLink(pages: Pages, path: seq<LeafRec>)
    requires LinkedOn(pages, path)
    ensures path != [] && (path[0].next.None? <==> |path| == 1)
    ensures |path| > 1 ==> path[0].next == Some(path[1].pid) && OnPage(pages, path[1])
  {
    hide OnPage;
    assert path[0].next == NextOf(path, 0);
  }

  lemma LinkedTail(pages: Pages, path: seq<LeafRec>)
    requires LinkedOn(pages, path) && |path| > 1
    ensures LinkedOn(pages, path[1..]) && path[0].next == Some(path[1].pid)
  {
    assert path[0].next == NextOf(path, 0);
    forall k | 0 <= k < |path[1..]| ensures path[1..][k].next == NextOf(path[1..], k) && OnPage(pages, path[1..][k]) {
      assert path[k + 1].next == NextOf(path, k + 1) && OnPage(pages, path[k + 1]);
    }
  }

  /** A leaf of the tree is on its page. */
  lemma TreeLeafOnPage(pages: Pages, t: Tree, h: nat, lo: Bound, hi: Bound, j: nat)
    requires Rep(pages, t) && WF(t, h, lo, hi) && j < |Leaves(t)|
    ensures OnPage(pages, Leaves(t)[j])
  {
    LeafOnPage(pages, t, j);
    EntriesSorted(t, h, lo, hi);
    LeafAt(Leaves(t), j);
    ViewOk(Leaves(t)[j]);
    hide Leaves, Cat, Rep, WF;
  }

  /** A whole chain is the path through the tree's leaves. */
  lemma WholePath(pages: Pages, t: Tree, h: nat, lo: Bound, hi: Bound, j: nat)
    requires Rep(pages, t) && WF(t, h, lo, hi) && Chained(Leaves(t)) && j < |Leaves(t)|
    ensures LinkedOn(pages, Leaves(t)[j..])
  {
    var ls := Leaves(t);
    hide Leaves, Rep, WF, OnPage;
    forall k | 0 <= k < |ls[j..]| ensures ls[j..][k].next == NextOf(ls[j..], k) && OnPage(pages, ls[j..][k]) {
      assert ls[j + k].next == NextOf(ls, j + k);
      TreeLeafOnPage(pages, t, h, lo, hi, j + k);
    }
  }

  // ----- leaf pages

  /** A leaf page among the tree's pages belongs to a leaf. */
  lemma {:induction false} LeafPageIsLeaf(pages: Pages, t: Tree, p: nat) returns (j: nat)
    requires Rep(pages, t) && p in Foot(t) && p in pages && pages[p].LeafNode?
    ensures j < |Leaves(t)| && Leaves(t)[j].pid == p
    decreases t, 1
  {
    if t.Leaf? {
      j := 0;
    } else {
      j := LeafPageIsLeafAll(pages, t.kids, p);
    }
  }

  lemma {:induction false} LeafPageIsLeafAll(pages: Pages, kids: seq<Tree>, p: nat) returns (j: nat)
    requires RepAll(pages, kids) && p in FootAll(kids) && p in pages && pages[p].LeafNode?
    ensures j < |LeavesAll(kids)| && LeavesAll(kids)[j].pid == p
    decreases kids, 0
  {
    if p in Foot(kids[0]) {
      j := LeafPageIsLeaf(pages, kids[0], p);
    } else {
      var i := LeafPageIsLeafAll(pages, kids[1..], p);
      j := |Leaves(kids[0])| + i;
    }
  }

  // ----- steps of the walk

  lemma PathHead(pages: Pages, path: seq<LeafRec>)
    requires LinkedOn(pages, path)
    ensures path != [] && OnPage(pages, path[0]) && path[0].pid in pages && LeafOk(pages[path[0].pid])
    ensures EntriesOf(pages[path[0].pid]) == path[0].es && pages[path[0].pid].next == path[0].next
  {
    assert OnPage(pages, path[0]);
  }

  lemma WalkStep(out: seq<Rid>, rest: seq<LeafRec>, b: Bounds)
    requires rest != []
    ensures out + WalkOf(rest, b) ==
              (out + RangeOf(rest[0].es, b)) + if Stops(rest[0].es, b) then [] else WalkOf(rest[1..], b)
  {
    hide RangeOf, Stops;
  }

  lemma LeafFacts(node: PageNode, es: seq<Entry>)
    requires LeafOk(node) && EntriesOf(node) == es
    ensures node.keys == Keys(es) && node.rids == Rids(es) && Sorted(node.keys) && Increasing(es)
  {
  }

  lemma StopsAt(es: seq<Entry>, start: nat, i: nat, b: Bounds)
    requires Increasing(es) && start <= i < |es| && PastHi(es[i].key, b)
    requires b.lo.Some? ==> start == LowerBound(Keys(es), b.lo.value)
    ensures Stops(es, b)
  {
    assert es[i] in es;
    if b.lo.Some? {
      BoundsAround(es, b.lo.value);
    }
  }

  ghost predicate NonePast(es: seq<Entry>, start: nat, i: nat, b: Bounds) {
    forall q :: start <= q < i && q < |es| ==> !PastHi(es[q].key, b)
  }

  lemma NonePastYet(es: seq<Entry>, start: nat, b: Bounds)
    ensures NonePast(es, start, start, b)
  {
  }

  lemma NonePastStep(es: seq<Entry>, start: nat, i: nat, b: Bounds)
    requires NonePast(es, start, i, b) && i < |es| && !PastHi(es[i].key, b)
    ensures NonePast(es, start, i + 1, b)
  {
  }

  lemma NeverStops(es: seq<Entry>, start: nat, b: Bounds)
    requires start <= |es| && NonePast(es, start, |es|, b)
    requires if b.lo.Some? then forall q :: 0 <= q < start ==> es[q].key < b.lo.value else start == 0
    ensures !Stops(es, b)
  {
    forall e | e in es ensures !(PastHi(e.key, b) && (b.lo.Some? ==> b.lo.value <= e.key)) {
      var q :| 0 <= q < |es| && es[q] == e;
    }
  }

  lemma FirstEntry(ls: seq<LeafRec>)
    requires ls != [] && ls[0].es != []
    ensures Cat(ls) != [] && Cat(ls)[0] == ls[0].es[0]
  {
  }

  // ----- what insertion and deletion say about the leaves

  lemma InsertLeaves(t: Tree, e: Entry, c: Caps, alloc: nat) returns (j: nat, news: seq<LeafRec>)
    requires Shaped(t)
    ensures j < |Leaves(t)| && Puts(Leaves(t)[j], news, e) && (|news| == 2 ==> news[1].pid == alloc)
    ensures Leaves(Insert(t, e, c, alloc).0) == Splice(Leaves(t), j, 1, news)
  {
    j, news := InsTLeaves(t, e, c, alloc);
    var (res, n) := InsT(t, e, c, alloc);
    if res.Split? {
      KidsLeaves(res);
    }
  }

  lemma NodeDelIs(t: Tree, i: nat, d: Del)
    requires t.Node? && i < |t.kids| == |t.keys| + 1 && ShapedAll(t.kids) && Shaped(d.t)
    ensures !d.removed || !d.under ==>
              NodeDel(t.pid, t.keys, t.kids, i, d).t == Node(t.pid, t.keys, Splice(t.kids, i, 1, [d.t]))
  {
  }

  lemma ChainMended(pages: Pages, pages1: Pages, pages2: Pages, t: Tree, i: nat, d: Del, c: Caps, node: PageNode)
    requires t.Node? && Sep(t) && i < |t.kids| == |t.keys| + 1 && ShapedAll(t.kids) && Shaped(d.t) && d.removed
             && d.under
    requires ChainSafe(pages, pages1, t.kids[i], d.t)
    requires var kids' := Splice(t.kids, i, 1, [d.t]);
             && RowOn(pages1, t.pid, View(t), Row(t.keys, kids')) && Mendable(Row(t.keys, kids'), i, c)
             && Rebalance(t.keys, kids', i).Some?
             && Became(pages1, pages2, t.pid, kids', node, Rebalance(t.keys, kids', i).value)
    ensures ChainSafe(pages, pages2[t.pid := node], t, NodeDel(t.pid, t.keys, t.kids, i, d).t)
  {
    var kids' := Splice(t.kids, i, 1, [d.t]);
    var row := Rebalance(t.keys, kids', i).value;
    assert pages2[t.pid := node] == pages2;
    hide Rebalance, ChainSafe, Mendable, Sep, ShapedAll;
    ChainRebalanced(pages, pages1, pages2, t, i, d.t, node, row, c);
  }

  /** The collapse of the root gives up no leaf page. */
  lemma RootSafe(pages: Pages, pages': Pages, t: Tree, t': Tree)
    requires ChainSafe(pages, pages', t, t') && Rep(pages', t')
    ensures ChainSafe(pages, pages', t, RootOf(t'))
  {
    if t'.Node? && |t'.kids| == 1 {
      assert t'.kids == [t'.kids[0]];
      OneKidSep(t'.kids[0]);
      assert Foot(t') == {t'.pid} + Foot(t'.kids[0]);
      assert pages'[t'.pid] == View(t');
    }
  }
}
