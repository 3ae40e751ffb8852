/** Sound indexes with whole leaf chains on which a deletion goes wrong: one takes the internal borrow
    that `BTreeDeleteExact.DeleteExact` excludes, one gives up a leaf in the middle of the chain. */
module BTreeWitness {
  import opened Common
  import opened BTree
  import opened BTreeInsert
  import opened BTreeDelete
  import opened BTreeDeleteProof
  import opened BTreeDeleteExact
  import opened BTreeChain
  import opened BTreeRep
  import opened BTreeWalk
  import opened BTreeOrphan
  import opened BTreeTrail
  import opened BTreePages

  /** Leaf j of `end` holds the keys 63j .. 63j+62. */
  function RecNo(j: nat, end: nat): LeafRec {
    LeafRec(10 + j, seq(MIN_LEAF, i => Entry(MIN_LEAF * j + i, Rid(0, 0))), if j + 1 == end then None else Some(11 + j))
  }

  function LeafNo(j: nat, end: nat): Tree {
    Leaf(RecNo(j, end))
  }

  function Run(j: nat, n: nat, end: nat): (kids: seq<Tree>)
    ensures |kids| == n && forall i :: 0 <= i < n ==> kids[i] == LeafNo(j + i, end)
    decreases n
  {
    if n == 0 then [] else [LeafNo(j, end)] + Run(j + 1, n - 1, end)
  }

  function RunKeys(j: nat, n: nat): (ks: seq<int>)
    ensures |ks| == if n == 0 then 0 else n - 1
    decreases n
  {
    if n <= 1 then [] else [MIN_LEAF * (j + 1)] + RunKeys(j + 1, n - 1)
  }

  lemma LeafNoOk(j: nat, end: nat, c: Caps, lo: Bound, hi: Bound)
    requires Roomy(c) && Leq(lo, Some(MIN_LEAF * j)) && Leq(Some(MIN_LEAF * (j + 1)), hi)
    ensures WF(LeafNo(j, end), 0, lo, hi) && Occ(LeafNo(j, end), false, c) && Shaped(LeafNo(j, end))
  {
  }

  lemma {:induction false} RunOk(j: nat, n: nat, end: nat, c: Caps, lo: Bound, hi: Bound)
    requires Roomy(c) && n >= 1 && Leq(lo, Some(MIN_LEAF * j)) && Leq(Some(MIN_LEAF * (j + n)), hi)
    ensures WFs(RunKeys(j, n), Run(j, n, end), 0, lo, hi) && ShapedAll(Run(j, n, end))
    ensures forall k | k in Run(j, n, end) :: Occ(k, false, c)
    decreases n
  {
    if n == 1 {
      LeafNoOk(j, end, c, lo, hi);
      assert Run(j, 1, end) == [LeafNo(j, end)];
    } else {
      LeafNoOk(j, end, c, lo, Some(MIN_LEAF * (j + 1)));
      RunOk(j + 1, n - 1, end, c, Some(MIN_LEAF * (j + 1)), hi);
      assert Run(j, n, end)[1..] == Run(j + 1, n - 1, end) && RunKeys(j, n)[1..] == RunKeys(j + 1, n - 1);
    }
  }

  function Stretch(pid: nat, j: nat, n: nat, end: nat): Tree {
    Node(pid, RunKeys(j, n), Run(j, n, end))
  }

  /** A root over m and n minimal leaves. */
  function Root(m: nat, n: nat): Tree {
    Node(3, [MIN_LEAF * m], [Stretch(1, 0, m, m + n), Stretch(2, m, n, m + n)])
  }

  lemma RootIsSound(m: nat, n: nat, c: Caps)
    requires Roomy(c) && MIN_KIDS <= m < 2 * MIN_KIDS && MIN_KIDS <= n < 2 * MIN_KIDS
    ensures WF(Root(m, n), 2, None, None) && Shaped(Root(m, n)) && Occ(Root(m, n), true, c)
  {
    var s := MIN_LEAF * m;
    var a, b := Stretch(1, 0, m, m + n), Stretch(2, m, n, m + n);
    RunOk(0, m, m + n, c, None, Some(s));
    RunOk(m, n, m + n, c, Some(s), None);
    hide WFs, ShapedAll, Run, RunKeys;
    TwoWF(a, s, b, 1, None, None);
    TwoShaped(a, b);
  }

  lemma LeafLosesOne(j: nat, end: nat)
    ensures var d := DelT(LeafNo(j, end), Entry(MIN_LEAF * j, Rid(0, 0)));
            d.removed && d.under && d.t.Leaf? && |d.t.l.es| == MIN_LEAF - 1
  {
    assert LeafNo(j, end).l.es[0] == Entry(MIN_LEAF * j, Rid(0, 0));
  }

  /** Deleting from the first leaf of a minimal internal node merges two leaves and leaves it underfull. */
  lemma StretchUnderflows(j: nat, n: nat, end: nat)
    requires n == MIN_KIDS && Shaped(Stretch(2, j, n, end))
    ensures var d := DelT(Stretch(2, j, n, end), Entry(MIN_LEAF * j, Rid(0, 0))); d.removed && d.under
  {
    var t, e := Stretch(2, j, n, end), Entry(MIN_LEAF * j, Rid(0, 0));
    var keys, kids := t.keys, t.kids;
    assert keys[0] == MIN_LEAF * (j + 1) && kids[0] == LeafNo(j, end) && kids[1] == LeafNo(j + 1, end);
    assert UpperBound(keys, e.key) == 0;
    LeafLosesOne(j, end);
    var d := DelT(kids[0], e);
    var kids' := Splice(kids, 0, 1, [d.t]);
    assert kids'[1] == kids[1] && |kids'| == n;
    hide Run, RunKeys;
    ShapedSplice0(kids, d.t);
    assert Rebalance(keys, kids', 0)
           == Some(Row(Splice(keys, 0, 1, []), Splice(kids', 0, 2, [Merged(kids'[0], keys[0], kids'[1])])));
  }

  lemma ShapedSplice0(kids: seq<Tree>, k: Tree)
    requires ShapedAll(kids) && kids != [] && Shaped(k)
    ensures ShapedAll(Splice(kids, 0, 1, [k]))
  {
    TwoShaped(k, k);
    ShapedSplice(kids, 0, 1, [k]);
  }

  /** A sound index whose deletion of a present entry takes the internal borrow and so loses a key. */
  lemma BorrowHappens(m: nat, n: nat, c: Caps)
    requires Roomy(c) && m == MIN_KIDS + 1 && n == MIN_KIDS
    ensures var t, e := Root(m, n), Entry(MIN_LEAF * m, Rid(0, 0));
            && WF(t, 2, None, None) && Shaped(t) && Occ(t, true, c) && Chained(Leaves(t)) && BorrowsInternally(t, e)
            && exists k :: k != e.key && Find(Delete(t, e), k) != Find(t, k)
  {
    var t, e := Root(m, n), Entry(MIN_LEAF * m, Rid(0, 0));
    RootIsSound(m, n, c);
    RootChained(m, n);
    ShapedAt(t.kids, 1);
    assert UpperBound(t.keys, e.key) == 1 by { assert t.keys[0] == e.key; }
    StretchUnderflows(m, n, m + n);
    hide DelT, Run, RunKeys, Shaped, Leaves, Chained;
    assert BorrowsHere(t.kids, 1, DelT(t.kids[1], e));
    DeleteExact(t, e, c, 2);
  }

  // ----- the chain

  function Recs(j: nat, n: nat, end: nat): (ls: seq<LeafRec>)
    ensures |ls| == n && forall i :: 0 <= i < n ==> ls[i] == RecNo(j + i, end)
  {
    seq(n, i requires 0 <= i < n => RecNo(j + i, end))
  }

  lemma {:induction false} RunLeaves(j: nat, n: nat, end: nat)
    ensures LeavesAll(Run(j, n, end)) == Recs(j, n, end)
    decreases n
  {
    if n > 0 {
      RunLeaves(j + 1, n - 1, end);
      var kids := Run(j, n, end);
      assert kids == [LeafNo(j, end)] + Run(j + 1, n - 1, end);
      assert kids[0] == LeafNo(j, end) && kids[1..] == Run(j + 1, n - 1, end);
      assert Leaves(kids[0]) == [RecNo(j, end)];
      assert Recs(j, n, end) == [RecNo(j, end)] + Recs(j + 1, n - 1, end);
    }
  }

  lemma RecsChained(n: nat)
    requires n > 0
    ensures Chained(Recs(0, n, n)) && DistinctPids(Recs(0, n, n))
  {
    var ls := Recs(0, n, n);
    forall i | 0 <= i < n ensures ls[i].next == NextOf(ls, i) {
      assert i + 1 < n ==> ls[i + 1] == RecNo(i + 1, n);
    }
  }

  lemma RootChained(m: nat, n: nat)
    requires m > 0 && n > 0
    ensures Chained(Leaves(Root(m, n)))
  {
    var a, b := Stretch(1, 0, m, m + n), Stretch(2, m, n, m + n);
    hide Run, RunKeys, Leaves, LeavesAll, Recs, Chained;
    NodeLeaves(a);
    NodeLeaves(b);
    NodeLeaves(Root(m, n));
    RunLeaves(0, m, m + n);
    RunLeaves(m, n, m + n);
    TwoLeaves(a, b);
    RecsAppend(m, n);
    RecsChained(m + n);
  }

  lemma NodeLeaves(t: Tree)
    requires t.Node?
    ensures Leaves(t) == LeavesAll(t.kids)
  {
  }

  lemma RecsAppend(m: nat, n: nat)
    ensures Recs(0, m, m + n) + Recs(m, n, m + n) == Recs(0, m + n, m + n)
  {
    hide RecNo;
  }

  /** Three minimal leaves under a root: deleting the first key of the middle one merges it away. */
  lemma MiddleLeafAbandoned(c: Caps)
    requires Roomy(c)
    ensures var t, e := Stretch(3, 0, 3, 3), Entry(MIN_LEAF, Rid(0, 0));
            && WF(t, 1, None, None) && Shaped(t) && Occ(t, true, c) && Chained(Leaves(t)) && DistinctPids(Leaves(t))
            && AbandonedLeaf(t, e) == Some(1) && !Chained(Leaves(DelT(t, e).t)) && !BorrowsInternally(t, e)
  {
    var t, e := Stretch(3, 0, 3, 3), Entry(MIN_LEAF, Rid(0, 0));
    assert Leaves(t) == LeavesAll(t.kids);
    RunOk(0, 3, 3, c, None, None);
    RunLeaves(0, 3, 3);
    RecsChained(3);
    ThirdMerges();
    hide Run, RunKeys, AbandonedLeaf, Leaves, Chained, DistinctPids, DelT;
    DeleteChainExact(t, e, 1);
  }

  lemma ThirdMerges()
    requires Shaped(Stretch(3, 0, 3, 3))
    ensures var t, e := Stretch(3, 0, 3, 3), Entry(MIN_LEAF, Rid(0, 0));
            AbandonedLeaf(t, e) == Some(1)
            && !BorrowsInternally(t, e)
  {
    var t, e := Stretch(3, 0, 3, 3), Entry(MIN_LEAF, Rid(0, 0));
    var kids := t.kids;
    assert RunKeys(0, 3) == [MIN_LEAF, 2 * MIN_LEAF] by {
      assert RunKeys(0, 3) == [MIN_LEAF] + RunKeys(1, 2) && RunKeys(1, 2) == [2 * MIN_LEAF] + RunKeys(2, 1);
    }
    assert kids[0] == LeafNo(0, 3) && kids[1] == LeafNo(1, 3) && kids[2] == LeafNo(2, 3);
    hide Run, RunKeys;
    assert UpperBound(t.keys, e.key) == 1;
    LeafLosesOne(1, 3);
    assert MergeIndex(kids, 1) == Some(1);
    assert kids[..1] == [LeafNo(0, 3)];
    OneKid(LeafNo(0, 3));
    assert Leaves(LeafNo(0, 3)) == [RecNo(0, 3)];
    hide DelT, LeavesAll, Leaves, RecNo;
  }

  // ----- a row that a scan misses

  /** The tree after the deletion, and after another row takes the deleted key. */
  function Mended(): Tree {
    Node(3, [MIN_LEAF], [LeafNo(0, 3), Leaf(RecNo(2, 3).(es := RecNo(1, 3).es[1..] + RecNo(2, 3).es))])
  }

  lemma AfterDelete()
    requires Shaped(Stretch(3, 0, 3, 3))
    ensures BTreeDelete.Delete(Stretch(3, 0, 3, 3), Entry(MIN_LEAF, Rid(0, 0))) == Mended()
  {
    var t, e := Stretch(3, 0, 3, 3), Entry(MIN_LEAF, Rid(0, 0));
    assert RunKeys(0, 3) == [MIN_LEAF, 2 * MIN_LEAF] by {
      assert RunKeys(0, 3) == [MIN_LEAF] + RunKeys(1, 2) && RunKeys(1, 2) == [2 * MIN_LEAF] + RunKeys(2, 1);
    }
    assert t.kids == [LeafNo(0, 3), LeafNo(1, 3), LeafNo(2, 3)];
    hide Run, RunKeys;
    assert UpperBound(t.keys, e.key) == 1;
    FirstLeaves(1, 3);
    var d := DelT(t.kids[1], e);
    var kids' := Splice(t.kids, 1, 1, [d.t]);
    assert kids' == [LeafNo(0, 3), d.t, LeafNo(2, 3)];
    var m := Merged(d.t, 2 * MIN_LEAF, LeafNo(2, 3));
    ShapedSplice1(t.kids, 1, d.t);
    assert Splice(t.keys, 1, 1, []) == [MIN_LEAF] && Splice(kids', 1, 2, [m]) == [LeafNo(0, 3), m];
    assert Rebalance(t.keys, kids', 1) == Some(Row([MIN_LEAF], [LeafNo(0, 3), m]));
  }

  lemma ShapedSplice1(kids: seq<Tree>, i: nat, k: Tree)
    requires ShapedAll(kids) && i < |kids| && Shaped(k)
    ensures ShapedAll(Splice(kids, i, 1, [k]))
  {
    TwoShaped(k, k);
    ShapedSplice(kids, i, 1, [k]);
  }

  lemma FirstLeaves(j: nat, end: nat)
    ensures DelT(LeafNo(j, end), Entry(MIN_LEAF * j, Rid(0, 0)))
            == Del(Leaf(RecNo(j, end).(es := RecNo(j, end).es[1..])), true, true)
  {
    var l := RecNo(j, end);
    assert l.es[0] == Entry(MIN_LEAF * j, Rid(0, 0));
    assert Splice(l.es, 0, 1, []) == l.es[1..];
  }

  lemma MendedLeaves()
    ensures Leaves(Mended()) == [RecNo(0, 3), Mended().kids[1].l]
  {
    var t := Mended();
    NodeLeaves(t);
    TwoLeaves(t.kids[0], t.kids[1]);
    assert Leaves(t.kids[0]) == [RecNo(0, 3)] && Leaves(t.kids[1]) == [t.kids[1].l];
    assert t.kids == [t.kids[0], t.kids[1]];
  }

  lemma KeyIsGone()
    ensures MIN_LEAF !in Content(Entries(Mended()))
  {
    var a, b := RecNo(0, 3), Mended().kids[1].l;
    MendedLeaves();
    CatTwo(a, b);
    hide Content;
    forall e | e in a.es + b.es ensures e.key != MIN_LEAF {}
    NoSuchKey(Entries(Mended()), MIN_LEAF);
  }

  lemma CatTwo(a: LeafRec, b: LeafRec)
    ensures Cat([a, b]) == a.es + b.es
  {
    assert [a, b][1..] == [b];
    assert [b][1..] == [] && Cat([]) == [];
    assert Cat([b]) == b.es + Cat([b][1..]);
  }

  lemma NoSuchKey(es: seq<Entry>, k: int)
    requires forall e | e in es :: e.key != k
    ensures k !in Content(es)
  {
  }

  /** The page that was given up: still between the leaves, and its first key is one more than the deleted. */
  lemma OrphanIs(pages: Pages, trail: seq<nat>, path: seq<LeafRec>) returns (o: LeafRec)
    requires Detours(pages, Leaves(Mended()), 1) && LinkedOn(pages, path) && path[0] == Leaves(Mended())[0]
    requires forall i :: 0 <= i < |path| ==> path[i].pid in trail
    ensures OnPage(pages, o) && o.pid == 11 && o.pid in trail && o.es != [] && o.es[0].key == MIN_LEAF + 1
  {
    MendedLeaves();
    var ls := Leaves(Mended());
    o :| DetoursBy(pages, ls, 1, o);
    var all := Detour(ls, 1, o);
    assert all == [ls[0], o, ls[1]];
    assert all[0].next == NextOf(all, 0) && OnPage(pages, all[1]);
    assert o.es[0] == ls[1].es[0];
    hide OnPage, LinkedOn;
    OnePath(pages, path, all);
    assert path[1].pid in trail;
  }

  /** The new row goes into the second leaf. */
  lemma FirstLeafStays(r: Rid, c: Caps, n: nat)
    requires Shaped(Mended()) && Roomy(c)
    ensures var ls := Leaves(BTreeInsert.Insert(Mended(), Entry(MIN_LEAF, r), c, n).0); ls != [] && ls[0] == RecNo(0, 3)
  {
    var t, e := Mended(), Entry(MIN_LEAF, r);
    assert UpperBound(t.keys, e.key) == 1;
    var (res, m) := InsT(t.kids[1], e, c, n);
    hide RecNo;
    var t' := BTreeInsert.Insert(t, e, c, n).0;
    assert t'.Node? && t'.kids != [] && t'.kids[0] == LeafNo(0, 3);
    NodeLeaves(t');
    assert LeavesAll(t'.kids) == Leaves(t'.kids[0]) + LeavesAll(t'.kids[1..]);
  }

  lemma {:induction false} RangeRids(es: seq<Entry>, p: nat, b: Bounds, r: Rid)
    requires p <= |es| && forall e | e in es :: e.rid != r
    ensures r !in RangeTo(es, p, b)
  {
    if p > 0 {
      RangeRids(es, p - 1, b, r);
      assert es[p - 1] in es;
    }
  }

  lemma OwnerOfZero(ls: seq<LeafRec>, j: nat, l: LeafRec)
    requires OwnsAt(ls, j, l, 0) && ls != [] && ls[0] == RecNo(0, 3)
    ensures j == 0
  {
    assert ls[0].es[0].key == 0;
    FirstEntry(if j > 0 then ls[..j] else ls);
  }

  /** From the first leaf the walk goes to the page that was given up, and ends there. */
  lemma StopsShort(pages: Pages, ls: seq<LeafRec>, path: seq<LeafRec>, o: LeafRec, j: nat, r: Rid)
    requires LinkedOn(pages, path) && OwnsAt(ls, j, path[0], 0) && ls != [] && ls[0] == RecNo(0, 3) && r != Rid(0, 0)
    requires OnPage(pages, o) && o.pid == 11 && o.es != [] && o.es[0].key == MIN_LEAF + 1
    ensures r !in WalkOf(path, Bounds(Some(0), true, Some(MIN_LEAF), true))
  {
    assert path != [] && path[0] == ls[j];
    hide *;
    var b := Bounds(Some(0), true, Some(MIN_LEAF), true);
    OwnerOfZero(ls, j, path[0]);
    AfterFirst(pages, path, o);
    EndsOn(pages, o, b);
    OldRows(r, b);
    WalkStep([], path, b);
    WalkStep([], path[1..], b);
  }

  lemma AfterFirst(pages: Pages, path: seq<LeafRec>, o: LeafRec)
    requires LinkedOn(pages, path) && path[0] == RecNo(0, 3) && OnPage(pages, o) && o.pid == 11
    ensures |path| > 1 && path[1] == o
  {
    HeadLink(pages, path);
    hide LinkedOn, OnPage;
    SamePage(pages, path[1], o);
  }

  lemma EndsOn(pages: Pages, o: LeafRec, b: Bounds)
    requires OnPage(pages, o) && o.es != [] && o.es[0].key == MIN_LEAF + 1
             && b == Bounds(Some(0), true, Some(MIN_LEAF), true)
    ensures Stops(o.es, b) && RangeOf(o.es, b) == []
  {
    PageSorted(pages, o);
    assert o.es[0] in o.es;
    RangeNone(o.es, b);
  }

  lemma OldRows(r: Rid, b: Bounds)
    requires r != Rid(0, 0)
    ensures r !in RangeOf(RecNo(0, 3).es, b)
  {
    RangeRids(RecNo(0, 3).es, MIN_LEAF, b, r);
  }

  lemma PageSorted(pages: Pages, l: LeafRec)
    requires OnPage(pages, l)
    ensures Increasing(l.es)
  {
  }

  /** Deleting a key and giving it to another row: a scan from below up to that key misses the row, because
      the abandoned page that it reads on its way begins with a larger key. */
  method MissesARow(index: BTreeIndex, r: Rid) returns (out: seq<Rid>)
    requires index.Valid() && index.tree == Stretch(3, 0, 3, 3) && r != Rid(0, 0)
    modifies index
    ensures index.Valid() && MIN_LEAF in index.Map() && index.Map()[MIN_LEAF] == r && r !in out
  {
    MiddleLeafAbandoned(index.caps);
    AfterDelete();
    hide Stretch, Content, Entries, Leaves, WF, Occ, Sep, Foot, Rep, Threads, Mended, RecNo, BTreeInsert.Insert,
        WalkOf, OwnsAt, LinkedOn, OnPage;
    index.Delete(MIN_LEAF, Rid(0, 0));
    assert index.tree == Mended();
    MendedLeaves();
    ghost var start := index.PathFromLeaf(0);
    ghost var o := OrphanIs(index.pages, index.trail, start);
    ghost var pages1 := index.pages;
    KeyIsGone();
    NotOwn();
    FirstLeafStays(r, index.caps, index.numPages);
    index.Insert(MIN_LEAF, r);
    ghost var path;
    out, path := index.Range(0, MIN_LEAF, true);
    SamePageStays(pages1, index.pages, o);
    ghost var j: nat :| j < |Leaves(index.tree)| && OwnsAt(Leaves(index.tree), j, path[0], 0);
    StopsShort(index.pages, Leaves(index.tree), path, o, j, r);
  }

  lemma NotOwn()
    ensures 11 !in Own(Leaves(Mended()))
  {
    MendedLeaves();
    assert PidsOf(Leaves(Mended())) == [10, 12];
  }

  lemma SamePageStays(pages: Pages, pages': Pages, o: LeafRec)
    requires OnPage(pages, o) && o.pid in pages && o.pid in pages' && pages'[o.pid] == pages[o.pid]
    ensures OnPage(pages', o)
  {
  }
}
