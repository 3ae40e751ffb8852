/** Insertion with cascading leaf, internal and root splits. */
module BTreeInsert {
  import opened Common
  import opened BTree

  /** How many entries fit a leaf page and how many separators an internal page. */
  datatype Caps = Caps(leaf: nat, inner: nat)

  const MIN_LEAF: nat := 63      // MIN_LEAF_ENTRIES
  const MIN_KIDS: nat := 64      // MIN_INTERNAL_CHILDREN

  /** Pages large enough for the merged nodes of a deletion; `NodeCodec` shows which key widths give that. */
  predicate Roomy(c: Caps) {
    c.leaf >= 2 * MIN_LEAF - 1 && c.inner >= 2 * MIN_KIDS - 2
  }

  /** That is exactly room for every node one short of its minimum merged with one at most at it. */
  lemma RoomyExact(c: Caps)
    ensures Roomy(c) <==>
              && (forall a: nat, b: nat | a < MIN_LEAF && b <= MIN_LEAF :: Together(a, b) <= c.leaf)
              && (forall a: nat, b: nat | a < MIN_KIDS && b <= MIN_KIDS :: Together(a, b) - 1 <= c.inner)
  {
    assert Together(MIN_LEAF - 1, MIN_LEAF) == 2 * MIN_LEAF - 1;
    assert Together(MIN_KIDS - 1, MIN_KIDS) == 2 * MIN_KIDS - 1;
  }

  function Together(a: nat, b: nat): nat { a + b }

  /** Every node fits its page, and every node but the root is at least half full. */
  ghost predicate Occ(t: Tree, root: bool, c: Caps) {
    match t
    case Leaf(l) => |l.es| <= c.leaf && (root || |l.es| >= MIN_LEAF)
    case Node(_, keys, kids) =>
      && |keys| <= c.inner && |kids| == |keys| + 1
      && |kids| >= (if root then 2 else MIN_KIDS)
      && forall k | k in kids :: Occ(k, false, c)
  }

  datatype Ins = Done(t: Tree) | Split(t: Tree, key: int, right: Tree)

  function LeafPut(l: LeafRec, e: Entry): seq<Entry> {
    BTree.Splice(l.es, UpperBound(Keys(l.es), e.key), 0, [e])
  }

  /** `_insert_into` with `split_leaf` and `split_internal`; fresh pages are numbered from `alloc`. */
  function InsT(t: Tree, e: Entry, c: Caps, alloc: nat): (r: (Ins, nat))
    requires Shaped(t)
    decreases t
  {
    match t
    case Leaf(l) =>
      var es := LeafPut(l, e);
      if |es| <= c.leaf then (Done(Leaf(l.(es := es))), alloc)
      else
        var mid := |es| / 2;
        (Split(Leaf(LeafRec(l.pid, es[..mid], Some(alloc))), es[mid].key, Leaf(LeafRec(alloc, es[mid..], l.next))),
         alloc + 1)
    case Node(pid, keys, kids) =>
      var i := UpperBound(keys, e.key);
      ShapedAt(kids, i);
      var (res, n) := InsT(kids[i], e, c, alloc);
      NodePut(pid, keys, kids, i, res, c, n)
  }

  /** The node after its child i became `res`. */
  function NodePut(pid: nat, keys: seq<int>, kids: seq<Tree>, i: nat, res: Ins, c: Caps, n: nat): (Ins, nat)
    requires i < |kids| == |keys| + 1
  {
    match res
    case Done(k) => (Done(Node(pid, keys, Splice(kids, i, 1, [k]))), n)
    case Split(k, s, r) => Overflow(pid, Splice(keys, i, 0, [s]), Splice(kids, i, 1, [k, r]), c, n)
  }

  /** Keep the internal node if it fits, else push its middle key up. */
  function Overflow(pid: nat, keys: seq<int>, kids: seq<Tree>, c: Caps, alloc: nat): (Ins, nat)
    requires |kids| == |keys| + 1 && |keys| > 0
  {
    if |keys| <= c.inner then (Done(Node(pid, keys, kids)), alloc)
    else
      var mid := |keys| / 2;
      (Split(Node(pid, keys[..mid], kids[..mid + 1]), keys[mid], Node(alloc, keys[mid + 1..], kids[mid + 1..])),
       alloc + 1)
  }

  function Insert(t: Tree, e: Entry, c: Caps, alloc: nat): (Tree, nat)
    requires Shaped(t)
  {
    match InsT(t, e, c, alloc)
    case (Done(t'), n) => (t', n)
    case (Split(l, s, r), n) => (Node(n, [s], [l, r]), n + 1)
  }

  // ----- order and height

  ghost predicate InsWF(res: Ins, h: nat, lo: Bound, hi: Bound) {
    match res
    case Done(t) => WF(t, h, lo, hi)
    case Split(t, s, r) => WF(t, h, lo, Some(s)) && WF(r, h, Some(s), hi)
  }

  ghost predicate InsOcc(res: Ins, root: bool, c: Caps) {
    match res
    case Done(t) => Occ(t, root, c)
    case Split(t, _, r) => Occ(t, false, c) && Occ(r, false, c)
  }

  lemma LeafPutSorted(l: LeafRec, e: Entry, lo: Bound, hi: Bound)
    requires Increasing(l.es) && Between(l.es, lo, hi) && Above(lo, e.key) && Below(e.key, hi)
    requires forall x <- l.es :: x.key != e.key
    ensures Increasing(LeafPut(l, e)) && Between(LeafPut(l, e), lo, hi)
  {
    var i := UpperBound(Keys(l.es), e.key);
    var a, b := l.es[..i], l.es[i..];
    AroundUpperBound(l.es, e.key);
    SpliceIs(l.es, i, e);
    assert LeafPut(l, e) == a + ([e] + b);
    assert Between(b, Some(e.key + 1), hi) && Between([e], Some(e.key), Some(e.key + 1)) && Between(a, lo, Some(e.key));
    assert Increasing([e]);
    hide LeafPut, Increasing, Between, UpperBound, Splice;
    JoinSorted([e], b, Some(e.key), e.key + 1, hi);
    JoinSorted(a, [e] + b, lo, e.key, hi);
  }

  lemma SpliceIs<T>(s: seq<T>, i: nat, x: T)
    requires i <= |s|
    ensures Splice(s, i, 0, [x]) == s[..i] + ([x] + s[i..])
  {
  }

  lemma AroundUpperBound(es: seq<Entry>, k: int)
    requires Increasing(es) && forall x <- es :: x.key != k
    ensures var i := UpperBound(Keys(es), k);
            && Increasing(es[..i]) && Increasing(es[i..])
            && (forall x <- es[..i] :: x in es && x.key < k)
            && (forall x <- es[i..] :: x in es && x.key > k)
  {
    var i := UpperBound(Keys(es), k);
    forall x | x in es[..i] ensures x in es && x.key < k {
      var j :| 0 <= j < i && es[j] == x;
      assert Keys(es)[j] <= k;
    }
    forall x | x in es[i..] ensures x in es && x.key > k {
      var j :| i <= j < |es| && es[j] == x;
      assert Keys(es)[i] > k;
    }
  }

  lemma Halves(es: seq<Entry>, mid: nat, lo: Bound, hi: Bound)
    requires Increasing(es) && Between(es, lo, hi) && mid < |es|
    ensures Increasing(es[..mid]) && Between(es[..mid], lo, Some(es[mid].key))
    ensures Increasing(es[mid..]) && Between(es[mid..], Some(es[mid].key), hi)
    ensures Leq(lo, Some(es[mid].key)) && Leq(Some(es[mid].key), hi)
  {
    assert es[mid] in es;
    forall x | x in es[..mid] ensures x in es && x.key < es[mid].key {
      var j :| 0 <= j < mid && es[j] == x;
    }
    forall x | x in es[mid..] ensures x in es && x.key >= es[mid].key {
      var j :| mid <= j < |es| && es[j] == x;
    }
  }

  lemma InsLeafWF(l: LeafRec, e: Entry, c: Caps, alloc: nat, root: bool, lo: Bound, hi: Bound)
    requires WF(Leaf(l), 0, lo, hi) && Above(lo, e.key) && Below(e.key, hi)
    requires forall x <- l.es :: x.key != e.key
    requires Roomy(c) && Occ(Leaf(l), root, c)
    ensures InsWF(InsT(Leaf(l), e, c, alloc).0, 0, lo, hi)
    ensures InsOcc(InsT(Leaf(l), e, c, alloc).0, root, c)
  {
    LeafPutSorted(l, e, lo, hi);
    assert |LeafPut(l, e)| == |l.es| + 1;
    LeafSized(l, root, c);
    InsLeafIs(l, e, c, alloc);
    hide InsT, Increasing, Between, LeafPut, WF, Occ;
    var es := LeafPut(l, e);
    if |es| > c.leaf {
      Halves(es, |es| / 2, lo, hi);
      LeafIsOk(LeafRec(l.pid, es[..|es| / 2], Some(alloc)), lo, Some(es[|es| / 2].key), false, c);
      LeafIsOk(LeafRec(alloc, es[|es| / 2..], l.next), Some(es[|es| / 2].key), hi, false, c);
    } else {
      LeafIsOk(l.(es := es), lo, hi, root, c);
    }
  }

  lemma InsLeafIs(l: LeafRec, e: Entry, c: Caps, alloc: nat)
    ensures var es := LeafPut(l, e);
            InsT(Leaf(l), e, c, alloc).0 ==
              if |es| <= c.leaf || es == [] then Done(Leaf(l.(es := es)))
              else var mid := |es| / 2;
                   Split(Leaf(LeafRec(l.pid, es[..mid], Some(alloc))), es[mid].key,
                         Leaf(LeafRec(alloc, es[mid..], l.next)))
  {
    hide LeafPut;
  }

  lemma LeafSized(l: LeafRec, root: bool, c: Caps)
    requires Occ(Leaf(l), root, c)
    ensures |l.es| <= c.leaf && (root || |l.es| >= MIN_LEAF)
  {
  }

  lemma LeafIsOk(l: LeafRec, lo: Bound, hi: Bound, root: bool, c: Caps)
    requires Increasing(l.es) && Between(l.es, lo, hi) && Leq(lo, hi) && |l.es| <= c.leaf
             && (root || |l.es| >= MIN_LEAF)
    ensures WF(Leaf(l), 0, lo, hi) && Occ(Leaf(l), root, c)
  {
    hide Increasing, Between;
  }

  lemma {:induction false} InsTWF(t: Tree, e: Entry, c: Caps, alloc: nat, root: bool, h: nat, lo: Bound, hi: Bound)
    requires WF(t, h, lo, hi) && Above(lo, e.key) && Below(e.key, hi) && Shaped(t)
    requires Roomy(c) && Occ(t, root, c)
    requires Lookup(Entries(t), e.key) == []
    ensures InsWF(InsT(t, e, c, alloc).0, h, lo, hi)
    ensures InsOcc(InsT(t, e, c, alloc).0, root, c)
    decreases t
  {
    match t
    case Leaf(l) =>
      OneLeaf(l);
      AbsentKeys(l.es, e.key);
      InsLeafWF(l, e, c, alloc, root, lo, hi);
    case Node(pid, keys, kids) =>
      var i := UpperBound(keys, e.key);
      ShapedAt(kids, i);
      OnlyInChild(keys, kids, h - 1, lo, hi, e.key);
      WFsAt(keys, kids, h - 1, lo, hi, i);
      assert kids[i] in kids;
      InsTWF(kids[i], e, c, alloc, false, h - 1, Lo(keys, i, lo), Hi(keys, i, hi));
      var (res, n) := InsT(kids[i], e, c, alloc);
      InsNodeWF(t, i, res, c, n, root, h, lo, hi);
  }

  lemma OneLeaf(l: LeafRec)
    ensures Entries(Leaf(l)) == l.es
  {
    assert Cat([l]) == l.es + Cat([l][1..]);
  }

  lemma {:induction false} AbsentKeys(es: seq<Entry>, k: int)
    requires Lookup(es, k) == []
    ensures forall x <- es :: x.key != k
  {
    if es != [] {
      AbsentKeys(es[1..], k);
    }
  }

  lemma InsNodeWF(t: Tree, i: nat, res: Ins, c: Caps, n: nat, root: bool, h: nat, lo: Bound, hi: Bound)
    requires t.Node? && WF(t, h, lo, hi) && i < |t.kids| && |t.kids| == |t.keys| + 1
    requires Roomy(c) && Occ(t, root, c)
    requires InsWF(res, h - 1, Lo(t.keys, i, lo), Hi(t.keys, i, hi)) && InsOcc(res, false, c)
    ensures InsWF(NodePut(t.pid, t.keys, t.kids, i, res, c, n).0, h, lo, hi)
    ensures InsOcc(NodePut(t.pid, t.keys, t.kids, i, res, c, n).0, root, c)
  {
    var keys, kids := t.keys, t.kids;
    var l, u := Lo(keys, i, lo), Hi(keys, i, hi);
    match res
    case Done(k) =>
      assert WFs([], [k], h - 1, l, u);
      WFsSplice(keys, kids, h - 1, lo, hi, i, 1, [], [k]);
      assert Splice(keys, i, 0, []) == keys;
      OccSplice(kids, i, 1, [k], c);
    case Split(k, s, r) =>
      assert WFs([s], [k, r], h - 1, l, u) by {
        assert [s][1..] == [] && [k, r][1..] == [r];
        assert WFs([], [r], h - 1, Some(s), u);
      }
      WFsSplice(keys, kids, h - 1, lo, hi, i, 1, [s], [k, r]);
      OccSplice(kids, i, 1, [k, r], c);
      OverflowWF(t.pid, Splice(keys, i, 0, [s]), Splice(kids, i, 1, [k, r]), c, n, root, h, lo, hi);
  }

  lemma OccSplice(kids: seq<Tree>, i: nat, n: nat, mc: seq<Tree>, c: Caps)
    requires i + n <= |kids|
    requires forall k | k in kids :: Occ(k, false, c)
    requires forall k | k in mc :: Occ(k, false, c)
    ensures forall k | k in Splice(kids, i, n, mc) :: Occ(k, false, c)
  {
    hide Occ;
  }

  lemma OverflowWF(pid: nat, keys: seq<int>, kids: seq<Tree>, c: Caps, n: nat, root: bool, h: nat, lo: Bound, hi: Bound)
    requires h > 0 && WFs(keys, kids, h - 1, lo, hi) && |keys| > 0 && |kids| == |keys| + 1
    requires forall k | k in kids :: Occ(k, false, c)
    requires Roomy(c) && |kids| > (if root then 2 else MIN_KIDS) && |keys| <= c.inner + 1
    ensures InsWF(Overflow(pid, keys, kids, c, n).0, h, lo, hi)
    ensures InsOcc(Overflow(pid, keys, kids, c, n).0, root, c)
  {
    if |keys| > c.inner {
      var mid := |keys| / 2;
      assert keys == keys[..mid] + [keys[mid]] + keys[mid + 1..];
      assert kids == kids[..mid + 1] + kids[mid + 1..];
      WFsJoin(keys[..mid], kids[..mid + 1], keys[mid], keys[mid + 1..], kids[mid + 1..], h - 1, lo, hi);
    }
  }

  // ----- what happens to the leaves: one of them is replaced by one or two

  function LeavesOf(res: Ins): seq<LeafRec> {
    match res
    case Done(t) => Leaves(t)
    case Split(t, _, r) => Leaves(t) + Leaves(r)
  }

  /** `news` stands where leaf `l` stood: same entries plus `e`, same place in the chain. */
  ghost predicate Puts(l: LeafRec, news: seq<LeafRec>, e: Entry) {
    && 1 <= |news| <= 2
    && Cat(news) == LeafPut(l, e)
    && news[0].pid == l.pid && news[|news| - 1].next == l.next
    && (|news| == 2 ==> news[0].next == Some(news[1].pid))
  }

  lemma LeafPuts(l: LeafRec, e: Entry, c: Caps, alloc: nat)
    ensures Puts(l, LeavesOf(InsT(Leaf(l), e, c, alloc).0), e)
  {
    var es := LeafPut(l, e);
    if |es| <= c.leaf {
      OneLeaf(l.(es := es));
    } else {
      var a := LeafRec(l.pid, es[..|es| / 2], Some(alloc));
      var b := LeafRec(alloc, es[|es| / 2..], l.next);
      assert [a] + [b] == [a, b];
      CatAppend([a], [b]);
      OneLeaf(a);
      OneLeaf(b);
      assert es == es[..|es| / 2] + es[|es| / 2..];
    }
  }

  lemma {:induction false} InsTLeaves(t: Tree, e: Entry, c: Caps, alloc: nat) returns (j: nat, news: seq<LeafRec>)
    requires Shaped(t)
    ensures j < |Leaves(t)| && Puts(Leaves(t)[j], news, e) && (|news| == 2 ==> news[1].pid == alloc)
    ensures LeavesOf(InsT(t, e, c, alloc).0) == Splice(Leaves(t), j, 1, news)
    decreases t
  {
    match t
    case Leaf(l) =>
      LeafPuts(l, e, c, alloc);
      j, news := 0, LeavesOf(InsT(t, e, c, alloc).0);
      assert Splice([l], 0, 1, news) == news;
    case Node(pid, keys, kids) =>
      var i := UpperBound(keys, e.key);
      ShapedAt(kids, i);
      j, news := InsTLeaves(kids[i], e, c, alloc);
      var (res, n) := InsT(kids[i], e, c, alloc);
      var before, after := LeavesAll(kids[..i]), LeavesAll(kids[i + 1..]);
      hide Puts, Shaped, Overflow;
      NodePutLeaves(pid, keys, kids, i, res, c, n);
      KidInLeaves(kids, i);
      SpliceMiddle(before, Leaves(kids[i]), after, j, news);
      j := |before| + j;
  }

  lemma NodePutLeaves(pid: nat, keys: seq<int>, kids: seq<Tree>, i: nat, res: Ins, c: Caps, n: nat)
    requires i < |kids| == |keys| + 1
    ensures LeavesOf(NodePut(pid, keys, kids, i, res, c, n).0) == LeavesAll(kids[..i]) + LeavesOf(res)
            + LeavesAll(kids[i + 1..])
  {
    calc {
      LeavesOf(NodePut(pid, keys, kids, i, res, c, n).0);
    ==  { NodePutKids(pid, keys, kids, i, res, c, n); }
      LeavesAll(Splice(kids, i, 1, KidsOf(res)));
    ==  { LeavesSplice(kids, i, 1, KidsOf(res)); }
      LeavesAll(kids[..i]) + LeavesAll(KidsOf(res)) + LeavesAll(kids[i + 1..]);
    ==  { KidsLeaves(res); }
      LeavesAll(kids[..i]) + LeavesOf(res) + LeavesAll(kids[i + 1..]);
    }
  }

  lemma KidInLeaves(kids: seq<Tree>, i: nat)
    requires i < |kids|
    ensures LeavesAll(kids) == LeavesAll(kids[..i]) + Leaves(kids[i]) + LeavesAll(kids[i + 1..])
  {
    calc {
      LeavesAll(kids);
    ==  { LeavesSplice(kids, i, 1, []); }
      LeavesAll(kids[..i]) + LeavesAll(kids[i..i + 1]) + LeavesAll(kids[i + 1..]);
    ==  { assert kids[i..i + 1] == [kids[i]]; OneKid(kids[i]); }
      LeavesAll(kids[..i]) + Leaves(kids[i]) + LeavesAll(kids[i + 1..]);
    }
  }

  function KidsOf(res: Ins): seq<Tree> {
    match res case Done(k) => [k] case Split(k, _, r) => [k, r]
  }

  lemma NodePutKids(pid: nat, keys: seq<int>, kids: seq<Tree>, i: nat, res: Ins, c: Caps, n: nat)
    requires i < |kids| == |keys| + 1
    ensures LeavesOf(NodePut(pid, keys, kids, i, res, c, n).0) == LeavesAll(Splice(kids, i, 1, KidsOf(res)))
  {
    if res.Split? {
      OverflowLeaves(pid, Splice(keys, i, 0, [res.key]), Splice(kids, i, 1, KidsOf(res)), c, n);
    }
  }

  lemma KidsLeaves(res: Ins)
    ensures LeavesAll(KidsOf(res)) == LeavesOf(res)
  {
    match res
    case Done(k) => OneKid(k);
    case Split(k, _, r) =>
      assert [k, r] == [k] + [r];
      LeavesAppend([k], [r]);
      OneKid(k);
      OneKid(r);
  }

  lemma OverflowLeaves(pid: nat, keys: seq<int>, kids: seq<Tree>, c: Caps, n: nat)
    requires |kids| == |keys| + 1 && |keys| > 0
    ensures LeavesOf(Overflow(pid, keys, kids, c, n).0) == LeavesAll(kids)
  {
    if |keys| > c.inner {
      var mid := |keys| / 2;
      assert kids == kids[..mid + 1] + kids[mid + 1..];
      LeavesAppend(kids[..mid + 1], kids[mid + 1..]);
    }
  }

  lemma SpliceMiddle<T>(a: seq<T>, m: seq<T>, b: seq<T>, j: nat, news: seq<T>)
    requires j < |m|
    ensures Splice(a + m + b, |a| + j, 1, news) == a + Splice(m, j, 1, news) + b
    ensures (a + m + b)[|a| + j] == m[j]
  {
  }

  // ----- main results

  /** The finite map a tree stands for. */
  function Content(es: seq<Entry>): (m: map<int, Rid>)
    ensures forall k :: k in m <==> exists e <- es :: e.key == k
  {
    if es == [] then map[] else Content(es[..|es| - 1])[es[|es| - 1].key := es[|es| - 1].rid]
  }

  /** In a list with increasing keys, the map holds exactly the entries. */
  lemma {:induction false} ContentIs(es: seq<Entry>, k: int, r: Rid)
    requires Increasing(es)
    ensures k in Content(es) && Content(es)[k] == r <==> Entry(k, r) in es
    ensures Lookup(es, k) == if k in Content(es) then [Content(es)[k]] else []
  {
    if es != [] {
      var rest, e := es[..|es| - 1], es[|es| - 1];
      assert Content(es) == Content(rest)[e.key := e.rid];
      assert es == rest + [e] && forall x <- rest :: x.key < e.key;
      ContentIs(rest, k, r);
      LastLookup(rest, e, k);
      hide Lookup, Increasing, Content;
    }
  }

  lemma LastLookup(rest: seq<Entry>, e: Entry, k: int)
    ensures Lookup(rest + [e], k) == Lookup(rest, k) + if e.key == k then [e.rid] else []
  {
    LookupAppend(rest, [e], k);
    assert [e][1..] == [];
  }

  lemma SameEntriesSameMap(es: seq<Entry>, m: map<int, Rid>)
    requires Increasing(es)
    requires forall x: Entry :: x in es <==> x.key in m && m[x.key] == x.rid
    ensures Content(es) == m
  {
    forall k | k in m ensures k in Content(es) && Content(es)[k] == m[k] {
      assert Entry(k, m[k]) in es;
      ContentIs(es, k, m[k]);
    }
    forall k | k in Content(es) ensures k in m {
      ContentIs(es, k, Content(es)[k]);
    }
  }

  /** A root that split gets a new root above it. */
  lemma GrowRoot(l: Tree, s: int, r: Tree, n: nat, c: Caps, h: nat)
    requires InsWF(Split(l, s, r), h, None, None) && InsOcc(Split(l, s, r), true, c) && c.inner >= 1
    ensures WF(Node(n, [s], [l, r]), h + 1, None, None) && Occ(Node(n, [s], [l, r]), true, c)
    ensures Leaves(Node(n, [s], [l, r])) == LeavesOf(Split(l, s, r))
  {
    assert [s][1..] == [] && [l, r][1..] == [r];
    assert WFs([], [r], h, Some(s), None);
    KidsLeaves(Split(l, s, r));
  }

  /** The whole tree after an insertion: same shape rules, entries with `e` spliced in. */
  lemma InsertKeeps(t: Tree, e: Entry, c: Caps, alloc: nat, h: nat) returns (h': nat, p: nat)
    requires WF(t, h, None, None) && Shaped(t) && Roomy(c) && Occ(t, true, c)
    requires e.key !in Content(Entries(t))
    ensures var t' := Insert(t, e, c, alloc).0;
            && WF(t', h', None, None) && (h' == h || h' == h + 1) && Occ(t', true, c)
            && p <= |Entries(t)| && Entries(t') == Splice(Entries(t), p, 0, [e])
  {
    EntriesSorted(t, h, None, None);
    ContentIs(Entries(t), e.key, e.rid);
    hide WF, Occ, Shaped, Content, Lookup, Increasing, Between, InsT, Puts, Leaves, Cat;
    InsTWF(t, e, c, alloc, true, h, None, None);
    var j, news := InsTLeaves(t, e, c, alloc);
    p := SpliceEntries(Leaves(t), j, news, e);
    h' := h;
    var (res, n) := InsT(t, e, c, alloc);
    if res.Split? {
      h' := h + 1;
      GrowRoot(res.t, res.key, res.right, n, c, h);
    }
  }

  lemma SpliceEntries(ls: seq<LeafRec>, j: nat, news: seq<LeafRec>, e: Entry) returns (p: nat)
    requires j < |ls| && Puts(ls[j], news, e)
    ensures p <= |Cat(ls)| && Cat(Splice(ls, j, 1, news)) == Splice(Cat(ls), p, 0, [e])
  {
    var a, b, l := ls[..j], ls[j + 1..], ls[j];
    var i := UpperBound(Keys(l.es), e.key);
    p := |Cat(a)| + i;
    assert Cat([l]) == l.es by { OneLeaf(l); }
    assert ls == a + [l] + b && Splice(ls, j, 1, news) == a + news + b;
    CatAppend(a, [l]);
    CatAppend(a + [l], b);
    hide Cat, UpperBound;
    calc {
      Cat(a + news + b);
    ==  { CatAppend(a, news); CatAppend(a + news, b); }
      Cat(a) + Splice(l.es, i, 0, [e]) + Cat(b);
    ==  { SpliceNear(Cat(a), l.es, Cat(b), i, e); }
      Splice(Cat(a) + l.es + Cat(b), p, 0, [e]);
    ==
      Splice(Cat(ls), p, 0, [e]);
    }
  }

  lemma SpliceNear<T>(a: seq<T>, m: seq<T>, b: seq<T>, i: nat, x: T)
    requires i <= |m|
    ensures Splice(a + m + b, |a| + i, 0, [x]) == a + Splice(m, i, 0, [x]) + b
  {
  }

  /** Insertion refines map insertion, and search sees exactly the map, for every tree that the
      invariant admits: the new key maps to the new rid and every other key is found as before. */
  lemma InsertRefinesMap(t: Tree, e: Entry, c: Caps, alloc: nat, h: nat, k: int)
    requires WF(t, h, None, None) && Shaped(t) && Roomy(c) && Occ(t, true, c)
    requires e.key !in Content(Entries(t))
    ensures var t' := Insert(t, e, c, alloc).0;
            && Content(Entries(t')) == Content(Entries(t))[e.key := e.rid]
            && Shaped(t')
            && Find(t', k) == if k == e.key then [e.rid] else Find(t, k)
  {
    var t' := Insert(t, e, c, alloc).0;
    var h', p := InsertKeeps(t, e, c, alloc, h);
    var es, es' := Entries(t), Entries(t');
    EntriesSorted(t, h, None, None);
    EntriesSorted(t', h', None, None);
    FindIsLookup(t, h, None, None, k);
    FindIsLookup(t', h', None, None, k);
    hide *;
    var m := Content(es)[e.key := e.rid];
    forall x: Entry ensures x in es' <==> x.key in m && m[x.key] == x.rid {
      InSplice(es, p, e, x);
      ContentIs(es, x.key, x.rid);
    }
    SameEntriesSameMap(es', m);
    ContentIs(es, k, e.rid);
    ContentIs(es', k, e.rid);
  }

  lemma InSplice(es: seq<Entry>, p: nat, e: Entry, x: Entry)
    requires p <= |es|
    ensures x in Splice(es, p, 0, [e]) <==> x in es || x == e
  {
    assert es == es[..p] + es[p..];
  }

  // ----- pages: an insertion uses the tree's own pages and fresh ones

  function Foot(t: Tree): set<nat>
    decreases t, 1
  {
    match t
    case Leaf(l) => {l.pid}
    case Node(p, _, kids) => {p} + FootAll(kids)
  }

  function FootAll(kids: seq<Tree>): set<nat>
    decreases kids, 0
  {
    if kids == [] then {} else Foot(kids[0]) + FootAll(kids[1..])
  }

  /** No page belongs to two nodes. */
  predicate Sep(t: Tree)
    decreases t, 1
  {
    t.Leaf? || (t.pid !in FootAll(t.kids) && SepAll(t.kids))
  }

  predicate SepAll(kids: seq<Tree>)
    decreases kids, 0
  {
    kids == [] || (Sep(kids[0]) && Foot(kids[0]) !! FootAll(kids[1..]) && SepAll(kids[1..]))
  }

  lemma {:induction false} SepAppend(a: seq<Tree>, b: seq<Tree>)
    ensures FootAll(a + b) == FootAll(a) + FootAll(b)
    ensures SepAll(a + b) <==> SepAll(a) && SepAll(b) && FootAll(a) !! FootAll(b)
  {
    if a == [] {
      assert a + b == b;
    } else {
      SepAppend(a[1..], b);
      assert (a + b)[1..] == a[1..] + b;
    }
  }

  lemma OneKidSep(c: Tree)
    ensures FootAll([c]) == Foot(c) && (SepAll([c]) <==> Sep(c))
  {
    assert [c][1..] == [];
  }

  lemma TwoKidsSep(a: Tree, b: Tree)
    ensures FootAll([a, b]) == Foot(a) + Foot(b) && (SepAll([a, b]) <==> Sep(a) && Sep(b) && Foot(a) !! Foot(b))
  {
    assert [a, b] == [a] + [b];
    SepAppend([a], [b]);
    OneKidSep(a);
    OneKidSep(b);
  }

  lemma SepSplice(kids: seq<Tree>, i: nat, n: nat, mc: seq<Tree>)
    requires i + n <= |kids| && SepAll(kids) && SepAll(mc)
    requires forall p <- FootAll(mc) :: p in FootAll(kids[i..i + n]) || p !in FootAll(kids)
    ensures SepAll(Splice(kids, i, n, mc))
    ensures FootAll(kids) == FootAll(kids[..i]) + FootAll(kids[i..i + n]) + FootAll(kids[i + n..])
    ensures FootAll(Splice(kids, i, n, mc)) == FootAll(kids[..i]) + FootAll(mc) + FootAll(kids[i + n..])
  {
    var a, m, b := kids[..i], kids[i..i + n], kids[i + n..];
    assert kids == a + m + b;
    SepAppend(a, m);
    SepAppend(a + m, b);
    SepAppend(a, mc);
    SepAppend(a + mc, b);
    hide Sep, SepAll, Foot, FootAll;
  }

  lemma {:induction false} KidSep(kids: seq<Tree>, i: nat)
    requires SepAll(kids) && i < |kids|
    ensures Sep(kids[i]) && Foot(kids[i]) <= FootAll(kids)
  {
    if i > 0 {
      KidSep(kids[1..], i - 1);
    }
  }

  ghost function FootOf(res: Ins): set<nat> {
    match res case Done(t) => Foot(t) case Split(t, _, r) => Foot(t) + Foot(r)
  }

  ghost predicate SepOf(res: Ins) {
    match res case Done(t) => Sep(t) case Split(t, _, r) => Sep(t) && Sep(r) && Foot(t) !! Foot(r)
  }

  ghost predicate AllBelow(s: set<nat>, n: nat) {
    forall p <- s :: p < n
  }

  /** `after` is `before` with some pages numbered a..n-1 added. */
  ghost predicate Grown(before: set<nat>, after: set<nat>, a: nat, n: nat) {
    before <= after && forall p <- after :: p in before || a <= p < n
  }

  /** An insertion keeps every node on its own page and takes only fresh pages besides. */
  lemma {:induction false} InsTPages(t: Tree, e: Entry, c: Caps, alloc: nat)
    requires Shaped(t) && Sep(t) && AllBelow(Foot(t), alloc)
    ensures var (res, n) := InsT(t, e, c, alloc);
            && n >= alloc && Pid(res.t) == Pid(t) && SepOf(res)
            && Grown(Foot(t), FootOf(res), alloc, n)
            && (res.Split? ==> alloc <= Pid(res.right) < n)
    decreases t
  {
    if t.Node? {
      var i := UpperBound(t.keys, e.key);
      ShapedAt(t.kids, i);
      KidSep(t.kids, i);
      InsTPages(t.kids[i], e, c, alloc);
      var (res, n) := InsT(t.kids[i], e, c, alloc);
      NodePutPages(t, i, res, c, alloc, n);
    }
  }

  lemma NodePutPages(t: Tree, i: nat, res: Ins, c: Caps, alloc: nat, n: nat)
    requires t.Node? && Sep(t) && i < |t.kids| == |t.keys| + 1 && n >= alloc
    requires AllBelow(Foot(t), alloc)
    requires SepOf(res) && Grown(Foot(t.kids[i]), FootOf(res), alloc, n)
    ensures var (o, m) := NodePut(t.pid, t.keys, t.kids, i, res, c, n);
            && SepOf(o) && Grown(Foot(t), FootOf(o), alloc, m) && n <= m
            && Pid(o.t) == t.pid && (o.Split? ==> alloc <= Pid(o.right) < m)
  {
    var mc := KidsOf(res);
    var kids := Splice(t.kids, i, 1, mc);
    if res.Done? { OneKidSep(res.t); } else { TwoKidsSep(res.t, res.right); }
    PutKids(t.kids, i, mc, alloc, n);
    hide Sep, SepAll, FootAll;
    if res.Split? {
      OverflowPages(t.pid, Splice(t.keys, i, 0, [res.key]), kids, c, n);
    }
  }

  lemma PutKids(kids: seq<Tree>, i: nat, mc: seq<Tree>, alloc: nat, n: nat)
    requires i < |kids| && SepAll(kids) && SepAll(mc) && AllBelow(FootAll(kids), alloc) && alloc <= n
    requires Grown(Foot(kids[i]), FootAll(mc), alloc, n)
    ensures var kids' := Splice(kids, i, 1, mc);
            && SepAll(kids') && Grown(FootAll(kids), FootAll(kids'), alloc, n) && AllBelow(FootAll(kids'), n)
  {
    assert kids[i..i + 1] == [kids[i]];
    OneKidSep(kids[i]);
    hide Sep, SepAll, Foot, FootAll;
    SepSplice(kids, i, 1, mc);
  }

  lemma OverflowPages(pid: nat, keys: seq<int>, kids: seq<Tree>, c: Caps, n: nat)
    requires |kids| == |keys| + 1 && |keys| > 0
    requires SepAll(kids) && pid !in FootAll(kids) && pid < n && AllBelow(FootAll(kids), n)
    ensures var (o, m) := Overflow(pid, keys, kids, c, n);
            && SepOf(o) && Pid(o.t) == pid && n <= m <= n + 1 && (o.Split? ==> Pid(o.right) == n && m == n + 1)
            && FootOf(o) == {pid} + FootAll(kids) + (if o.Split? then {n} else {})
  {
    if |keys| > c.inner {
      var mid := |keys| / 2;
      assert kids == kids[..mid + 1] + kids[mid + 1..];
      SepAppend(kids[..mid + 1], kids[mid + 1..]);
      hide SepAll, FootAll;
    }
  }
}
