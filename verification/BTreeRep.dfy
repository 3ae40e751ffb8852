/** Trees on pages: which page map holds which tree, what writing one page leaves alone, and how the
    descent and the leaf walk follow the tree. */
module BTreeRep {
  import opened Common
  import opened BTree
  import opened BTreeInsert
  import opened BTreeDelete
  import opened BTreeDeleteProof
  import opened BTreeDeleteExact
  import opened BTreeChain

  /** A decoded node page. */
  datatype PageNode =
    | LeafNode(keys: seq<int>, rids: seq<Rid>, next: Option<nat>)
    | InternalNode(keys: seq<int>, children: seq<nat>)

  type Pages = map<nat, PageNode>

  function Rids(es: seq<Entry>): (rs: seq<Rid>)
    ensures |rs| == |es| && forall i :: 0 <= i < |es| ==> rs[i] == es[i].rid
  {
    seq(|es|, i requires 0 <= i < |es| => es[i].rid)
  }

  function Pids(kids: seq<Tree>): (ps: seq<nat>)
    ensures |ps| == |kids| && forall i :: 0 <= i < |kids| ==> ps[i] == Pid(kids[i])
  {
    seq(|kids|, i requires 0 <= i < |kids| => Pid(kids[i]))
  }

  function View(t: Tree): PageNode {
    match t
    case Leaf(l) => LeafNode(Keys(l.es), Rids(l.es), l.next)
    case Node(_, keys, kids) => InternalNode(keys, Pids(kids))
  }

  /** The pages hold the tree. */
  ghost predicate Rep(pages: Pages, t: Tree) {
    && Pid(t) in pages && pages[Pid(t)] == View(t)
    && (t.Node? ==> forall k | k in t.kids :: Rep(pages, k))
  }

  ghost predicate RepAll(pages: Pages, kids: seq<Tree>) {
    forall k | k in kids :: Rep(pages, k)
  }

  ghost predicate SameOn(pages: Pages, pages': Pages, ps: set<nat>) {
    forall p | p in ps :: p in pages && p in pages' && pages'[p] == pages[p]
  }

  /** Pages outside `ps` are as before. */
  ghost predicate SameOutside(pages: Pages, pages': Pages, ps: set<nat>) {
    forall p | p in pages && p !in ps :: p in pages' && pages'[p] == pages[p]
  }

  ghost predicate KeysBelow(pages: Pages, n: nat) {
    forall p | p in pages :: p < n
  }

  lemma {:induction false} KidFoot(kids: seq<Tree>, k: Tree)
    requires k in kids
    ensures Foot(k) <= FootAll(kids)
  {
    if kids[0] != k {
      KidFoot(kids[1..], k);
    }
  }

  lemma {:induction false} RepFrame(pages: Pages, pages': Pages, t: Tree)
    requires Rep(pages, t) && SameOn(pages, pages', Foot(t))
    ensures Rep(pages', t)
  {
    if t.Node? {
      forall k | k in t.kids ensures Rep(pages', k) {
        KidFoot(t.kids, k);
        RepFrame(pages, pages', k);
      }
    }
  }

  lemma RepAllFrame(pages: Pages, pages': Pages, kids: seq<Tree>)
    requires RepAll(pages, kids) && SameOn(pages, pages', FootAll(kids))
    ensures RepAll(pages', kids)
  {
    forall k | k in kids ensures Rep(pages', k) {
      KidFoot(kids, k);
      RepFrame(pages, pages', k);
    }
  }

  lemma {:induction false} RepFoot(pages: Pages, t: Tree)
    requires Rep(pages, t)
    ensures forall p | p in Foot(t) :: p in pages
    decreases t, 1
  {
    if t.Node? {
      RepAllFoot(pages, t.kids);
    }
  }

  lemma {:induction false} RepAllFoot(pages: Pages, kids: seq<Tree>)
    requires RepAll(pages, kids)
    ensures forall p | p in FootAll(kids) :: p in pages
    decreases kids, 0
  {
    if kids != [] {
      RepFoot(pages, kids[0]);
      RepAllFoot(pages, kids[1..]);
    }
  }

  /** A child and its neighbours keep to their own pages. */
  lemma SepParts(kids: seq<Tree>, i: nat)
    requires SepAll(kids) && i < |kids|
    ensures Sep(kids[i]) && SepAll(kids[..i]) && SepAll(kids[i + 1..])
    ensures FootAll(kids) == FootAll(kids[..i]) + Foot(kids[i]) + FootAll(kids[i + 1..])
    ensures Foot(kids[i]) !! FootAll(kids[..i]) && Foot(kids[i]) !! FootAll(kids[i + 1..])
    ensures FootAll(kids[..i]) !! FootAll(kids[i + 1..])
  {
    hide Sep, SepAll, Foot, FootAll;
    var a, b := kids[..i], kids[i + 1..];
    assert kids == a + [kids[i]] + b;
    SepAppend(a, [kids[i]]);
    SepAppend(a + [kids[i]], b);
    OneKidSep(kids[i]);
  }

  // ----- the two binary searches

  method LowerBoundSearch(keys: seq<int>, key: int) returns (lo: nat)
    requires Sorted(keys)
    ensures lo == LowerBound(keys, key)
  {
    lo := 0;
    var hi := |keys|;
    while lo < hi
      invariant 0 <= lo <= hi <= |keys|
      invariant forall j :: 0 <= j < lo ==> keys[j] < key
      invariant forall j :: hi <= j < |keys| ==> keys[j] >= key
    {
      var mid := (lo + hi) / 2;
      if keys[mid] < key { lo := mid + 1; } else { hi := mid; }
    }
    if lo < |keys| {
      assert keys[lo] >= key;
    }
  }

  method UpperBoundSearch(keys: seq<int>, key: int) returns (lo: nat)
    requires Sorted(keys)
    ensures lo == UpperBound(keys, key)
  {
    lo := 0;
    var hi := |keys|;
    while lo < hi
      invariant 0 <= lo <= hi <= |keys|
      invariant forall j :: 0 <= j < lo ==> keys[j] <= key
      invariant forall j :: hi <= j < |keys| ==> keys[j] > key
    {
      var mid := (lo + hi) / 2;
      if keys[mid] <= key { lo := mid + 1; } else { hi := mid; }
    }
    if lo < |keys| {
      assert keys[lo] > key;
    }
  }

  lemma IncreasingSorted(es: seq<Entry>)
    requires Increasing(es)
    ensures Sorted(Keys(es))
  {
  }

  // ----- pure facts the methods need

  /** After child i became `res`, its row of children is on the pages. */
  lemma RepPut(pages: Pages, pages': Pages, kids: seq<Tree>, i: nat, res: Ins)
    requires SepAll(kids) && i < |kids| && RepAll(pages, kids)
    requires SameOutside(pages, pages', Foot(kids[i])) && RepAll(pages', KidsOf(res))
    ensures RepAll(pages', Splice(kids, i, 1, KidsOf(res)))
  {
    SepParts(kids, i);
    RepAllFoot(pages, kids);
    hide Sep, SepAll, Foot, FootAll, Rep;
    assert forall k | k in kids[..i] :: k in kids;
    assert forall k | k in kids[i + 1..] :: k in kids;
    RepAllFrame(pages, pages', kids[..i]);
    RepAllFrame(pages, pages', kids[i + 1..]);
  }

  lemma PidsSplice(kids: seq<Tree>, i: nat, k: Tree)
    requires i < |kids| && Pid(k) == Pid(kids[i])
    ensures Pids(Splice(kids, i, 1, [k])) == Pids(kids)
    ensures forall r: Tree :: Pids(Splice(kids, i, 1, [k, r])) == Splice(Pids(kids), i + 1, 0, [Pid(r)])
  {
    assert Splice(kids, i, 1, [k]) == kids[i := k];
    forall r: Tree ensures Pids(Splice(kids, i, 1, [k, r])) == Splice(Pids(kids), i + 1, 0, [Pid(r)]) {
      var a, b := Pids(Splice(kids, i, 1, [k, r])), Splice(Pids(kids), i + 1, 0, [Pid(r)]);
      forall j | 0 <= j < |a| ensures a[j] == b[j] {}
    }
  }

  lemma PidsPart(kids: seq<Tree>, i: nat, j: nat)
    requires i <= j <= |kids|
    ensures Pids(kids[i..j]) == Pids(kids)[i..j]
  {
  }

  /** The entries es sit at position p of the whole list. */
  ghost predicate At(all: seq<Entry>, p: nat, es: seq<Entry>) {
    p + |es| <= |all| && forall i :: 0 <= i < |es| ==> all[p + i] == es[i]
  }

  lemma LeafAt(ls: seq<LeafRec>, j: nat)
    requires j < |ls| && Increasing(Cat(ls))
    ensures |Cat(ls[..j + 1])| == |Cat(ls[..j])| + |ls[j].es|
    ensures |Cat(ls[..j + 1])| <= |Cat(ls)| && At(Cat(ls), |Cat(ls[..j])|, ls[j].es)
    ensures j + 1 == |ls| ==> |Cat(ls[..j + 1])| == |Cat(ls)|
    ensures Increasing(ls[j].es)
  {
    var a, l, b := ls[..j], ls[j], ls[j + 1..];
    calc {
      Cat(ls[..j + 1]);
    ==  { assert ls[..j + 1] == a + [l]; CatAppend(a, [l]); OneLeaf(l); }
      Cat(a) + l.es;
    }
    calc {
      Cat(ls);
    ==  { assert ls == (a + [l]) + b; CatAppend(a + [l], b); }
      Cat(a + [l]) + Cat(b);
    ==  { CatAppend(a, [l]); OneLeaf(l); }
      Cat(a) + l.es + Cat(b);
    }
    if j + 1 == |ls| {
      assert b == [];
    }
    MiddlePart(Cat(a), l.es, Cat(b));
  }

  lemma MiddlePart(a: seq<Entry>, m: seq<Entry>, b: seq<Entry>)
    requires Increasing(a + m + b)
    ensures Increasing(m) && At(a + m + b, |a|, m)
  {
    var s := a + m + b;
    forall i, j | 0 <= i < j < |m| ensures m[i].key < m[j].key {
      assert s[|a| + i] == m[i] && s[|a| + j] == m[j];
    }
  }

  lemma SkipToStart(es: seq<Entry>, start: nat, b: Bounds)
    requires start == if b.lo.Some? then LowerBound(Keys(es), b.lo.value) else 0
    ensures start <= |es| && RangeTo(es, start, b) == []
    ensures b.lo.Some? ==> forall q :: 0 <= q < start ==> es[q].key < b.lo.value
  {
    forall i | 0 <= i < start ensures !InBounds(es[i].key, b) && es[i].key < b.lo.value {
      assert Keys(es)[i] == es[i].key;
    }
    RangeSkip(es, 0, start, b);
  }

  lemma {:induction false} LeafOnPage(pages: Pages, t: Tree, j: nat)
    requires Rep(pages, t) && j < |Leaves(t)|
    ensures Leaves(t)[j].pid in pages && pages[Leaves(t)[j].pid] == View(Leaf(Leaves(t)[j]))
    decreases t, 1
  {
    if t.Node? {
      LeafOnPages(pages, t.kids, j);
    }
  }

  lemma {:induction false} LeafOnPages(pages: Pages, kids: seq<Tree>, j: nat)
    requires RepAll(pages, kids) && j < |LeavesAll(kids)|
    ensures LeavesAll(kids)[j].pid in pages && pages[LeavesAll(kids)[j].pid] == View(Leaf(LeavesAll(kids)[j]))
    decreases kids, 0
  {
    if j < |Leaves(kids[0])| {
      LeafOnPage(pages, kids[0], j);
    } else {
      LeafOnPages(pages, kids[1..], j - |Leaves(kids[0])|);
    }
  }

  lemma FirstKid(pages: Pages, t: Tree, h: nat, lo: Bound, hi: Bound)
    requires t.Node? && Rep(pages, t) && WF(t, h, lo, hi) && Leaves(t) != []
    ensures h > 0 && t.kids != [] && Rep(pages, t.kids[0]) && WF(t.kids[0], h - 1, lo, Hi(t.keys, 0, hi))
    ensures Leaves(t.kids[0]) != [] && Leaves(t.kids[0])[0] == Leaves(t)[0]
  {
    WFsAt(t.keys, t.kids, h - 1, lo, hi, 0);
    assert t.kids[0] in t.kids;
    SomeLeaf(t.kids[0], h - 1, lo, Hi(t.keys, 0, hi));
  }

  lemma {:induction false} SomeLeaf(t: Tree, h: nat, lo: Bound, hi: Bound)
    requires WF(t, h, lo, hi)
    ensures Leaves(t) != []
    decreases t
  {
    if t.Node? {
      WFsAt(t.keys, t.kids, h - 1, lo, hi, 0);
      SomeLeaf(t.kids[0], h - 1, lo, Hi(t.keys, 0, hi));
    }
  }

  /** Only the empty index has an empty first leaf. */
  lemma EmptyFirstLeaf(t: Tree, h: nat, c: Caps)
    requires WF(t, h, None, None) && Shaped(t) && Occ(t, true, c) && Leaves(t) != [] && Leaves(t)[0].es == []
    ensures Entries(t) == []
  {
    match t
    case Leaf(l) => OneLeaf(l);
    case Node(_, keys, kids) =>
      WFsAt(keys, kids, h - 1, None, None, 0);
      assert kids[0] in kids;
      SomeLeaf(kids[0], h - 1, None, Hi(keys, 0, None));
      FirstLeafFull(kids[0], h - 1, None, Hi(keys, 0, None), c);
  }

  lemma {:induction false} FirstLeafFull(t: Tree, h: nat, lo: Bound, hi: Bound, c: Caps)
    requires WF(t, h, lo, hi) && Occ(t, false, c)
    ensures Leaves(t) != [] && Leaves(t)[0].es != []
    decreases t
  {
    if t.Node? {
      WFsAt(t.keys, t.kids, h - 1, lo, hi, 0);
      assert t.kids[0] in t.kids;
      FirstLeafFull(t.kids[0], h - 1, lo, Hi(t.keys, 0, hi), c);
    }
  }

  /** The leaf that owns the smallest key is the first one. */
  lemma FirstLeafOwns(ls: seq<LeafRec>, j: nat, l: LeafRec)
    requires ls != [] && ls[0].es != [] && OwnsAt(ls, j, l, ls[0].es[0].key)
    ensures j == 0 && Cat(ls[..j]) == []
  {
    if j > 0 {
      HeadOfCat(ls[..j]);
    }
  }

  lemma HeadOfCat(ls: seq<LeafRec>)
    requires ls != [] && ls[0].es != []
    ensures ls[0].es[0] in Cat(ls)
  {
    assert Cat(ls)[0] == ls[0].es[0];
  }

  /** The descent has come to t: the key is t's business, and only t's. */
  ghost predicate Reached(pages: Pages, root: Tree, t: Tree, h: nat, lo: Bound, hi: Bound, key: int, a: seq<LeafRec>,
                          b: seq<LeafRec>) {
    && Rep(pages, t) && WF(t, h, lo, hi) && Shaped(t) && Shaped(root)
    && Above(lo, key) && Below(key, hi) && Find(root, key) == Find(t, key)
    && Leaves(root) == a + Leaves(t) + b
    && (forall e <- Cat(a) :: e.key < key) && (forall e <- Cat(b) :: e.key > key)
  }

  /** Leaf j is l, and a key's place is in it: smaller keys come before, larger ones after. */
  ghost predicate OwnsAt(ls: seq<LeafRec>, j: nat, l: LeafRec, key: int) {
    && j < |ls| && ls[j] == l
    && (forall e <- Cat(ls[..j]) :: e.key < key)
    && (forall e <- Cat(ls[j + 1..]) :: e.key > key)
  }

  lemma ReachRoot(pages: Pages, root: Tree, h: nat, key: int)
    requires Rep(pages, root) && WF(root, h, None, None) && Shaped(root)
    ensures Reached(pages, root, root, h, None, None, key, [], [])
  {
    assert Leaves(root) == [] + Leaves(root) + [];
    hide Rep, WF, Shaped, Find, Leaves;
  }

  lemma ReachedSorted(pages: Pages, root: Tree, t: Tree, h: nat, lo: Bound, hi: Bound, key: int,
                      a: seq<LeafRec>, b: seq<LeafRec>)
    requires t.Node? && Reached(pages, root, t, h, lo, hi, key, a, b)
    ensures Sorted(t.keys) && |t.kids| == |t.keys| + 1
  {
    hide Rep, Find, Leaves, Cat;
    WFsSorted(t.keys, t.kids, h - 1, lo, hi);
  }

  lemma Arrived(pages: Pages, root: Tree, l: LeafRec, h: nat, lo: Bound, hi: Bound, key: int, a: seq<LeafRec>,
                b: seq<LeafRec>)
    requires Reached(pages, root, Leaf(l), h, lo, hi, key, a, b)
    ensures OwnsAt(Leaves(root), |a|, l, key) && Increasing(l.es) && Find(root, key) == Lookup(l.es, key)
  {
    var ls := a + [l] + b;
    assert ls[..|a|] == a && ls[|a| + 1..] == b && ls[|a|] == l;
  }

  lemma ReachChild(pages: Pages, root: Tree, t: Tree, h: nat, lo: Bound, hi: Bound, key: int, a: seq<LeafRec>,
                   b: seq<LeafRec>)
    returns (a': seq<LeafRec>, b': seq<LeafRec>)
    requires t.Node? && Reached(pages, root, t, h, lo, hi, key, a, b)
    ensures var i := UpperBound(t.keys, key);
            && i < |t.kids| == |t.keys| + 1 && h > 0 && Pid(t.kids[i]) in pages
               && pages[Pid(t.kids[i])] == View(t.kids[i])
            && Reached(pages, root, t.kids[i], h - 1, Lo(t.keys, i, lo), Hi(t.keys, i, hi), key, a', b')
  {
    DescendStep(pages, t, h, lo, hi, key);
    a', b' := Widen(root, t, a, b, UpperBound(t.keys, key), h, lo, hi, key);
    hide Find, Leaves, WF, Shaped, Cat;
  }

  lemma DescendStep(pages: Pages, t: Tree, h: nat, lo: Bound, hi: Bound, key: int)
    requires t.Node? && Rep(pages, t) && WF(t, h, lo, hi) && Shaped(t) && Above(lo, key) && Below(key, hi)
    ensures var i := UpperBound(t.keys, key);
            && i < |t.kids| && Shaped(t.kids[i]) && Rep(pages, t.kids[i]) && Pids(t.kids)[i] == Pid(t.kids[i])
            && h > 0 && WF(t.kids[i], h - 1, Lo(t.keys, i, lo), Hi(t.keys, i, hi))
            && Above(Lo(t.keys, i, lo), key) && Below(key, Hi(t.keys, i, hi))
            && Find(t, key) == Find(t.kids[i], key)
  {
    var i := UpperBound(t.keys, key);
    ShapedAt(t.kids, i);
    WFsAt(t.keys, t.kids, h - 1, lo, hi, i);
    assert t.kids[i] in t.kids;
  }

  /** Going one level down, everything left of the child is < key and everything right of it > key. */
  lemma Widen(root: Tree, t: Tree, a: seq<LeafRec>, b: seq<LeafRec>, i: nat, h: nat, lo: Bound, hi: Bound, key: int)
    returns (a': seq<LeafRec>, b': seq<LeafRec>)
    requires t.Node? && WF(t, h, lo, hi) && i == UpperBound(t.keys, key) && i < |t.kids|
    requires Leaves(root) == a + Leaves(t) + b
    requires (forall e <- Cat(a) :: e.key < key) && (forall e <- Cat(b) :: e.key > key)
    ensures Leaves(root) == a' + Leaves(t.kids[i]) + b'
    ensures (forall e <- Cat(a') :: e.key < key) && (forall e <- Cat(b') :: e.key > key)
  {
    var x, m, y := LeavesAll(t.kids[..i]), Leaves(t.kids[i]), LeavesAll(t.kids[i + 1..]);
    a', b' := a + x, y + b;
    calc {
      Leaves(root);
    ==  { KidInLeaves(t.kids, i); }
      a + (x + m + y) + b;
    ==  { Regroup(a, x, m, y, b); }
      a' + m + b';
    }
    CatAppend(a, x);
    CatAppend(y, b);
    AroundChild(t, i, h, lo, hi, key);
    hide Leaves, LeavesAll, Cat, WF;
  }

  lemma Regroup<T>(a: seq<T>, x: seq<T>, m: seq<T>, y: seq<T>, b: seq<T>)
    ensures a + (x + m + y) + b == (a + x) + m + (y + b)
  {
  }

  lemma AroundChild(t: Tree, i: nat, h: nat, lo: Bound, hi: Bound, key: int)
    requires t.Node? && WF(t, h, lo, hi) && i == UpperBound(t.keys, key) && i < |t.kids|
    ensures forall e <- EntriesAll(t.kids[..i]) :: e.key < key
    ensures forall e <- EntriesAll(t.kids[i + 1..]) :: e.key > key
  {
    WFsLength(t.keys, t.kids, h - 1, lo, hi);
    BeforeChild(t.keys, t.kids, i, h - 1, lo, hi, key);
    AfterChild(t.keys, t.kids, i, h - 1, lo, hi, key);
  }

  lemma BeforeChild(keys: seq<int>, kids: seq<Tree>, i: nat, h: nat, lo: Bound, hi: Bound, key: int)
    requires WFs(keys, kids, h, lo, hi) && i < |kids| == |keys| + 1 && (i > 0 ==> keys[i - 1] <= key)
    ensures forall e <- EntriesAll(kids[..i]) :: e.key < key
  {
    if i > 0 {
      WFsRun(keys, kids, h, lo, hi, 0, i);
      assert kids[0..i] == kids[..i];
      hide WFs;
      EntriesAllSorted(keys[0..i - 1], kids[..i], h, lo, Some(keys[i - 1]));
    }
  }

  lemma AfterChild(keys: seq<int>, kids: seq<Tree>, i: nat, h: nat, lo: Bound, hi: Bound, key: int)
    requires WFs(keys, kids, h, lo, hi) && i < |kids| == |keys| + 1 && (i < |keys| ==> key < keys[i])
    ensures forall e <- EntriesAll(kids[i + 1..]) :: e.key > key
  {
    if i < |keys| {
      WFsRun(keys, kids, h, lo, hi, i + 1, |kids| - i - 1);
      assert kids[i + 1..|kids|] == kids[i + 1..];
      hide WFs;
      EntriesAllSorted(keys[i + 1..|keys|], kids[i + 1..], h, Some(keys[i]), hi);
    } else {
      assert kids[i + 1..] == [];
    }
  }

  lemma {:induction false} SliceIsLookup(es: seq<Entry>, k: int)
    requires Increasing(es)
    ensures LowerBound(Keys(es), k) <= UpperBound(Keys(es), k)
    ensures Rids(es)[LowerBound(Keys(es), k)..UpperBound(Keys(es), k)] == Lookup(es, k)
  {
    BoundsAround(es, k);
    var i, j := LowerBound(Keys(es), k), UpperBound(Keys(es), k);
    hide LowerBound, UpperBound;
    if i < |es| && es[i].key == k {
      assert j == i + 1 by {
        if i + 1 < |es| { assert es[i + 1].key > k; }
      }
      LookupOne(es, i);
    } else {
      assert j == i by {
        if i < |es| { assert es[i].key > k; }
      }
      LookupMisses(es, k);
    }
  }

  lemma LookupOne(es: seq<Entry>, i: nat)
    requires Increasing(es) && i < |es|
    ensures Lookup(es, es[i].key) == [es[i].rid]
  {
    var a, b, k := es[..i], es[i + 1..], es[i].key;
    LookupMisses(a, k);
    LookupMisses(b, k);
    calc {
      Lookup(es, k);
    ==  { assert es == a + [es[i]] + b; LookupAppend(a, [es[i]], k); LookupAppend(a + [es[i]], b, k); }
      Lookup([es[i]], k);
    ==  { assert [es[i]][1..] == []; }
      [es[i].rid];
    }
  }

  lemma BoundsAround(es: seq<Entry>, k: int)
    requires Increasing(es)
    ensures forall q :: 0 <= q < |es| ==> (q < LowerBound(Keys(es), k) <==> es[q].key < k)
    ensures forall q :: 0 <= q < |es| ==> (q < UpperBound(Keys(es), k) <==> es[q].key <= k)
  {
    var ks := Keys(es);
    var i, j := LowerBound(ks, k), UpperBound(ks, k);
    if i < |es| { assert ks[i] == es[i].key; }
    if j < |es| { assert ks[j] == es[j].key; }
    forall q | 0 <= q < |es| ensures (q < i <==> es[q].key < k) && (q < j <==> es[q].key <= k) {
      assert ks[q] == es[q].key;
    }
  }

  // ----- insertion

  /** The outcome of inserting into a subtree, as its caller sees it: the halves are on their pages,
      `up` is the separator and page to add above, and an unsplit node's view is returned. */
  ghost predicate InsView(pages: Pages, res: Ins, node: PageNode, up: Option<(int, nat)>) {
    && RepAll(pages, KidsOf(res))
    && up == (match res case Done(_) => None case Split(_, s, r) => Some((s, Pid(r))))
    && (res.Done? ==> node == View(res.t))
  }

  lemma LeafPutView(l: LeafRec, e: Entry)
    ensures var i := UpperBound(Keys(l.es), e.key);
            && Keys(LeafPut(l, e)) == Splice(Keys(l.es), i, 0, [e.key])
            && Rids(LeafPut(l, e)) == Splice(Rids(l.es), i, 0, [e.rid])
  {
    PutKeys(l.es, UpperBound(Keys(l.es), e.key), e);
    PutRids(l.es, UpperBound(Keys(l.es), e.key), e);
  }

  lemma PutKeys(es: seq<Entry>, i: nat, e: Entry)
    requires i <= |es|
    ensures Keys(Splice(es, i, 0, [e])) == Splice(Keys(es), i, 0, [e.key])
  {
    hide Keys;
    var r := Splice(es, i, 0, [e]);
    forall q | 0 <= q < |r| ensures Keys(r)[q] == Splice(Keys(es), i, 0, [e.key])[q] {
    }
  }

  lemma PutRids(es: seq<Entry>, i: nat, e: Entry)
    requires i <= |es|
    ensures Rids(Splice(es, i, 0, [e])) == Splice(Rids(es), i, 0, [e.rid])
  {
    hide Rids;
    var r := Splice(es, i, 0, [e]);
    forall q | 0 <= q < |r| ensures Rids(r)[q] == Splice(Rids(es), i, 0, [e.rid])[q] {
    }
  }

  lemma HalfView(es: seq<Entry>, m: nat)
    requires m <= |es|
    ensures Keys(es[..m]) == Keys(es)[..m] && Keys(es[m..]) == Keys(es)[m..]
    ensures Rids(es[..m]) == Rids(es)[..m] && Rids(es[m..]) == Rids(es)[m..]
  {
  }

  lemma RepLeaf(pages: Pages, l: LeafRec)
    requires l.pid in pages && pages[l.pid] == View(Leaf(l))
    ensures Rep(pages, Leaf(l))
  {
  }

  lemma LeafDone(pages: Pages, l: LeafRec, e: Entry, c: Caps, n: nat, node: PageNode)
    requires |LeafPut(l, e)| <= c.leaf && node == View(Leaf(l.(es := LeafPut(l, e))))
    ensures var (res, n') := InsT(Leaf(l), e, c, n);
            n' == n && InsView(pages[l.pid := node], res, node, None)
  {
    RepLeaf(pages[l.pid := node], l.(es := LeafPut(l, e)));
  }

  lemma LeafSplit(pages: Pages, l: LeafRec, e: Entry, c: Caps, n: nat, node: PageNode)
    requires |LeafPut(l, e)| > c.leaf && l.pid != n && node == View(Leaf(l.(es := LeafPut(l, e))))
    ensures var mid := |node.keys| / 2;
            var pages' := pages[l.pid := LeafNode(node.keys[..mid], node.rids[..mid], Some(n))]
                               [n := LeafNode(node.keys[mid..], node.rids[mid..], node.next)];
            var (res, n') := InsT(Leaf(l), e, c, n);
            n' == n + 1 && InsView(pages', res, node, Some((node.keys[mid], n)))
  {
    var es := LeafPut(l, e);
    var mid := |es| / 2;
    HalfView(es, mid);
    assert node.keys[mid] == es[mid].key;
    hide LeafPut, Keys, Rids;
    var pages' := pages[l.pid := LeafNode(node.keys[..mid], node.rids[..mid], Some(n))]
                       [n := LeafNode(node.keys[mid..], node.rids[mid..], node.next)];
    RepLeaf(pages', LeafRec(l.pid, es[..mid], Some(n)));
    RepLeaf(pages', LeafRec(n, es[mid..], l.next));
  }

  lemma RepNode(pages: Pages, t: Tree)
    requires t.Node? && t.pid in pages && pages[t.pid] == View(t) && RepAll(pages, t.kids)
    ensures Rep(pages, t)
  {
  }

  lemma NodeDone(pages: Pages, pid: nat, keys: seq<int>, kids: seq<Tree>, c: Caps, n: nat)
    requires |kids| == |keys| + 1 && 0 < |keys| <= c.inner && RepAll(pages, kids) && pid !in FootAll(kids)
    ensures var node := InternalNode(keys, Pids(kids));
            var (res, n') := Overflow(pid, keys, kids, c, n);
            n' == n && InsView(pages[pid := node], res, node, None)
  {
    RepAllWrite(pages, kids, pid, InternalNode(keys, Pids(kids)));
    RepNode(pages[pid := InternalNode(keys, Pids(kids))], Node(pid, keys, kids));
    hide Rep, FootAll;
  }

  lemma NodeSplit(pages: Pages, pid: nat, keys: seq<int>, kids: seq<Tree>, c: Caps, n: nat, node: PageNode)
    requires |kids| == |keys| + 1 && |keys| > c.inner && |keys| > 0 && RepAll(pages, kids) && pid !in FootAll(kids)
    requires pid < n && AllBelow(FootAll(kids), n)
    ensures var mid, ps := |keys| / 2, Pids(kids);
            var pages' := pages[pid := InternalNode(keys[..mid], ps[..mid + 1])]
                               [n := InternalNode(keys[mid + 1..], ps[mid + 1..])];
            var (res, n') := Overflow(pid, keys, kids, c, n);
            n' == n + 1 && InsView(pages', res, node, Some((keys[mid], n)))
  {
    var mid, ps := |keys| / 2, Pids(kids);
    hide Rep, FootAll, Pids, RepAll, AllBelow, InsView;
    var l, r := InternalNode(keys[..mid], ps[..mid + 1]), InternalNode(keys[mid + 1..], ps[mid + 1..]);
    var pages' := pages[pid := l][n := r];
    RepAllWrite(pages, kids, pid, l);
    NotAllocated(kids, n);
    RepAllWrite(pages[pid := l], kids, n, r);
    HalfRep(pages', pid, keys[..mid], kids, 0, mid + 1);
    HalfRep(pages', n, keys[mid + 1..], kids, mid + 1, |kids|);
    assert kids[0..mid + 1] == kids[..mid + 1] && kids[mid + 1..|kids|] == kids[mid + 1..];
    SplitView(pages', Node(pid, keys[..mid], kids[..mid + 1]), keys[mid], Node(n, keys[mid + 1..], kids[mid + 1..]),
              node);
  }

  lemma NotAllocated(kids: seq<Tree>, n: nat)
    requires AllBelow(FootAll(kids), n)
    ensures n !in FootAll(kids)
  {
  }

  lemma SplitView(pages: Pages, a: Tree, s: int, b: Tree, node: PageNode)
    requires Rep(pages, a) && Rep(pages, b)
    ensures InsView(pages, Split(a, s, b), node, Some((s, Pid(b))))
  {
    TwoRep(pages, a, b);
  }

  lemma HalfRep(pages: Pages, pid: nat, keys: seq<int>, kids: seq<Tree>, i: nat, j: nat)
    requires i <= j <= |kids| && RepAll(pages, kids)
    requires pid in pages && pages[pid] == InternalNode(keys, Pids(kids)[i..j])
    ensures Rep(pages, Node(pid, keys, kids[i..j]))
  {
    PidsPart(kids, i, j);
    assert forall k | k in kids[i..j] :: k in kids;
  }

  lemma TwoRep(pages: Pages, a: Tree, b: Tree)
    requires Rep(pages, a) && Rep(pages, b)
    ensures RepAll(pages, [a, b])
  {
  }

  /** What the recursive call on child i may rely on. */
  lemma IntoChild(pages: Pages, t: Tree, i: nat, root: bool, c: Caps, n: nat, h: nat, lo: Bound, hi: Bound)
    requires t.Node? && Rep(pages, t) && Shaped(t) && Sep(t) && AllBelow(Foot(t), n)
    requires WF(t, h, lo, hi) && Occ(t, root, c) && i < |t.kids|
    ensures var k := t.kids[i];
            && Rep(pages, k) && Shaped(k) && Sep(k) && AllBelow(Foot(k), n) && Occ(k, false, c)
            && h > 0 && WF(k, h - 1, Lo(t.keys, i, lo), Hi(t.keys, i, hi))
            && Pid(k) in pages && pages[Pid(k)] == View(k)
  {
    assert t.kids[i] in t.kids;
    KidFoot(t.kids, t.kids[i]);
    KidSep(t.kids, i);
    ShapedAt(t.kids, i);
    WFsAt(t.keys, t.kids, h - 1, lo, hi, i);
  }

  /** Child i became `res`: the row of children is on the pages and the node's own page is as it was. */
  lemma BackFromChild(pages: Pages, pages': Pages, t: Tree, i: nat, res: Ins, c: Caps, n: nat, n': nat)
    requires t.Node? && Rep(pages, t) && Sep(t) && AllBelow(Foot(t), n) && i < |t.kids| == |t.keys| + 1 && n <= n'
    requires SameOutside(pages, pages', Foot(t.kids[i])) && RepAll(pages', KidsOf(res))
    requires SepOf(res) && Grown(Foot(t.kids[i]), FootOf(res), n, n') && Pid(res.t) == Pid(t.kids[i])
    ensures var kids' := Splice(t.kids, i, 1, KidsOf(res));
            && RepAll(pages', kids') && t.pid !in FootAll(kids') && AllBelow(FootAll(kids'), n')
            && Pids(kids') == if res.Done? then Pids(t.kids) else Splice(Pids(t.kids), i + 1, 0, [Pid(res.right)])
    ensures t.pid in pages' && pages'[t.pid] == View(t)
    ensures SameOutside(pages, pages', Foot(t))
  {
    RepPut(pages, pages', t.kids, i, res);
    if res.Done? { OneKidSep(res.t); } else { TwoKidsSep(res.t, res.right); }
    PutKids(t.kids, i, KidsOf(res), n, n');
    KidSep(t.kids, i);
    PidsSplice(t.kids, i, res.t);
    hide Sep, SepAll, FootAll, Rep;
  }

  /** Writing a page that no listed tree uses. */
  lemma RepAllWrite(pages: Pages, kids: seq<Tree>, p: nat, node: PageNode)
    requires RepAll(pages, kids) && p !in FootAll(kids)
    ensures RepAll(pages[p := node], kids)
  {
    RepAllFoot(pages, kids);
    RepAllFrame(pages, pages[p := node], kids);
  }

  lemma NodeFacts(t: Tree, root: bool, c: Caps, h: nat, lo: Bound, hi: Bound, n: nat)
    requires t.Node? && WF(t, h, lo, hi) && Occ(t, root, c) && AllBelow(Foot(t), n)
    ensures h > 0 && |t.kids| == |t.keys| + 1 && Sorted(t.keys) && |t.keys| <= c.inner && t.pid in Foot(t) && t.pid < n
  {
    WFsSorted(t.keys, t.kids, h - 1, lo, hi);
  }

  lemma InsTStep(t: Tree, e: Entry, c: Caps, n: nat)
    requires t.Node? && Shaped(t)
    ensures var i := UpperBound(t.keys, e.key);
            && i < |t.kids| == |t.keys| + 1 && Shaped(t.kids[i])
            && var (kidRes, n1) := InsT(t.kids[i], e, c, n);
            && InsT(t, e, c, n) == NodePut(t.pid, t.keys, t.kids, i, kidRes, c, n1)
  {
    ShapedAt(t.kids, UpperBound(t.keys, e.key));
  }

  /** The child did not split, so the node's page still shows the node. */
  lemma DoneAbove(pages: Pages, t: Tree, i: nat, res: Ins, c: Caps, n: nat)
    requires t.Node? && i < |t.kids| == |t.keys| + 1 && res.Done? && t.pid in pages && pages[t.pid] == View(t)
    requires var kids' := Splice(t.kids, i, 1, KidsOf(res)); RepAll(pages, kids') && Pids(kids') == Pids(t.kids)
    ensures InsView(pages, NodePut(t.pid, t.keys, t.kids, i, res, c, n).0, View(t), None)
  {
    RepNode(pages, Node(t.pid, t.keys, Splice(t.kids, i, 1, [res.t])));
  }

  lemma InsertPages(t: Tree, e: Entry, c: Caps, alloc: nat)
    requires Shaped(t) && Sep(t) && AllBelow(Foot(t), alloc)
    ensures var (t', n) := Insert(t, e, c, alloc); Sep(t') && AllBelow(Foot(t'), n)
  {
    InsTPages(t, e, c, alloc);
    var (res, n) := InsT(t, e, c, alloc);
    if res.Split? {
      TwoKidsSep(res.t, res.right);
    }
  }

  lemma OneRep(pages: Pages, res: Ins)
    requires res.Done? && RepAll(pages, KidsOf(res))
    ensures Rep(pages, res.t)
  {
    assert res.t in KidsOf(res);
  }

  lemma RootOnTop(pages: Pages, pages': Pages, res: Ins, n: nat, root: PageNode)
    requires res.Split? && RepAll(pages, KidsOf(res)) && KeysBelow(pages, n)
    requires root == InternalNode([res.key], [Pid(res.t), Pid(res.right)])
    requires n in pages' && pages'[n] == root && SameOutside(pages, pages', {})
    ensures Rep(pages', Node(n, [res.key], [res.t, res.right])) && View(Node(n, [res.key], [res.t, res.right])) == root
  {
    RepAllFoot(pages, KidsOf(res));
    RepAllFrame(pages, pages', KidsOf(res));
    assert Pids([res.t, res.right]) == [Pid(res.t), Pid(res.right)];
    hide Rep, Pids;
    RepNode(pages', Node(n, [res.key], [res.t, res.right]));
  }

  lemma SpliceSize<T>(s: seq<T>, i: nat, x: T)
    requires i <= |s|
    ensures |Splice(s, i, 0, [x])| == |s| + 1
  {
  }

  lemma RangeStep(es: seq<Entry>, q: nat, b: Bounds)
    requires q < |es|
    ensures RangeTo(es, q + 1, b) == RangeTo(es, q, b) + if InBounds(es[q].key, b) then [es[q].rid] else []
  {
  }

  // ----- leaf pages

  /** A leaf page as the reader needs it: parallel lists, keys strictly increasing. */
  predicate LeafOk(n: PageNode) {
    n.LeafNode? && |n.rids| == |n.keys| && forall i, j :: 0 <= i < j < |n.keys| ==> n.keys[i] < n.keys[j]
  }

  function EntriesOf(n: PageNode): (es: seq<Entry>)
    requires n.LeafNode? && |n.rids| == |n.keys|
    ensures |es| == |n.keys| && forall i :: 0 <= i < |es| ==> es[i] == Entry(n.keys[i], n.rids[i])
  {
    seq(|n.keys|, i requires 0 <= i < |n.keys| => Entry(n.keys[i], n.rids[i]))
  }

  lemma ViewOk(l: LeafRec)
    requires Increasing(l.es)
    ensures LeafOk(View(Leaf(l))) && EntriesOf(View(Leaf(l))) == l.es
  {
    var n := View(Leaf(l));
    forall i, j | 0 <= i < j < |n.keys| ensures n.keys[i] < n.keys[j] {
      assert l.es[i].key < l.es[j].key;
    }
  }
}
