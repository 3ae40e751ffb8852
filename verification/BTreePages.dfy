/** The index on its pages: `BTreeIndex` reads and rewrites node pages one at a time. Each method is
    proved against the tree operation it performs. */
module BTreePages {
  import opened Common
  import opened BTree
  import opened BTreeInsert
  import opened BTreeDelete
  import opened BTreeDeleteProof
  import opened BTreeDeleteExact
  import opened BTreeChain
  import opened BTreeRep
  import opened BTreeDeletePages
  import opened BTreeWalk
  import opened BTreeOrphan
  import opened BTreeTrail

  class BTreeIndex {
    const caps: Caps
    var pages: Pages
    var numPages: nat
    var rootPid: nat
    var rootView: PageNode
    ghost var tree: Tree
    ghost var height: nat
    ghost var trail: seq<nat>

    ghost predicate Valid()
      reads this
    {
      && Rep(pages, tree) && rootPid == Pid(tree) && rootView == View(tree)
      && WF(tree, height, None, None) && Shaped(tree) && Occ(tree, true, caps) && Roomy(caps)
      && Sep(tree) && AllBelow(Foot(tree), numPages) && KeysBelow(pages, numPages)
      && Threads(pages, trail, Leaves(tree))
    }

    /** The map the index stands for. */
    ghost function Map(): map<int, Rid>
      reads this
    {
      Content(Entries(tree))
    }

    ghost predicate ChainWhole()
      reads this
    {
      Chained(Leaves(tree))
    }

    /** A fresh zeroed page reads as an empty leaf. */
    constructor (caps: Caps)
      requires Roomy(caps)
      ensures Valid() && Map() == map[] && ChainWhole() && this.caps == caps
      ensures rootPid == 4 && numPages == 5
    {
      this.caps := caps;
      var empty := LeafNode([], [], None);
      pages, numPages, rootPid, rootView := map[4 := empty], 5, 4, empty;
      tree, height, trail := Leaf(LeafRec(4, [], None)), 0, [4];
      new;
      OneLeaf(tree.l);
      OneLeafTrail(pages, tree.l);
    }

    method AllocatePage() returns (pid: nat)
      requires KeysBelow(pages, numPages)
      modifies this`pages, this`numPages
      ensures pid == old(numPages) && numPages == pid + 1 && KeysBelow(pages, numPages)
      ensures pages == old(pages)[pid := LeafNode([], [], None)]
    {
      pid := numPages;
      numPages := numPages + 1;
      pages := pages[pid := LeafNode([], [], None)];
    }

    predicate FitsPage(node: PageNode) {
      if node.LeafNode? then |node.keys| <= caps.leaf else |node.keys| <= caps.inner
    }

    /** `_write_leaf` / `_write_internal`: false stands for BTreeOverflowError. */
    method WriteNode(pid: nat, node: PageNode) returns (ok: bool)
      modifies this`pages
      ensures ok == FitsPage(node)
      ensures pages == if ok then old(pages)[pid := node] else old(pages)
    {
      ok := FitsPage(node);
      if ok {
        pages := pages[pid := node];
      }
    }

    /** `_find_child`. */
    method FindChild(node: PageNode, key: int) returns (i: nat)
      requires node.InternalNode? && |node.children| == |node.keys| + 1 && Sorted(node.keys)
      ensures i == UpperBound(node.keys, key)
    {
      var idx := UpperBoundSearch(node.keys, key);
      i := if idx < |node.children| - 1 then idx else |node.children| - 1;
    }

    /** Descend to the leaf that owns the key. */
    method Descend(key: int) returns (node: PageNode, ghost l: LeafRec)
      requires Valid()
      ensures node == View(Leaf(l)) && Increasing(l.es) && Find(tree, key) == Lookup(l.es, key)
      ensures exists j :: OwnsAt(Leaves(tree), j, l, key)
    {
      node := rootView;
      ghost var t, h, lo, hi := tree, height, None, None;
      ghost var a, b: seq<LeafRec> := [], [];
      ReachRoot(pages, tree, height, key);
      hide Reached;
      while node.InternalNode?
        invariant node == View(t) && Reached(pages, tree, t, h, lo, hi, key, a, b)
        decreases t
      {
        ReachedSorted(pages, tree, t, h, lo, hi, key, a, b);
        var i := FindChild(node, key);
        a, b := ReachChild(pages, tree, t, h, lo, hi, key, a, b);
        node := pages[node.children[i]];
        lo, hi := Lo(t.keys, i, lo), Hi(t.keys, i, hi);
        t, h := t.kids[i], h - 1;
      }
      l := t.l;
      Arrived(pages, tree, l, h, lo, hi, key, a, b);
      hide Reached, Rep, WF, Find, Leaves;
    }

    /** `search`. */
    method Search(key: int) returns (rids: seq<Rid>)
      requires Valid()
      ensures rids == if key in Map() then [Map()[key]] else []
    {
      var node, l := Descend(key);
      IncreasingSorted(l.es);
      var start := LowerBoundSearch(node.keys, key);
      var end := UpperBoundSearch(node.keys, key);
      SliceIsLookup(l.es, key);
      rids := node.rids[start..end];
      FindIsLookup(tree, height, None, None, key);
      EntriesSorted(tree, height, None, None);
      ContentIs(Entries(tree), key, Rid(0, 0));
    }

    /** The leaf walk behind `range` and `IndexLookup._walk_leaves`: skip to the lower end, stop at the
        first key past the upper end, follow `next` in between. It follows whatever the pages say, from a
        leaf page whose chain ends. */
    method ScanChain(first: PageNode, ghost path: seq<LeafRec>, b: Bounds) returns (out: seq<Rid>)
      requires LinkedOn(pages, path) && first == pages[path[0].pid]
      ensures out == WalkOf(path, b)
    {
      var node := first;
      ghost var rest := path;
      out := [];
      hide LinkedOn, Stops, RangeOf, LeafOk;
      PathHead(pages, path);
      while true
        invariant LinkedOn(pages, rest) && rest != [] && rest[0].pid in pages && node == pages[rest[0].pid]
        invariant out + WalkOf(rest, b) == WalkOf(path, b)
        decreases |rest|
      {
        PathHead(pages, rest);
        var more, done := ScanLeaf(node, b, rest[0].es);
        WalkStep(out, rest, b);
        out := out + more;
        if done {
          return;
        }
        HeadLink(pages, rest);
        if node.next.None? {
          assert rest[1..] == [] && WalkOf([], b) == [];
          return;
        }
        LinkedTail(pages, rest);
        rest := rest[1..];
        PathHead(pages, rest);
        node := pages[node.next.value];
      }
    }

    /** One leaf of the walk. */
    method ScanLeaf(node: PageNode, b: Bounds, ghost es: seq<Entry>) returns (out: seq<Rid>, done: bool)
      requires LeafOk(node) && EntriesOf(node) == es
      ensures out == RangeOf(es, b) && done == Stops(es, b)
    {
      out, done := [], false;
      LeafFacts(node, es);
      hide Increasing, LowerBound, RangeTo, Sorted, LeafOk, Stops, EntriesOf, NonePast, PastHi, PassesLo;
      var start := 0;
      if b.lo.Some? {
        start := LowerBoundSearch(node.keys, b.lo.value);
      }
      SkipToStart(es, start, b);
      NonePastYet(es, start, b);
      var i := start;
      while i < |node.keys|
        invariant start <= i <= |es| && out == RangeTo(es, i, b) && NonePast(es, start, i, b)
      {
        RangeStep(es, i, b);
        if PastHi(node.keys[i], b) {
          RangeStops(es, i, b);
          StopsAt(es, start, i, b);
          return out, true;
        }
        NonePastStep(es, start, i, b);
        if PassesLo(node.keys[i], b) {
          out := out + [node.rids[i]];
        }
        i := i + 1;
      }
      NeverStops(es, start, b);
    }

    /** The path of pages that a scan from the leaf owning a key follows: it passes the tree's leaves
        from that one on. */
    ghost predicate PathOf(path: seq<LeafRec>, key: int)
      reads this
    {
      && LinkedOn(pages, path)
      && exists j: nat :: j < |Leaves(tree)| && OwnsAt(Leaves(tree), j, path[0], key) && OnTrail(path, Leaves(tree), j)
    }

    /** Any leaf of the tree begins a path that ends; it passes the leaves from there on. */
    lemma PathFromLeaf(j: nat) returns (path: seq<LeafRec>)
      requires Valid() && j < |Leaves(tree)|
      ensures LinkedOn(pages, path) && path[0] == Leaves(tree)[j] && OnTrail(path, Leaves(tree), j)
      ensures forall i :: 0 <= i < |path| ==> path[i].pid in trail
      ensures ChainWhole() ==> path == Leaves(tree)[j..]
    {
      path := PathFrom(pages, trail, tree, height, j);
      hide Rep, WF, Occ, Shaped, Sep, Foot, Leaves, OnPage, Threads, OnTrail;
      if ChainWhole() {
        WholePath(pages, tree, height, None, None, j);
        OnePath(pages, path, Leaves(tree)[j..]);
      }
    }

    /** `range`. In every reachable index the walk ends; what it yields is the walk along the pages'
        links, which is the range of the whole index as long as the chain is whole. */
    method Range(lo: int, hi: int, inclusive: bool) returns (out: seq<Rid>, ghost path: seq<LeafRec>)
      requires Valid()
      ensures lo > hi ==> out == []
      ensures lo <= hi ==> PathOf(path, lo) && out == WalkOf(path, Bounds(Some(lo), true, Some(hi), inclusive))
      ensures ChainWhole() ==> out == RangeOf(Entries(tree), Bounds(Some(lo), true, Some(hi), inclusive))
    {
      ghost var all, b := Entries(tree), Bounds(Some(lo), true, Some(hi), inclusive);
      path := [];
      if lo > hi {
        RangeNone(all, b);
        return [], path;
      }
      var node, l := Descend(lo);
      ghost var j :| OwnsAt(Leaves(tree), j, l, lo);
      out, path := ScanFrom(node, j, l, lo, Bounds(Some(lo), true, Some(hi), inclusive));
    }

    /** From the leaf that owns a key no smaller than the lower end's. */
    method ScanFrom(node: PageNode, ghost j: nat, ghost l: LeafRec, ghost key: int, b: Bounds)
      returns (out: seq<Rid>, ghost path: seq<LeafRec>)
      requires Valid() && node == View(Leaf(l)) && OwnsAt(Leaves(tree), j, l, key)
      requires forall e <- Cat(Leaves(tree)[..j]) :: !PassesLo(e.key, b)
      ensures PathOf(path, key) && out == WalkOf(path, b)
      ensures ChainWhole() ==> out == RangeOf(Entries(tree), b)
    {
      path := PathFromLeaf(j);
      EntriesSorted(tree, height, None, None);
      LeafOnPage(pages, tree, j);
      hide Rep, WF, Occ, Shaped, Sep, Foot, Leaves, Threads, WalkOf, RangeOf;
      out := ScanChain(node, path, b);
      if ChainWhole() {
        WalkFrom(Leaves(tree), j, b);
      }
    }

    /** `_smallest_key`: the first key of the leftmost leaf, if it has one. */
    method SmallestKey() returns (k: Option<int>)
      requires Valid()
      ensures k == if Leaves(tree) != [] && Leaves(tree)[0].es != [] then Some(Leaves(tree)[0].es[0].key) else None
    {
      var node := rootView;
      ghost var t, h := tree, height;
      ghost var lo, hi: Bound := None, None;
      SomeLeaf(tree, height, None, None);
      while node.InternalNode?
        invariant node == View(t) && Rep(pages, t) && WF(t, h, lo, hi)
        invariant Leaves(tree) != [] && Leaves(t) != [] && Leaves(t)[0] == Leaves(tree)[0]
        decreases t
      {
        FirstKid(pages, t, h, lo, hi);
        node := pages[node.children[0]];
        hi := Hi(t.keys, 0, hi);
        t, h := t.kids[0], h - 1;
      }
      k := if node.keys == [] then None else Some(node.keys[0]);
    }

    /** `IndexLookup._walk_leaves`. */
    method Walk(b: Bounds) returns (out: seq<Rid>, ghost path: seq<LeafRec>)
      requires Valid()
      ensures b.lo.Some? ==> PathOf(path, b.lo.value) && out == WalkOf(path, b)
      ensures b.lo.None? ==>
                if Entries(tree) == [] then out == [] else PathOf(path, Entries(tree)[0].key) && out == WalkOf(path, b)
      ensures ChainWhole() ==> out == RangeOf(Entries(tree), b)
    {
      path := [];
      var node;
      ghost var l, j;
      if b.lo.Some? {
        node, l := Descend(b.lo.value);
        j :| OwnsAt(Leaves(tree), j, l, b.lo.value);
        out, path := ScanFrom(node, j, l, b.lo.value, b);
      } else {
        var k := SmallestKey();
        SomeLeaf(tree, height, None, None);
        if k.None? {
          EmptyFirstLeaf(tree, height, caps);
          RangeNone(Entries(tree), b);
          return [], path;
        }
        FirstEntry(Leaves(tree));
        node, l := Descend(k.value);
        j :| OwnsAt(Leaves(tree), j, l, k.value);
        FirstLeafOwns(Leaves(tree), j, l);
        out, path := ScanFrom(node, j, l, k.value, b);
      }
    }

    // ----- insertion

    /** `split_leaf`: the left half stays, the right half goes to a fresh page. */
    method SplitLeaf(pid: nat, leaf: PageNode) returns (sep: int, right: nat)
      requires leaf.LeafNode? && |leaf.rids| == |leaf.keys| && 1 < |leaf.keys| <= caps.leaf + 1
      requires KeysBelow(pages, numPages) && pid < numPages
      modifies this`pages, this`numPages
      ensures KeysBelow(pages, numPages) && right == old(numPages) && numPages == right + 1
      ensures var mid := |leaf.keys| / 2;
              && sep == leaf.keys[mid]
              && pages == old(pages)[pid := LeafNode(leaf.keys[..mid], leaf.rids[..mid], Some(right))]
                            [right := LeafNode(leaf.keys[mid..], leaf.rids[mid..], leaf.next)]
    {
      var mid := |leaf.keys| / 2;
      right := AllocatePage();
      var l := LeafNode(leaf.keys[..mid], leaf.rids[..mid], Some(right));
      var r := LeafNode(leaf.keys[mid..], leaf.rids[mid..], leaf.next);
      var okLeft := WriteNode(pid, l);
      var okRight := WriteNode(right, r);
      assert okLeft && okRight;
      sep := r.keys[0];
    }

    /** `split_internal`: the middle key goes up and stays in neither half. */
    method SplitInternal(pid: nat, node: PageNode) returns (sep: int, right: nat)
      requires node.InternalNode? && |node.children| == |node.keys| + 1 && 0 < |node.keys| <= caps.inner + 1
      requires KeysBelow(pages, numPages) && pid < numPages
      modifies this`pages, this`numPages
      ensures KeysBelow(pages, numPages) && right == old(numPages) && numPages == right + 1
      ensures var mid := |node.keys| / 2;
              && sep == node.keys[mid]
              && pages == old(pages)[pid := InternalNode(node.keys[..mid], node.children[..mid + 1])]
                            [right := InternalNode(node.keys[mid + 1..], node.children[mid + 1..])]
    {
      var mid := |node.keys| / 2;
      sep := node.keys[mid];
      var l := InternalNode(node.keys[..mid], node.children[..mid + 1]);
      var r := InternalNode(node.keys[mid + 1..], node.children[mid + 1..]);
      right := AllocatePage();
      var okLeft := WriteNode(pid, l);
      var okRight := WriteNode(right, r);
      assert okLeft && okRight;
    }

    /** The subtree t is on its own pages, all of them allocated. */
    ghost predicate Holds(t: Tree)
      reads this
    {
      Rep(pages, t) && Shaped(t) && Sep(t) && AllBelow(Foot(t), numPages) && KeysBelow(pages, numPages)
    }

    /** The leaf case of `_insert_into`. */
    method InsertIntoLeaf(pid: nat, node: PageNode, key: int, rid: Rid, ghost t: Tree)
      returns (node': PageNode, up: Option<(int, nat)>, ghost res: Ins)
      requires t.Leaf? && Holds(t) && pid == Pid(t) && node == View(t) && Increasing(t.l.es)
      requires |t.l.es| <= caps.leaf && Roomy(caps)
      modifies this`pages, this`numPages
      ensures (res, numPages) == InsT(t, Entry(key, rid), caps, old(numPages))
      ensures InsView(pages, res, node', up)
      ensures SameOutside(old(pages), pages, Foot(t)) && KeysBelow(pages, numPages)
    {
      IncreasingSorted(t.l.es);
      var pos := UpperBoundSearch(node.keys, key);
      node' := LeafNode(Splice(node.keys, pos, 0, [key]), Splice(node.rids, pos, 0, [rid]), node.next);
      ghost var l, e, pages0, n0 := t.l, Entry(key, rid), pages, numPages;
      res := InsT(t, e, caps, n0).0;
      LeafPutView(l, e);
      assert Foot(t) == {pid} && pid in Foot(t);
      hide UpperBound, Increasing, Keys, Rids, LeafPut, Foot, InsView, InsT;
      var ok := WriteNode(pid, node');
      up := None;
      if ok {
        LeafDone(pages0, l, e, caps, n0, node');
      } else {
        var sep, right := SplitLeaf(pid, node');
        up := Some((sep, right));
        LeafSplit(pages0, l, e, caps, n0, node');
      }
    }

    /** A node whose child split: take in the separator and the new page, splitting on overflow. */
    method TakeIn(pid: nat, node: PageNode, i: nat, sep: int, right: nat, ghost keys: seq<int>, ghost kids: seq<Tree>)
      returns (node': PageNode, up: Option<(int, nat)>, ghost res: Ins)
      requires node.InternalNode? && |node.children| == |node.keys| + 1 && i <= |node.keys| <= caps.inner
               && caps.inner > 0
      requires keys == Splice(node.keys, i, 0, [sep]) && Pids(kids) == Splice(node.children, i + 1, 0, [right])
      requires RepAll(pages, kids) && pid !in FootAll(kids)
      requires pid < numPages && AllBelow(FootAll(kids), numPages) && KeysBelow(pages, numPages)
      modifies this`pages, this`numPages
      ensures |kids| == |keys| + 1 && |keys| > 0 && (res, numPages) == Overflow(pid, keys, kids, caps, old(numPages))
      ensures InsView(pages, res, node', up)
      ensures SameOutside(old(pages), pages, {pid}) && KeysBelow(pages, numPages)
    {
      hide FootAll, Splice, RepAll, InsView, Overflow, Pids, Roomy;
      SpliceSize(node.keys, i, sep);
      SpliceSize(node.children, i + 1, right);
      node' := InternalNode(Splice(node.keys, i, 0, [sep]), Splice(node.children, i + 1, 0, [right]));
      ghost var pages0, n0 := pages, numPages;
      res := Overflow(pid, keys, kids, caps, n0).0;
      up := None;
      var ok := WriteNode(pid, node');
      if ok {
        NodeDone(pages0, pid, keys, kids, caps, n0);
      } else {
        var s, r := SplitInternal(pid, node');
        up := Some((s, r));
        NodeSplit(pages0, pid, keys, kids, caps, n0, node');
      }
    }

    /** `_insert_into`. */
    method InsertInto(pid: nat, node: PageNode, key: int, rid: Rid,
                      ghost t: Tree, ghost root: bool, ghost h: nat, ghost lo: Bound, ghost hi: Bound)
      returns (node': PageNode, up: Option<(int, nat)>, ghost res: Ins)
      requires Holds(t) && pid == Pid(t) && node == View(t)
      requires WF(t, h, lo, hi) && Occ(t, root, caps) && Roomy(caps)
      modifies this`pages, this`numPages
      ensures (res, numPages) == InsT(t, Entry(key, rid), caps, old(numPages))
      ensures InsView(pages, res, node', up)
      ensures SameOutside(old(pages), pages, Foot(t)) && KeysBelow(pages, numPages)
      decreases t
    {
      if node.LeafNode? {
        node', up, res := InsertIntoLeaf(pid, node, key, rid, t);
        return;
      }
      NodeFacts(t, root, caps, h, lo, hi, numPages);
      var i := FindChild(node, key);
      ghost var e, kid, pages0, n0 := Entry(key, rid), t.kids[i], pages, numPages;
      IntoChild(pages, t, i, root, caps, numPages, h, lo, hi);
      hide Rep, Shaped, Sep, Foot, WF, Occ;
      var child := node.children[i];
      var kidNode, kidUp;
      ghost var kidRes;
      kidNode, kidUp, kidRes := InsertInto(child, pages[child], key, rid, kid, false, h - 1, Lo(t.keys, i, lo),
                                           Hi(t.keys, i, hi));
      InsTPages(kid, e, caps, n0);
      BackFromChild(pages0, pages, t, i, kidRes, caps, n0, numPages);
      InsTStep(t, e, caps, n0);
      node', up := node, None;
      if kidUp.None? {
        res := InsT(t, e, caps, n0).0;
        DoneAbove(pages, t, i, kidRes, caps, numPages);
      } else {
        node', up, res := TakeIn(pid, node, i, kidUp.value.0, kidUp.value.1,
                                 Splice(t.keys, i, 0, [kidRes.key]), Splice(t.kids, i, 1, KidsOf(kidRes)));
      }
    }

    /** `insert`: a root that split gets a new root above it. With a key the index does not hold, the
        invariant is kept and the map gains exactly that key. */
    method Insert(key: int, rid: Rid)
      requires Valid()
      modifies this`pages, this`numPages, this`rootPid, this`rootView, this`tree, this`height, this`trail
      ensures (tree, numPages) == BTreeInsert.Insert(old(tree), Entry(key, rid), caps, old(numPages))
      ensures Rep(pages, tree) && rootPid == Pid(tree) && rootView == View(tree)
      ensures old(ChainWhole()) ==> ChainWhole()
      ensures old(key !in Map()) ==> Valid() && Map() == old(Map())[key := rid]
      ensures old(key !in Map()) ==>
                forall p | p in old(trail) && p !in Own(Leaves(old(tree))) ::
                  p in trail && p in old(pages) && p in pages && pages[p] == old(pages)[p]
    {
      ghost var e, t0, n0, h0, pages0 := Entry(key, rid), tree, numPages, height, pages;
      hide WF, Occ, Sep, Foot, AllBelow, Rep, Shaped, Leaves, Content, Entries, InsT, RepAll, Threads, Puts, Own;
      var node, up;
      ghost var res;
      node, up, res := InsertInto(rootPid, rootView, key, rid, tree, true, height, None, None);
      InsTPages(t0, e, caps, n0);
      InsertPages(t0, e, caps, n0);
      if up.Some? {
        ghost var pages1 := pages;
        var pid := AllocatePage();
        var root := InternalNode([up.value.0], [rootPid, up.value.1]);
        var ok := WriteNode(pid, root);
        RootOnTop(pages1, pages, res, pid, root);
        rootPid, rootView := pid, root;
      } else {
        rootView := node;
        OneRep(pages, res);
      }
      tree := BTreeInsert.Insert(t0, e, caps, n0).0;
      if Chained(Leaves(t0)) {
        InsertChained(t0, e, caps, n0);
      }
      if e.key !in Content(Entries(t0)) {
        hide BTreeInsert.Insert;
        assert n0 !in pages0;
        height, trail := InsertOutcome(pages0, pages, t0, e, caps, n0, h0, trail);
      }
    }

    // ----- deletion

    /** Where the leaf holds the pair: look at the rids between the two bounds of the key. */
    method FindEntry(node: PageNode, key: int, rid: Rid, ghost es: seq<Entry>) returns (pos: Option<nat>)
      requires node.LeafNode? && node.keys == Keys(es) && node.rids == Rids(es) && Increasing(es)
      ensures pos == IndexOf(es, Entry(key, rid))
    {
      IncreasingSorted(es);
      BoundsAround(es, key);
      var start := LowerBoundSearch(node.keys, key);
      var end := UpperBoundSearch(node.keys, key);
      hide LowerBound, UpperBound, Increasing, IndexOf;
      var i := start;
      while i < end && node.rids[i] != rid
        invariant start <= i && forall q :: start <= q < i && q < end ==> es[q].rid != rid
      {
        i := i + 1;
      }
      FoundAt(es, Entry(key, rid), start, end, i);
      pos := if i < end then Some(i) else None;
    }

    /** `_delete_from_leaf`. */
    method DeleteFromLeaf(pid: nat, node: PageNode, key: int, rid: Rid, ghost t: Tree)
      returns (node': PageNode, removed: bool, under: bool)
      requires t.Leaf? && Holds(t) && pid == Pid(t) && node == View(t) && Increasing(t.l.es) && |t.l.es| <= caps.leaf
      modifies this`pages
      ensures DeletedOn(old(pages), pages, t, DelT(t, Entry(key, rid)), node', removed, under)
              && KeysBelow(pages, numPages)
      ensures ChainSafe(old(pages), pages, t, DelT(t, Entry(key, rid)).t)
    {
      ghost var es, pages0 := t.l.es, pages;
      node', removed, under := node, false, false;
      var pos := FindEntry(node, key, rid, es);
      hide Increasing, IndexOf;
      if pos.None? {
        return;
      }
      LeafWithout(pages0, t.l, pos.value);
      hide DeletedOn, DelT, Keys, Rids;
      node' := LeafNode(Splice(node.keys, pos.value, 1, []), Splice(node.rids, pos.value, 1, []), node.next);
      var ok := WriteNode(pid, node');
      removed, under := true, |node'.keys| < MIN_LEAF;
    }

    predicate HasSpare(node: PageNode) {
      if node.LeafNode? then |node.keys| > MIN_LEAF else |node.children| > MIN_KIDS
    }

    /** Write two reworked neighbours and then the parent. */
    method WriteThree(p: nat, a: PageNode, q: nat, b: PageNode, pid: nat, parent: PageNode)
      requires FitsPage(a) && FitsPage(b) && FitsPage(parent)
      modifies this`pages
      ensures pages == old(pages)[p := a][q := b][pid := parent]
    {
      var ok := WriteNode(p, a);
      ok := WriteNode(q, b);
      ok := WriteNode(pid, parent);
    }

    /** The last entry or child of the left sibling goes to the front of the child. */
    method ShiftFromLeft(sibling: PageNode, child: PageNode, ghost x: Tree, ghost y: Tree)
      returns (sep: int, sibling': PageNode, child': PageNode)
      requires sibling == View(x) && child == View(y) && Spare(x) && SameKind(x, y) && Shaped(x)
      ensures var (s, a, b) := TakeLeft(x, y); sep == s && sibling' == View(a) && child' == View(b)
      ensures |sibling'.keys| == |sibling.keys| - 1 && |child'.keys| == |child.keys| + 1
    {
      if x.Leaf? { TakeLeftLeafView(x, y); } else { NodeShape(x); TakeLeftNodeView(x, y); }
      hide TakeLeft, Shaped;
      var n := |sibling.keys| - 1;
      sep := sibling.keys[n];
      if sibling.LeafNode? {
        sibling' := LeafNode(sibling.keys[..n], sibling.rids[..n], sibling.next);
        child' := LeafNode([sep] + child.keys, [sibling.rids[n]] + child.rids, child.next);
      } else {
        sibling' := InternalNode(sibling.keys[..n], sibling.children[..n + 1]);
        child' := InternalNode([sep] + child.keys, [sibling.children[n + 1]] + child.children);
      }
    }

    /** The first entry or child of the right sibling goes to the end of the child. */
    method ShiftFromRight(child: PageNode, sibling: PageNode, ghost x: Tree, ghost y: Tree)
      returns (child': PageNode, sibling': PageNode)
      requires child == View(x) && sibling == View(y) && Spare(y) && SameKind(x, y) && Shaped(y)
      ensures var (s, a, b) := TakeRight(x, y);
              child' == View(a) && sibling' == View(b) && sibling'.keys != []
              && sibling'.keys[0] == s
      ensures |sibling'.keys| == |sibling.keys| - 1 && |child'.keys| == |child.keys| + 1
    {
      if x.Leaf? { TakeRightLeafView(x, y); } else { NodeShape(y); TakeRightNodeView(x, y); }
      hide TakeRight, Shaped;
      var moved := sibling.keys[0];
      if sibling.LeafNode? {
        child' := LeafNode(child.keys + [moved], child.rids + [sibling.rids[0]], child.next);
        sibling' := LeafNode(sibling.keys[1..], sibling.rids[1..], sibling.next);
      } else {
        child' := InternalNode(child.keys + [moved], child.children + [sibling.children[0]]);
        sibling' := InternalNode(sibling.keys[1..], sibling.children[1..]);
      }
    }

    /** `borrow_from_sibling` with `prefer_left`. */
    method BorrowFromLeft(pid: nat, parent: PageNode, i: nat, ghost row: Row) returns (ok: bool, parent': PageNode)
      requires RowOn(pages, pid, parent, row) && Mendable(row, i, caps)
      modifies this`pages
      ensures ok == (i > 0 && Spare(row.kids[i - 1]))
      ensures !ok ==> parent' == parent && pages == old(pages)
      ensures ok ==>
                SameKind(row.kids[i - 1], row.kids[i]) && Became(old(pages), pages, pid, row.kids, parent',
                                                                 BorrowedLeft(row, i))
    {
      ok, parent' := false, parent;
      if i == 0 {
        return;
      }
      var p, q := parent.children[i - 1], parent.children[i];
      PairViews(pages, pid, parent, row, i, i - 1, caps);
      hide Rep, RepAll, Foot, FootAll, Sep, SepAll, Shaped, ShapedAll, Became, TakeLeft, BorrowedLeft, Mendable, RowOn;
      ghost var x, y := row.kids[i - 1], row.kids[i];
      var sibling, child := pages[p], pages[q];
      if !HasSpare(sibling) {
        return;
      }
      LeftBorrowed(pages, pid, parent, row, i);
      var sep;
      sep, sibling, child := ShiftFromLeft(sibling, child, x, y);
      parent' := InternalNode(Splice(parent.keys, i - 1, 1, [sep]), parent.children);
      WriteThree(p, sibling, q, child, pid, parent');
      ok := true;
    }

    /** `borrow_from_sibling` without `prefer_left`. */
    method BorrowFromRight(pid: nat, parent: PageNode, i: nat, ghost row: Row) returns (ok: bool, parent': PageNode)
      requires RowOn(pages, pid, parent, row) && Mendable(row, i, caps)
      modifies this`pages
      ensures ok == (i + 1 < |row.kids| && Spare(row.kids[i + 1]))
      ensures !ok ==> parent' == parent && pages == old(pages)
      ensures ok ==>
                SameKind(row.kids[i], row.kids[i + 1]) && Became(old(pages), pages, pid, row.kids, parent',
                                                                 BorrowedRight(row, i))
    {
      ok, parent' := false, parent;
      if i + 1 >= |parent.children| {
        return;
      }
      hide Rep, RepAll, Foot, FootAll, Sep, SepAll, Shaped, ShapedAll, Became, Occ, TakeRight, BorrowedRight;
      var p, q := parent.children[i], parent.children[i + 1];
      RowKid(pages, pid, parent, row, i);
      RowKid(pages, pid, parent, row, i + 1);
      RowPair(pages, pid, parent, row, i);
      Neighbours(row, i, caps);
      BorrowFits(row, i, caps);
      hide Mendable, Fits;
      ghost var x, y, pages0 := row.kids[i], row.kids[i + 1], pages;
      var child, sibling := pages[p], pages[q];
      if !HasSpare(sibling) {
        return;
      }
      RightMoves(x, y);
      child, sibling := ShiftFromRight(child, sibling, x, y);
      ghost var (s, a, b) := TakeRight(x, y);
      BorrowedRightIs(row, i);
      parent' := InternalNode(Splice(parent.keys, i, 1, [sibling.keys[0]]), parent.children);
      assert FitsPage(sibling) && FitsPage(child) && FitsPage(parent') && parent.keys == row.keys;
      hide RowOn, View, Splice, Spare;
      WriteThree(q, sibling, p, child, pid, parent');
      MovedRow(pages0, pid, parent, row, i, s, a, b);
      WritesCommute(pages0, p, child, q, sibling);
      ok := true;
    }

    /** `_merge_into_right`: children j and j+1 onto the page of j+1. */
    method MergeIntoRight(pid: nat, parent: PageNode, j: nat, ghost row: Row, ghost i: nat) returns (parent': PageNode)
      requires RowOn(pages, pid, parent, row) && Mendable(row, i, caps) && j <= i <= j + 1 < |row.kids|
      requires !Spare(row.kids[j]) && !Spare(row.kids[j + 1])
      modifies this`pages
      ensures SameKind(row.kids[j], row.kids[j + 1])
              && Became(old(pages), pages, pid, row.kids, parent', MergedRow(row, j))
    {
      RowKid(pages, pid, parent, row, j);
      RowKid(pages, pid, parent, row, j + 1);
      MergeFits(row, i, j, caps);
      ghost var x, y, pages0 := row.kids[j], row.kids[j + 1], pages;
      hide Rep, RepAll, Foot, FootAll, SepAll, ShapedAll, Became, Mendable, Shaped;
      var p := parent.children[j + 1];
      var left, right, sep := pages[parent.children[j]], pages[p], parent.keys[j];
      MergedView(x, sep, y);
      var merged := if left.LeafNode? then LeafNode(left.keys + right.keys, left.rids + right.rids, right.next)
                    else InternalNode(left.keys + [sep] + right.keys, left.children + right.children);
      parent' := InternalNode(Splice(parent.keys, j, 1, []), Splice(parent.children, j, 1, []));
      assert merged == View(Merged(x, sep, y)) && FitsPage(merged) && FitsPage(parent');
      hide RowOn, View, Merged;
      var ok := WriteNode(p, merged);
      ok := WriteNode(pid, parent');
      MergedOnRow(pages0, pid, parent, row, j);
    }

    /** `_try_borrow_or_merge`; `merge_with_sibling` always finds a sibling. */
    method TryBorrowOrMerge(pid: nat, parent: PageNode, i: nat, ghost row: Row) returns (parent': PageNode)
      requires RowOn(pages, pid, parent, row) && Mendable(row, i, caps)
      modifies this`pages
      ensures Rebalance(row.keys, row.kids, i).Some?
      ensures Became(old(pages), pages, pid, row.kids, parent', Rebalance(row.keys, row.kids, i).value)
    {
      RebalanceIs(row, i, caps);
      hide Rebalance, Became, BorrowedLeft, BorrowedRight, MergedRow;
      var ok;
      ok, parent' := BorrowFromLeft(pid, parent, i, row);
      if ok {
        return;
      }
      ok, parent' := BorrowFromRight(pid, parent, i, row);
      if ok {
        return;
      }
      var j := if i + 1 < |parent.children| then i else i - 1;
      parent' := MergeIntoRight(pid, parent, j, row, i);
    }

    /** `delete_from_subtree`. */
    method DeleteFrom(pid: nat, node: PageNode, key: int, rid: Rid,
                      ghost t: Tree, ghost root: bool, ghost h: nat, ghost lo: Bound, ghost hi: Bound)
      returns (node': PageNode, removed: bool, under: bool)
      requires Holds(t) && pid == Pid(t) && node == View(t) && Above(lo, key) && Below(key, hi)
      requires WF(t, h, lo, hi) && Occ(t, root, caps) && Roomy(caps)
      modifies this`pages
      ensures DeletedOn(old(pages), pages, t, DelT(t, Entry(key, rid)), node', removed, under)
              && KeysBelow(pages, numPages)
      ensures ChainSafe(old(pages), pages, t, DelT(t, Entry(key, rid)).t)
      ensures OrphanStays(pages, t, DelT(t, Entry(key, rid)).t, AbandonedLeaf(t, Entry(key, rid)))
      decreases t
    {
      if node.LeafNode? {
        node', removed, under := DeleteFromLeaf(pid, node, key, rid, t);
        NoOrphan(pages, t, DelT(t, Entry(key, rid)).t);
        return;
      }
      NodeFacts(t, root, caps, h, lo, hi, numPages);
      var i := FindChild(node, key);
      ghost var e, kid, pages0, lo', hi' := Entry(key, rid), t.kids[i], pages, Lo(t.keys, i, lo), Hi(t.keys, i, hi);
      IntoChild(pages, t, i, root, caps, numPages, h, lo, hi);
      DelStep(t, e);
      assert Above(lo', key) && Below(key, hi');
      RowFits(t, root, caps);
      hide Rep, Shaped, Sep, Foot, WF, Occ, DelT, NodeDel, RowOn, UpperBound, AbandonedLeaf, OrphanStays;
      var child := node.children[i];
      var kidNode;
      kidNode, removed, under := DeleteFrom(child, pages[child], key, rid, kid, false, h - 1, lo', hi');
      ghost var d, pages1 := DelT(kid, e), pages;
      node' := node;
      if !removed || !under {
        Unmended(pages0, pages, t, e, i, kidNode, removed, under);
        under := false;
        return;
      }
      BackFromDelete(pages0, pages, t, i, d, kidNode, removed, under);
      ghost var row := Row(t.keys, Splice(t.kids, i, 1, [d.t]));
      UnderMendable(t, e, i, caps, root, h, lo, hi);
      hide Mendable;
      node' := TryBorrowOrMerge(pid, node, i, row);
      hide Became, Rebalance, FootAll, ChainSafe;
      Mended(pages0, pages1, pages, t, e, i, root, caps, h, lo, hi, node', numPages);
      var ok := WriteNode(pid, node');
      under := |node'.keys| + 1 < MIN_KIDS;
    }

    /** `delete`, with the collapse of a root left with one child. Outside the internal borrow it
        keeps the invariant and removes exactly that entry; the leaf chain survives exactly when no
        leaf with a predecessor was abandoned. Otherwise it makes a detour over the abandoned page. */
    method Delete(key: int, rid: Rid)
      requires Valid()
      modifies this`pages, this`rootPid, this`rootView, this`tree, this`height
      ensures tree == BTreeDelete.Delete(old(tree), Entry(key, rid))
      ensures Rep(pages, tree) && rootPid == Pid(tree) && rootView == View(tree)
      ensures !BorrowsInternally(old(tree), Entry(key, rid)) ==>
                && Valid()
                && Map() == if old(key in Map() && Map()[key] == rid) then old(Map()) - {key} else old(Map())
      ensures old(ChainWhole()) ==> (ChainWhole() <==> AbandonedLeaf(old(tree), Entry(key, rid)) in {None, Some(0)})
      ensures var e := Entry(key, rid);
              old(ChainWhole()) && !BorrowsInternally(old(tree), e) && AbandonedLeaf(old(tree), e).Some? ==>
                Detours(pages, Leaves(tree), AbandonedLeaf(old(tree), e).value)
    {
      ghost var e, t0, h0, pages0 := Entry(key, rid), tree, height, pages;
      hide WF, Occ, Sep, Foot, Rep, Shaped, Leaves, Content, Entries, DelT, BorrowsInternally, AbandonedLeaf, Chained,
          Threads, ChainSafe, OrphanStays;
      var node, removed, under := DeleteFrom(rootPid, rootView, key, rid, tree, true, height, None, None);
      ghost var d := DelT(t0, e);
      RootOn(pages, d.t);
      rootView := node;
      if node.InternalNode? && |node.children| == 1 {
        rootPid := node.children[0];
        rootView := pages[rootPid];
      }
      tree := BTreeDelete.Delete(t0, e);
      assert Rep(pages, tree) && rootPid == Pid(tree) && rootView == View(tree) && Sep(tree)
             && AllBelow(Foot(tree), numPages);
      hide RootOf, View, DeletedOn;
      height := DeleteOutcome(t0, e, caps, h0);
      if !BorrowsInternally(t0, e) {
        DeleteOnTrail(pages0, pages, t0, e, h0, height, trail);
        if Chained(Leaves(t0)) && AbandonedLeaf(t0, e).Some? {
          DetourLeft(pages0, pages, t0, e, h0, height);
        }
      }
    }
  }
}
