/** The sibling chain that range scans follow: kept by every insertion; kept by a deletion unless it
    merges a leaf that has a predecessor. */
module BTreeChain {
  import opened Common
  import opened BTree
  import opened BTreeInsert
  import opened BTreeDelete

  function NextOf(ls: seq<LeafRec>, i: nat): Option<nat> {
    if i + 1 < |ls| then Some(ls[i + 1].pid) else None
  }

  /** Each leaf names the next one in key order; the last names none. */
  predicate Chained(ls: seq<LeafRec>) {
    ls != [] && forall i :: 0 <= i < |ls| ==> ls[i].next == NextOf(ls, i)
  }

  lemma ChainPut(ls: seq<LeafRec>, j: nat, news: seq<LeafRec>, e: Entry)
    requires Chained(ls) && j < |ls| && Puts(ls[j], news, e)
    ensures Chained(Splice(ls, j, 1, news))
  {
    var r, d := Splice(ls, j, 1, news), |news| - 1;
    forall i | 0 <= i < |r| ensures r[i].next == NextOf(r, i) {
      if i < j {
        assert r[i] == ls[i] && ls[i].next == NextOf(ls, i);
        assert r[i + 1] == if i + 1 < j then ls[i + 1] else news[0];
      } else if i < j + d {
        assert r[i] == news[0] && r[i + 1] == news[1];
      } else if i == j + d {
        assert r[i] == news[d] && ls[j].next == NextOf(ls, j);
        assert j + 1 < |ls| ==> r[i + 1] == ls[j + 1];
      } else {
        assert r[i] == ls[i - d] && ls[i - d].next == NextOf(ls, i - d);
        assert i + 1 < |r| ==> r[i + 1] == ls[i - d + 1];
      }
    }
  }

  /** Insertion keeps the chain whole, through any number of splits. */
  lemma InsertChained(t: Tree, e: Entry, c: Caps, alloc: nat)
    requires Shaped(t) && Chained(Leaves(t))
    ensures Chained(Leaves(Insert(t, e, c, alloc).0))
  {
    var j, news := InsTLeaves(t, e, c, alloc);
    ChainPut(Leaves(t), j, news, e);
    var (res, n) := InsT(t, e, c, alloc);
    if res.Split? {
      KidsLeaves(res);
    }
  }

  // ----- insert-only runs

  datatype Built = Built(t: Tree, alloc: nat)

  /** An index started on an empty leaf at page `pid`, after inserting `es` in order. */
  function Build(es: seq<Entry>, c: Caps, pid: nat): (b: Built)
    ensures Shaped(b.t)
  {
    if es == [] then Built(Leaf(LeafRec(pid, [], None)), pid + 1)
    else
      var b := Build(es[..|es| - 1], c, pid);
      InsertShaped(b.t, es[|es| - 1], c, b.alloc);
      var (t, n) := Insert(b.t, es[|es| - 1], c, b.alloc);
      Built(t, n)
  }

  lemma {:induction false} InsTShaped(t: Tree, e: Entry, c: Caps, alloc: nat)
    requires Shaped(t)
    ensures var res := InsT(t, e, c, alloc).0; Shaped(res.t) && (res.Split? ==> Shaped(res.right))
    decreases t
  {
    if t.Node? {
      var i := UpperBound(t.keys, e.key);
      ShapedAt(t.kids, i);
      InsTShaped(t.kids[i], e, c, alloc);
      var (res, n) := InsT(t.kids[i], e, c, alloc);
      if res.Done? {
        TwoShaped(res.t, res.t);
        ShapedSplice(t.kids, i, 1, [res.t]);
      } else {
        TwoShaped(res.t, res.right);
        ShapedSplice(t.kids, i, 1, [res.t, res.right]);
        var keys, kids := Splice(t.keys, i, 0, [res.key]), Splice(t.kids, i, 1, [res.t, res.right]);
        if |keys| > c.inner {
          var mid := |keys| / 2;
          assert kids == kids[..mid + 1] + kids[mid + 1..];
          ShapedAppend(kids[..mid + 1], kids[mid + 1..]);
        }
      }
    }
  }

  lemma InsertShaped(t: Tree, e: Entry, c: Caps, alloc: nat)
    requires Shaped(t)
    ensures Shaped(Insert(t, e, c, alloc).0)
  {
    InsTShaped(t, e, c, alloc);
    var res := InsT(t, e, c, alloc).0;
    if res.Split? {
      TwoShaped(res.t, res.right);
    }
  }

  predicate DistinctKeys(es: seq<Entry>) {
    forall i, j :: 0 <= i < j < |es| ==> es[i].key != es[j].key
  }

  /** After any sequence of inserts with pairwise distinct keys the index is a search tree of uniform
      height whose nodes fit their pages, its leaf chain is whole, and it holds exactly the map. */
  lemma {:induction false} InsertOnlyRun(es: seq<Entry>, c: Caps, pid: nat) returns (h: nat)
    requires DistinctKeys(es) && Roomy(c)
    ensures var t := Build(es, c, pid).t;
            && WF(t, h, None, None) && Occ(t, true, c) && Chained(Leaves(t))
            && Content(Entries(t)) == Content(es)
  {
    if es == [] {
      h := 0;
      OneLeaf(LeafRec(pid, [], None));
    } else {
      var rest, e := es[..|es| - 1], es[|es| - 1];
      h := InsertOnlyRun(rest, c, pid);
      var b := Build(rest, c, pid);
      assert e.key !in Content(rest);
      InsertRefinesMap(b.t, e, c, b.alloc, h, 0);
      InsertChained(b.t, e, c, b.alloc);
      var h', p := InsertKeeps(b.t, e, c, b.alloc, h);
      h := h';
    }
  }

  // ----- range scans

  /** The ends of a scan; None is an open end. */
  datatype Bounds = Bounds(lo: Option<int>, loInclusive: bool, hi: Option<int>, hiInclusive: bool)

  predicate PassesLo(k: int, b: Bounds) {
    b.lo.Some? ==> b.lo.value < k || (b.loInclusive && b.lo.value == k)
  }

  predicate PastHi(k: int, b: Bounds) {
    b.hi.Some? && (b.hi.value < k || (!b.hiInclusive && b.hi.value == k))
  }

  predicate InBounds(k: int, b: Bounds) {
    PassesLo(k, b) && !PastHi(k, b)
  }

  /** The rids of those of the first p entries that are in bounds, in order. */
  function RangeTo(es: seq<Entry>, p: nat, b: Bounds): seq<Rid>
    requires p <= |es|
  {
    if p == 0 then []
    else
      var rest := RangeTo(es, p - 1, b);
      if InBounds(es[p - 1].key, b) then rest + [es[p - 1].rid] else rest
  }

  /** What a scan must yield: the rids of the entries in bounds, in key order. */
  function RangeOf(es: seq<Entry>, b: Bounds): seq<Rid> {
    RangeTo(es, |es|, b)
  }

  /** Entries that are out of bounds add nothing. */
  lemma {:induction false} RangeSkip(es: seq<Entry>, p: nat, q: nat, b: Bounds)
    requires p <= q <= |es| && forall i :: p <= i < q ==> !InBounds(es[i].key, b)
    ensures RangeTo(es, q, b) == RangeTo(es, p, b)
  {
    if p < q {
      RangeSkip(es, p, q - 1, b);
    }
  }

  /** Once past the upper end of an increasing list, nothing more is in bounds. */
  lemma RangeStops(es: seq<Entry>, p: nat, b: Bounds)
    requires Increasing(es) && p < |es| && PastHi(es[p].key, b)
    ensures RangeOf(es, b) == RangeTo(es, p, b)
  {
    forall i | p <= i < |es| ensures !InBounds(es[i].key, b) {
      assert i > p ==> es[p].key < es[i].key;
    }
    RangeSkip(es, p, |es|, b);
  }

  // ----- deletion and the chain

  function Link(l: LeafRec): (nat, Option<nat>) {
    (l.pid, l.next)
  }

  function Links(ls: seq<LeafRec>): (r: seq<(nat, Option<nat>)>)
    ensures |r| == |ls| && forall i :: 0 <= i < |ls| ==> r[i] == Link(ls[i])
  {
    seq(|ls|, i requires 0 <= i < |ls| => Link(ls[i]))
  }

  /** Which child a merge abandons, if rebalancing child i merges. */
  function MergeIndex(kids: seq<Tree>, i: nat): Option<nat>
    requires i < |kids|
  {
    if (i > 0 && Spare(kids[i - 1])) || (i + 1 < |kids| && Spare(kids[i + 1])) then None
    else if i + 1 < |kids| then Some(i)
    else if i > 0 then Some(i - 1)
    else None
  }

  function Shift(at: Option<nat>, n: nat): Option<nat> {
    match at case None => None case Some(j) => Some(n + j)
  }

  /** The position, in chain order, of the leaf that the deletion abandons. */
  function AbandonedLeaf(t: Tree, e: Entry): Option<nat>
    requires Shaped(t)
    decreases t
  {
    match t
    case Leaf(_) => None
    case Node(_, keys, kids) =>
      var i := UpperBound(keys, e.key);
      ShapedAt(kids, i);
      var d := DelT(kids[i], e);
      if kids[i].Leaf? then
        if d.removed && d.under && MergeIndex(kids, i).Some? then Some(|LeavesAll(kids[..MergeIndex(kids, i).value])|)
        else None
      else
        Shift(AbandonedLeaf(kids[i], e), |LeavesAll(kids[..i])|)
  }

  /** All leaves at the same depth: siblings are of one kind. */
  predicate Uniform(t: Tree, h: nat)
    decreases t
  {
    match t
    case Leaf(_) => h == 0
    case Node(_, _, kids) => h > 0 && forall k | k in kids :: Uniform(k, h - 1)
  }

  ghost predicate Dropped(before: seq<LeafRec>, after: seq<LeafRec>, at: Option<nat>) {
    match at
    case None => Links(after) == Links(before)
    case Some(j) => j + 1 < |before| && Links(after) == Splice(Links(before), j, 1, [])
  }

  lemma LinksAppend(a: seq<LeafRec>, b: seq<LeafRec>)
    ensures Links(a + b) == Links(a) + Links(b)
  {
  }

  lemma DroppedIn(a: seq<LeafRec>, m: seq<LeafRec>, m': seq<LeafRec>, b: seq<LeafRec>, at: Option<nat>)
    requires Dropped(m, m', at)
    ensures Dropped(a + m + b, a + m' + b, Shift(at, |a|))
  {
    LinksAppend(a, m);
    LinksAppend(a + m, b);
    LinksAppend(a, m');
    LinksAppend(a + m', b);
    if at.Some? {
      var x, y, z, j := Links(a), Links(m), Links(b), at.value;
      assert x + Splice(y, j, 1, []) + z == Splice(x + y + z, |x| + j, 1, []);
    }
  }

  lemma TwoLeaves(a: Tree, b: Tree)
    ensures LeavesAll([a, b]) == Leaves(a) + Leaves(b)
  {
    assert [a, b] == [a] + [b];
    LeavesAppend([a], [b]);
    OneKid(a);
    OneKid(b);
  }

  lemma TakeLeftLinks(a: Tree, b: Tree)
    requires SameKind(a, b) && Shaped(a) && Spare(a)
    ensures var (_, a', b') := TakeLeft(a, b); Links(Leaves(a') + Leaves(b')) == Links(Leaves(a) + Leaves(b))
    ensures var (_, a', b') := TakeLeft(a, b); a.Node? ==> Leaves(a') + Leaves(b') == Leaves(a) + Leaves(b)
  {
    if a.Node? {
      var n := |a.keys|;
      var x, y, z := LeavesAll(a.kids[..n]), LeavesAll([a.kids[n]]), LeavesAll(b.kids);
      calc {
        LeavesAll(a.kids) + z;
      ==  { assert a.kids == a.kids[..n] + [a.kids[n]]; LeavesAppend(a.kids[..n], [a.kids[n]]); }
        (x + y) + z;
      ==
        x + (y + z);
      ==  { LeavesAppend([a.kids[n]], b.kids); }
        x + LeavesAll([a.kids[n]] + b.kids);
      }
    }
  }

  lemma TakeRightLinks(a: Tree, b: Tree)
    requires SameKind(a, b) && Shaped(b) && Spare(b)
    ensures var (_, a', b') := TakeRight(a, b); Links(Leaves(a') + Leaves(b')) == Links(Leaves(a) + Leaves(b))
    ensures var (_, a', b') := TakeRight(a, b); a.Node? ==> Leaves(a') + Leaves(b') == Leaves(a) + Leaves(b)
  {
    if a.Node? {
      var x, y, z := LeavesAll(a.kids), LeavesAll([b.kids[0]]), LeavesAll(b.kids[1..]);
      calc {
        x + LeavesAll(b.kids);
      ==  { assert b.kids == [b.kids[0]] + b.kids[1..]; LeavesAppend([b.kids[0]], b.kids[1..]); }
        x + (y + z);
      ==
        (x + y) + z;
      ==  { LeavesAppend(a.kids, [b.kids[0]]); }
        LeavesAll(a.kids + [b.kids[0]]) + z;
      }
    }
  }

  lemma MergedLinks(a: Tree, s: int, b: Tree)
    requires SameKind(a, b)
    ensures Dropped(Leaves(a) + Leaves(b), Leaves(Merged(a, s, b)), if a.Leaf? then Some(0) else None)
  {
    if a.Node? {
      LeavesAppend(a.kids, b.kids);
    }
  }

  /** A run of children becomes `mc`: what that does to the row's leaves. */
  lemma RunDropped(kids: seq<Tree>, i: nat, n: nat, mc: seq<Tree>, at: Option<nat>)
    requires i + n <= |kids| && Dropped(LeavesAll(kids[i..i + n]), LeavesAll(mc), at)
    ensures Dropped(LeavesAll(kids), LeavesAll(Splice(kids, i, n, mc)), Shift(at, |LeavesAll(kids[..i])|))
  {
    LeavesSplice(kids, i, n, mc);
    DroppedIn(LeavesAll(kids[..i]), LeavesAll(kids[i..i + n]), LeavesAll(mc), LeavesAll(kids[i + n..]), at);
    hide *;
  }

  lemma PairDropped(kids: seq<Tree>, j: nat, mc: seq<Tree>, at: Option<nat>)
    requires j + 1 < |kids| && Dropped(Leaves(kids[j]) + Leaves(kids[j + 1]), LeavesAll(mc), at)
    ensures Dropped(LeavesAll(kids), LeavesAll(Splice(kids, j, 2, mc)), Shift(at, |LeavesAll(kids[..j])|))
  {
    assert kids[j..j + 2] == [kids[j], kids[j + 1]];
    TwoLeaves(kids[j], kids[j + 1]);
    hide *;
    RunDropped(kids, j, 2, mc, at);
  }

  lemma RebalanceLinks(keys: seq<int>, kids: seq<Tree>, i: nat)
    requires i < |kids| == |keys| + 1 && ShapedAll(kids)
    requires Rebalance(keys, kids, i).Some?
    requires (i > 0 ==> SameKind(kids[i - 1], kids[i])) && (i + 1 < |kids| ==> SameKind(kids[i], kids[i + 1]))
    ensures Dropped(LeavesAll(kids), LeavesAll(Rebalance(keys, kids, i).value.kids),
                    if kids[i].Leaf? && MergeIndex(kids, i).Some?
                        then Some(|LeavesAll(kids[..MergeIndex(kids, i).value])|) else None)
  {
    ShapedAt(kids, i);
    if i > 0 { ShapedAt(kids, i - 1); }
    if i + 1 < |kids| { ShapedAt(kids, i + 1); }
    if i > 0 && Spare(kids[i - 1]) {
      var (_, a, b) := TakeLeft(kids[i - 1], kids[i]);
      TakeLeftLinks(kids[i - 1], kids[i]);
      TwoLeaves(a, b);
      PairDropped(kids, i - 1, [a, b], None);
    } else if i + 1 < |kids| && Spare(kids[i + 1]) {
      var (_, a, b) := TakeRight(kids[i], kids[i + 1]);
      TakeRightLinks(kids[i], kids[i + 1]);
      TwoLeaves(a, b);
      PairDropped(kids, i, [a, b], None);
    } else {
      var j := if i + 1 < |kids| then i else i - 1;
      var m := Merged(kids[j], keys[j], kids[j + 1]);
      MergedLinks(kids[j], keys[j], kids[j + 1]);
      OneKid(m);
      PairDropped(kids, j, [m], if kids[j].Leaf? then Some(0) else None);
    }
    hide Leaves, LeavesAll, Links, Splice, Shaped, ShapedAll;
  }

  lemma {:induction false} WFUniform(t: Tree, h: nat, lo: Bound, hi: Bound)
    requires WF(t, h, lo, hi)
    ensures Uniform(t, h)
    decreases t
  {
    if t.Node? {
      forall k | k in t.kids ensures Uniform(k, h - 1) {
        var i :| 0 <= i < |t.kids| && t.kids[i] == k;
        WFsLength(t.keys, t.kids, h - 1, lo, hi);
        WFsAt(t.keys, t.kids, h - 1, lo, hi, i);
        WFUniform(k, h - 1, Lo(t.keys, i, lo), Hi(t.keys, i, hi));
      }
    }
  }

  /** What a deletion does to the chain order, in every branch: nothing, or it drops one leaf. */
  lemma {:induction false} DelLinks(t: Tree, e: Entry, h: nat)
    requires Shaped(t) && Uniform(t, h)
    ensures Dropped(Leaves(t), Leaves(DelT(t, e).t), AbandonedLeaf(t, e))
    decreases t
  {
    if t.Node? {
      var i := UpperBound(t.keys, e.key);
      ShapedAt(t.kids, i);
      assert t.kids[i] in t.kids;
      DelLinks(t.kids[i], e, h - 1);
      NodeDelLinks(t, i, DelT(t.kids[i], e), AbandonedLeaf(t.kids[i], e), h);
    }
  }

  lemma NodeDelLinks(t: Tree, i: nat, d: Del, at: Option<nat>, h: nat)
    requires t.Node? && Shaped(t) && Uniform(t, h) && i < |t.kids| && Shaped(d.t) && SameKind(d.t, t.kids[i])
    requires Dropped(Leaves(t.kids[i]), Leaves(d.t), at) && (t.kids[i].Leaf? ==> at.None?)
    ensures Dropped(Leaves(t), Leaves(NodeDel(t.pid, t.keys, t.kids, i, d).t),
              if t.kids[i].Leaf? then
                if d.removed && d.under && MergeIndex(t.kids, i).Some?
                    then Some(|LeavesAll(t.kids[..MergeIndex(t.kids, i).value])|)
                else None
              else Shift(at, |LeavesAll(t.kids[..i])|))
  {
    var kids := t.kids;
    var kids' := Splice(kids, i, 1, [d.t]);
    TwoShaped(d.t, d.t);
    ShapedSplice(kids, i, 1, [d.t]);
    OneKidDropped(kids, i, d.t, at);
    if d.removed && d.under {
      NeighbourKinds(t, i, d.t, h);
      hide Shaped, ShapedAll, Uniform, LeavesAll, Splice;
      UnderDropped(t.keys, kids, kids', i, at);
    }
  }

  lemma NeighbourKinds(t: Tree, i: nat, k: Tree, h: nat)
    requires t.Node? && Uniform(t, h) && i < |t.kids| && SameKind(k, t.kids[i])
    ensures var kids' := Splice(t.kids, i, 1, [k]);
            && |kids'| == |t.kids| && kids'[i] == k && (forall j :: 0 <= j < |kids'| && j != i ==>
                                                          kids'[j] == t.kids[j])
            && (i > 0 ==> SameKind(kids'[i - 1], kids'[i])) && (i + 1 < |kids'| ==> SameKind(kids'[i], kids'[i + 1]))
  {
    assert t.kids[i] in t.kids;
    if i > 0 { assert t.kids[i - 1] in t.kids; }
    if i + 1 < |t.kids| { assert t.kids[i + 1] in t.kids; }
  }

  lemma UnderDropped(keys: seq<int>, kids: seq<Tree>, kids': seq<Tree>, i: nat, at: Option<nat>)
    requires i < |kids'| == |keys| + 1 == |kids| && ShapedAll(kids') && SameKind(kids'[i], kids[i])
    requires forall j :: 0 <= j < |kids'| && j != i ==> kids'[j] == kids[j]
    requires (i > 0 ==> SameKind(kids'[i - 1], kids'[i])) && (i + 1 < |kids'| ==> SameKind(kids'[i], kids'[i + 1]))
    requires kids[i].Leaf? ==> at.None?
    requires Dropped(LeavesAll(kids), LeavesAll(kids'), Shift(at, |LeavesAll(kids[..i])|))
    ensures var r := Rebalance(keys, kids', i);
            Dropped(LeavesAll(kids), LeavesAll(if r.Some? then r.value.kids else kids'),
              if kids[i].Leaf? then
                if MergeIndex(kids, i).Some? then Some(|LeavesAll(kids[..MergeIndex(kids, i).value])|) else None
              else Shift(at, |LeavesAll(kids[..i])|))
  {
    assert MergeIndex(kids', i) == MergeIndex(kids, i);
    if MergeIndex(kids, i).Some? {
      var j := MergeIndex(kids, i).value;
      assert kids'[..j] == kids[..j];
    }
    if Rebalance(keys, kids', i).Some? {
      RebalanceLinks(keys, kids', i);
    }
  }

  lemma OneKidDropped(kids: seq<Tree>, i: nat, k: Tree, at: Option<nat>)
    requires i < |kids| && Dropped(Leaves(kids[i]), Leaves(k), at)
    ensures Dropped(LeavesAll(kids), LeavesAll(Splice(kids, i, 1, [k])),
                    Shift(at, |LeavesAll(kids[..i])|))
  {
    assert kids[i..i + 1] == [kids[i]];
    OneKid(kids[i]);
    OneKid(k);
    hide *;
    RunDropped(kids, i, 1, [k], at);
  }

  predicate DistinctPids(ls: seq<LeafRec>) {
    forall i, j :: 0 <= i < j < |ls| ==> ls[i].pid != ls[j].pid
  }

  /** Exactly when a deletion keeps the chain that range scans need: it abandons no leaf, or the
      first one of the whole tree. Otherwise the predecessor still points to the abandoned page. */
  lemma DeleteChainExact(t: Tree, e: Entry, h: nat)
    requires Shaped(t) && WF(t, h, None, None) && Chained(Leaves(t)) && DistinctPids(Leaves(t))
    ensures Chained(Leaves(DelT(t, e).t)) <==> AbandonedLeaf(t, e) in {None, Some(0)}
  {
    WFUniform(t, h, None, None);
    DelLinks(t, e, h);
    var a, b := Leaves(t), Leaves(DelT(t, e).t);
    hide Leaves, DelT, AbandonedLeaf;
    ChainDropped(a, b, AbandonedLeaf(t, e));
  }

  lemma ChainDropped(a: seq<LeafRec>, b: seq<LeafRec>, at: Option<nat>)
    requires Chained(a) && DistinctPids(a) && Dropped(a, b, at)
    ensures Chained(b) <==> at in {None, Some(0)}
  {
    hide Chained, DistinctPids;
    match at
    case None =>
      assert |Links(b)| == |Links(a)|;
      assert b != [] by { ChainNotEmpty(a); }
      SameLinks(a, b, 0);
    case Some(j) =>
      DroppedAt(a, b, j);
      if j > 0 { StillNamed(a, b, j); } else { SameLinks(a, b, 1); }
  }

  lemma ChainNotEmpty(a: seq<LeafRec>)
    requires Chained(a)
    ensures a != []
  {
  }

  lemma DroppedAt(a: seq<LeafRec>, b: seq<LeafRec>, j: nat)
    requires Dropped(a, b, Some(j))
    ensures |b| == |a| - 1 && b != [] && forall i :: 0 <= i < |b| ==>
              Links(b)[i] == Links(a)[if i < j then i else i + 1]
  {
    assert |Links(b)| == |Links(a)| - 1;
  }

  /** The abandoned leaf is still named by the one before it. */
  lemma StillNamed(a: seq<LeafRec>, b: seq<LeafRec>, j: nat)
    requires Chained(a) && DistinctPids(a) && 0 < j < |a| - 1 == |b|
    requires forall i :: 0 <= i < |b| ==> Links(b)[i] == Links(a)[if i < j then i else i + 1]
    ensures !Chained(b)
  {
    assert Links(b)[j - 1] == Links(a)[j - 1] && Links(b)[j] == Links(a)[j + 1];
    assert a[j - 1].next == NextOf(a, j - 1);
    assert b[j - 1].next != NextOf(b, j - 1);
  }

  /** A chain without its first d leaves is a chain. */
  lemma SameLinks(a: seq<LeafRec>, b: seq<LeafRec>, d: nat)
    requires Chained(a) && b != [] && |b| + d == |a|
    requires forall i :: 0 <= i < |b| ==> Links(b)[i] == Links(a)[i + d]
    ensures Chained(b)
  {
    forall i | 0 <= i < |b| ensures b[i].next == NextOf(b, i) {
      assert Links(b)[i] == Links(a)[i + d] && a[i + d].next == NextOf(a, i + d);
      if i + 1 < |b| {
        assert Links(b)[i + 1] == Links(a)[i + 1 + d];
      }
    }
  }
}
