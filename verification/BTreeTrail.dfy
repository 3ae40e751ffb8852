/** The leaf pages a scan can pass, over whole runs. Deletions leave abandoned leaf pages in the chain;
    in every reachable index the chain still passes all leaves of the tree, in key order. */
module BTreeTrail {
  import opened Common
  import opened BTree
  import opened BTreeInsert
  import opened BTreeDelete
  import opened BTreeDeleteProof
  import opened BTreeDeleteExact
  import opened BTreeChain
  import opened BTreeRep
  import opened BTreeDeletePages
  import opened BTreeWalk
  import opened BTreeOrphan

  // ----- which pages of a path are the tree's

  function PidsOf(ls: seq<LeafRec>): (ps: seq<nat>)
    ensures |ps| == |ls| && forall i :: 0 <= i < |ls| ==> ps[i] == ls[i].pid
  {
    seq(|ls|, i requires 0 <= i < |ls| => ls[i].pid)
  }

  function Own(ls: seq<LeafRec>): (s: set<nat>)
    ensures forall p :: p in s <==> p in PidsOf(ls)
  {
    set p | p in PidsOf(ls)
  }

  function KeptIds(ps: seq<nat>, own: set<nat>): seq<nat> {
    if ps == [] then [] else (if ps[0] in own then [ps[0]] else []) + KeptIds(ps[1..], own)
  }

  function Kept(path: seq<LeafRec>, own: set<nat>): seq<LeafRec> {
    if path == [] then [] else (if path[0].pid in own then [path[0]] else []) + Kept(path[1..], own)
  }

  lemma Assoc<T>(x: seq<T>, y: seq<T>, z: seq<T>)
    ensures x + (y + z) == (x + y) + z
  {
  }

  lemma {:induction false} KeptIdsAppend(a: seq<nat>, b: seq<nat>, own: set<nat>)
    ensures KeptIds(a + b, own) == KeptIds(a, own) + KeptIds(b, own)
  {
    if a == [] {
      assert a + b == b;
    } else {
      var x := if a[0] in own then [a[0]] else [];
      calc {
        KeptIds(a + b, own);
      ==  { assert (a + b)[1..] == a[1..] + b && (a + b)[0] == a[0]; }
        x + KeptIds(a[1..] + b, own);
      ==  { KeptIdsAppend(a[1..], b, own); }
        x + (KeptIds(a[1..], own) + KeptIds(b, own));
      ==  { Assoc(x, KeptIds(a[1..], own), KeptIds(b, own)); }
        (x + KeptIds(a[1..], own)) + KeptIds(b, own);
      ==
        KeptIds(a, own) + KeptIds(b, own);
      }
    }
  }

  lemma {:induction false} KeptAppend(a: seq<LeafRec>, b: seq<LeafRec>, own: set<nat>)
    ensures Kept(a + b, own) == Kept(a, own) + Kept(b, own)
  {
    if a == [] {
      assert a + b == b;
    } else {
      var x := if a[0].pid in own then [a[0]] else [];
      calc {
        Kept(a + b, own);
      ==  { assert (a + b)[1..] == a[1..] + b && (a + b)[0] == a[0]; }
        x + Kept(a[1..] + b, own);
      ==  { KeptAppend(a[1..], b, own); }
        x + (Kept(a[1..], own) + Kept(b, own));
      ==  { Assoc(x, Kept(a[1..], own), Kept(b, own)); }
        (x + Kept(a[1..], own)) + Kept(b, own);
      ==
        Kept(a, own) + Kept(b, own);
      }
    }
  }

  lemma {:induction false} KeptIdsAgree(ps: seq<nat>, own: set<nat>, own': set<nat>)
    requires forall p | p in ps :: p in own <==> p in own'
    ensures KeptIds(ps, own) == KeptIds(ps, own')
  {
    if ps != [] {
      KeptIdsAgree(ps[1..], own, own');
    }
  }

  lemma {:induction false} KeptIdsAll(ps: seq<nat>, own: set<nat>)
    requires forall p | p in ps :: p in own
    ensures KeptIds(ps, own) == ps
  {
    if ps != [] {
      KeptIdsAll(ps[1..], own);
      assert ps == [ps[0]] + ps[1..];
    }
  }

  lemma {:induction false} KeptIdsTwice(ps: seq<nat>, own: set<nat>, own': set<nat>)
    requires own' <= own
    ensures KeptIds(KeptIds(ps, own), own') == KeptIds(ps, own')
  {
    if ps != [] {
      KeptIdsTwice(ps[1..], own, own');
      KeptIdsAppend(if ps[0] in own then [ps[0]] else [], KeptIds(ps[1..], own), own');
      assert [ps[0]][1..] == [];
    }
  }

  lemma {:induction false} KeptOnPath(path: seq<LeafRec>, own: set<nat>, i: nat)
    requires i < |Kept(path, own)|
    ensures Kept(path, own)[i] in path && Kept(path, own)[i].pid in own
  {
    if path[0].pid in own {
      if i > 0 {
        KeptOnPath(path[1..], own, i - 1);
      }
    } else {
      KeptOnPath(path[1..], own, i);
    }
  }

  lemma {:induction false} KeptPids(path: seq<LeafRec>, own: set<nat>)
    ensures PidsOf(Kept(path, own)) == KeptIds(PidsOf(path), own)
  {
    if path != [] {
      KeptPids(path[1..], own);
      assert PidsOf(path)[1..] == PidsOf(path[1..]);
      var a, b := if path[0].pid in own then [path[0]] else [], Kept(path[1..], own);
      assert PidsOf(a + b) == PidsOf(a) + PidsOf(b);
    }
  }

  // ----- the trail

  /** Distinct leaf pages, each naming the next, the last one none. */
  ghost predicate Trail(pages: Pages, trail: seq<nat>) {
    Distinct(trail) && forall k :: 0 <= k < |trail| ==> LinksOn(pages, trail, k)
  }

  ghost predicate LinksOn(pages: Pages, trail: seq<nat>, k: nat)
    requires k < |trail|
  {
    && trail[k] in pages && LeafOk(pages[trail[k]])
    && pages[trail[k]].next == if k + 1 < |trail| then Some(trail[k + 1]) else None
  }

  /** The trail passes the tree's leaves in their order; every other page on it was given up with almost
      a leaf's least number of entries on it. */
  ghost predicate Threads(pages: Pages, trail: seq<nat>, ls: seq<LeafRec>) {
    && Trail(pages, trail) && KeptIds(trail, Own(ls)) == PidsOf(ls)
    && forall p | p in trail && p !in Own(ls) :: p in pages && |pages[p].keys| >= MIN_LEAF - 1
  }

  lemma OneLeafTrail(pages: Pages, l: LeafRec)
    requires OnPage(pages, l) && l.next == None
    ensures Threads(pages, [l.pid], [l])
  {
    assert LinksOn(pages, [l.pid], 0);
    assert PidsOf([l]) == [l.pid];
    KeptIdsAll([l.pid], Own([l]));
  }

  function RecsOn(pages: Pages, trail: seq<nat>): (path: seq<LeafRec>)
    requires forall k :: 0 <= k < |trail| ==> trail[k] in pages && LeafOk(pages[trail[k]])
    ensures |path| == |trail| && forall k :: 0 <= k < |trail| ==> path[k] == RecAt(pages, trail[k])
  {
    seq(|trail|, k requires 0 <= k < |trail| => RecAt(pages, trail[k]))
  }

  /** Where leaf j of the tree is on the trail; the leaves from it on are behind it. */
  lemma TrailAt(trail: seq<nat>, ls: seq<LeafRec>, j: nat) returns (k: nat)
    requires Distinct(trail) && KeptIds(trail, Own(ls)) == PidsOf(ls) && j < |ls|
    ensures k < |trail| && trail[k] == ls[j].pid && KeptIds(trail[k..], Own(ls)) == PidsOf(ls)[j..]
  {
    k := KeptAt(trail, Own(ls), j);
  }

  lemma {:induction false} KeptAt(ps: seq<nat>, own: set<nat>, j: nat) returns (k: nat)
    requires j < |KeptIds(ps, own)|
    ensures k < |ps| && ps[k] == KeptIds(ps, own)[j] && KeptIds(ps[k..], own) == KeptIds(ps, own)[j..]
    ensures KeptIds(ps[..k], own) == KeptIds(ps, own)[..j]
  {
    if ps[0] in own && j == 0 {
      k := 0;
      assert ps[0..] == ps && ps[..0] == [];
    } else {
      var i := KeptAt(ps[1..], own, if ps[0] in own then j - 1 else j);
      k := i + 1;
      assert ps[1..][i..] == ps[k..];
      assert ps[..k] == [ps[0]] + ps[1..][..i];
      assert ps[..k][1..] == ps[1..][..i];
    }
  }

  /** The pages from place k of the trail on, as leaves. */
  lemma TrailRecs(pages: Pages, trail: seq<nat>, k: nat) returns (path: seq<LeafRec>)
    requires Trail(pages, trail) && k < |trail|
    ensures LinkedOn(pages, path) && PidsOf(path) == trail[k..]
    ensures forall q :: 0 <= q < |path| ==> OnPage(pages, path[q])
  {
    forall q | 0 <= q < |trail| ensures trail[q] in pages && LeafOk(pages[trail[q]]) {
      assert LinksOn(pages, trail, q);
    }
    path := RecsOn(pages, trail[k..]);
    assert PidsOf(path) == trail[k..];
    forall q | 0 <= q < |path| ensures path[q].next == NextOf(path, q) && OnPage(pages, path[q]) {
      assert LinksOn(pages, trail, k + q) && path[q] == RecAt(pages, trail[k + q]);
    }
  }

  /** From any leaf of the tree the walk ends, and passes the tree's leaves from there on, in order. */
  lemma PathFrom(pages: Pages, trail: seq<nat>, t: Tree, h: nat, j: nat) returns (path: seq<LeafRec>)
    requires Threads(pages, trail, Leaves(t)) && Rep(pages, t) && WF(t, h, None, None) && j < |Leaves(t)|
    ensures LinkedOn(pages, path) && path[0] == Leaves(t)[j] && OnTrail(path, Leaves(t), j)
    ensures forall i :: 0 <= i < |path| ==> path[i].pid in trail
  {
    var ls := Leaves(t);
    hide Rep, WF, Leaves, LinkedOn, LinksOn;
    var k := TrailAt(trail, ls, j);
    path := TrailRecs(pages, trail, k);
    KeptPids(path, Own(ls));
    forall i | 0 <= i < |ls| ensures OnPage(pages, ls[i]) {
      TreeLeafOnPage(pages, t, h, None, None, i);
    }
    forall i | 0 <= i < |path| ensures path[i].pid in trail {
      assert PidsOf(path)[i] == trail[k + i];
    }
    KeptIsLeaves(pages, path, ls, j);
    assert PidsOf(path)[0] == trail[k];
    SamePage(pages, path[0], ls[j]);
    forall o | o in path && o.pid !in Own(ls) ensures |o.es| >= MIN_LEAF - 1 {
      assert o.pid in trail;
    }
  }

  /** What the tree keeps of the path are its leaves from j on; the rest is abandoned pages. */
  ghost predicate OnTrail(path: seq<LeafRec>, ls: seq<LeafRec>, j: nat)
    requires j <= |ls|
  {
    Kept(path, Own(ls)) == ls[j..] && forall o | o in path && o.pid !in Own(ls) :: |o.es| >= MIN_LEAF - 1
  }

  lemma KeptIsLeaves(pages: Pages, path: seq<LeafRec>, ls: seq<LeafRec>, j: nat)
    requires j <= |ls| && PidsOf(Kept(path, Own(ls))) == PidsOf(ls)[j..]
    requires (forall q :: 0 <= q < |path| ==> OnPage(pages, path[q]))
             && (forall i :: 0 <= i < |ls| ==> OnPage(pages, ls[i]))
    ensures Kept(path, Own(ls)) == ls[j..]
  {
    var kept, rest := Kept(path, Own(ls)), ls[j..];
    assert |kept| == |rest|;
    hide OnPage;
    forall i | 0 <= i < |kept| ensures kept[i] == rest[i] {
      KeptOnPath(path, Own(ls), i);
      assert PidsOf(kept)[i] == PidsOf(ls)[j..][i] == ls[j + i].pid;
      var q :| 0 <= q < |path| && path[q] == kept[i];
      SamePage(pages, kept[i], ls[j + i]);
    }
  }

  // ----- deletion

  /** A leaf page among the tree's pages is a leaf of the tree. */
  lemma OwnLeaf(pages: Pages, t: Tree, p: nat)
    requires Rep(pages, t) && p in pages && pages[p].LeafNode?
    ensures p in Foot(t) ==> p in Own(Leaves(t))
  {
    if p in Foot(t) {
      var j := LeafPageIsLeaf(pages, t, p);
      assert PidsOf(Leaves(t))[j] == p;
    }
  }

  lemma TrailDelete(pages: Pages, pages': Pages, t: Tree, t': Tree, h: nat, at: Option<nat>, trail: seq<nat>)
    requires Threads(pages, trail, Leaves(t)) && Rep(pages, t) && SameOutside(pages, pages', Foot(t))
    requires ChainSafe(pages, pages', t, t') && Rep(pages', t') && WF(t', h, None, None)
    requires DistinctPids(Leaves(t)) && Dropped(Leaves(t), Leaves(t'), at) && OrphanStays(pages', t, t', at)
    ensures Threads(pages', trail, Leaves(t'))
  {
    var ls, ls' := Leaves(t), Leaves(t');
    forall k | 0 <= k < |trail| ensures LinksOn(pages', trail, k) {
      assert LinksOn(pages, trail, k);
      StillLeaf(pages, pages', t, t', h, trail[k]);
    }
    DroppedPids(ls, ls', at);
    KeptWithout(trail, ls, ls', at);
    forall p | p in trail && p !in Own(ls') ensures p in pages' && |pages'[p].keys| >= MIN_LEAF - 1 {
      var k :| 0 <= k < |trail| && trail[k] == p;
      assert LinksOn(pages, trail, k) && LinksOn(pages', trail, k);
      OwnLeaf(pages, t, p);
      hide Rep, WF, Leaves, Foot, LinksKept, DroppedOk, Dropped;
      if p !in Own(ls) {
        assert pages'[p] == pages[p];
      } else {
        assert at.Some? && ls[at.value].pid == p;
      }
    }
  }

  lemma StillLeaf(pages: Pages, pages': Pages, t: Tree, t': Tree, h: nat, p: nat)
    requires p in pages && LeafOk(pages[p]) && SameOutside(pages, pages', Foot(t)) && ChainSafe(pages, pages', t, t')
    requires Rep(pages', t') && WF(t', h, None, None)
    ensures p in pages' && LeafOk(pages'[p]) && pages'[p].next == pages[p].next
  {
    if p in Foot(t') {
      var j := LeafPageIsLeaf(pages', t', p);
      TreeLeafOnPage(pages', t', h, None, None, j);
    } else if p in Foot(t) {
      assert p in Foot(t) - Foot(t');
    }
  }

  /** The pids that are left. */
  lemma DroppedPids(a: seq<LeafRec>, b: seq<LeafRec>, at: Option<nat>)
    requires Dropped(a, b, at)
    ensures PidsOf(b) == if at.None? then PidsOf(a) else PidsOf(a)[..at.value] + PidsOf(a)[at.value + 1..]
    ensures at.Some? ==> at.value < |a|
  {
    var x, y := PidsOf(a), PidsOf(b);
    assert |Links(b)| == if at.None? then |Links(a)| else |Links(a)| - 1;
    forall i | 0 <= i < |b| ensures y[i] == if at.None? || i < at.value then x[i] else x[i + 1] {
      assert Links(b)[i] == Links(a)[if at.None? || i < at.value then i else i + 1];
    }
  }

  lemma KeptWithout(trail: seq<nat>, ls: seq<LeafRec>, ls': seq<LeafRec>, at: Option<nat>)
    requires KeptIds(trail, Own(ls)) == PidsOf(ls) && DistinctPids(ls) && (at.Some? ==> at.value < |ls|)
    requires PidsOf(ls') == if at.None? then PidsOf(ls) else PidsOf(ls)[..at.value] + PidsOf(ls)[at.value + 1..]
    ensures KeptIds(trail, Own(ls')) == PidsOf(ls')
    ensures forall p :: p in Own(ls) && p !in Own(ls') ==> at.Some? && ls[at.value].pid == p
  {
    hide KeptIds;
    var ps := PidsOf(ls);
    if at.None? {
      assert Own(ls') == Own(ls);
    } else {
      var j := at.value;
      assert ps == (ps[..j] + [ps[j]]) + ps[j + 1..];
      assert ps[j] !in ps[..j] && ps[j] !in ps[j + 1..];
      KeptWithoutId(trail, ps[..j], ps[j], ps[j + 1..], Own(ls), Own(ls'));
    }
  }

  lemma KeptWithoutId(trail: seq<nat>, a: seq<nat>, x: nat, b: seq<nat>, own: set<nat>, own': set<nat>)
    requires KeptIds(trail, own) == (a + [x]) + b && own' <= own && x !in own'
    requires (forall p | p in a :: p in own') && (forall p | p in b :: p in own')
    ensures KeptIds(trail, own') == a + b
  {
    OneId(x, own');
    hide KeptIds;
    calc {
      KeptIds(trail, own');
    ==  { KeptIdsTwice(trail, own, own'); }
      KeptIds((a + [x]) + b, own');
    ==  { KeptIdsAppend(a + [x], b, own'); }
      KeptIds(a + [x], own') + KeptIds(b, own');
    ==  { KeptIdsAppend(a, [x], own'); KeptIdsAll(a, own'); KeptIdsAll(b, own'); }
      (a + []) + b;
    ==  { assert a + [] == a; }
      a + b;
    }
  }

  lemma OneId(p: nat, own: set<nat>)
    ensures KeptIds([p], own) == if p in own then [p] else []
  {
    assert [p][1..] == [];
  }

  // ----- insertion: a new leaf page takes its place right behind the one that split

  lemma TrailInsert(pages: Pages, pages': Pages, t: Tree, t': Tree, h: nat, h': nat, trail: seq<nat>,
                    j: nat, news: seq<LeafRec>, e: Entry)
    returns (trail': seq<nat>)
    requires Threads(pages, trail, Leaves(t)) && DistinctPids(Leaves(t))
    requires Rep(pages, t) && Rep(pages', t') && WF(t, h, None, None) && WF(t', h', None, None)
    requires SameOutside(pages, pages', Foot(t))
    requires j < |Leaves(t)| && Puts(Leaves(t)[j], news, e) && Leaves(t') == Splice(Leaves(t), j, 1, news)
    requires |news| == 2 ==> news[1].pid !in pages
    ensures Threads(pages', trail', Leaves(t'))
    ensures forall p | p in trail && p !in Own(Leaves(t)) ::
              p in trail' && p in pages && p in pages' && pages'[p] == pages[p]
    ensures |news| == 1 ==> trail' == trail
  {
    PutPages(pages, pages', t, t', h, h', trail, j, news, e);
    hide *;
    trail' := TrailPut(pages, pages', trail, Leaves(t), Leaves(t'), j, news, e);
  }

  /** The same, from the leaves alone. */
  lemma TrailPut(pages: Pages, pages': Pages, trail: seq<nat>, ls: seq<LeafRec>, ls': seq<LeafRec>, j: nat,
                 news: seq<LeafRec>, e: Entry)
    returns (trail': seq<nat>)
    requires Threads(pages, trail, ls) && DistinctPids(ls) && j < |ls| && Puts(ls[j], news, e)
             && ls' == Splice(ls, j, 1, news)
    requires OnPage(pages, ls[j]) && (forall i :: 0 <= i < |news| ==> OnPage(pages', news[i]))
             && forall p | p in trail :: p in pages
    requires forall p | p in trail && p != ls[j].pid :: p in pages' && pages'[p] == pages[p]
    requires |news| == 2 ==> news[1].pid !in pages
    ensures Threads(pages', trail', ls') && (|news| == 1 ==> trail' == trail)
    ensures forall p | p in trail && p !in Own(ls) :: p in trail' && p in pages && p in pages' && pages'[p] == pages[p]
  {
    PutsIs(ls[j], news, e);
    AbandonedStay(pages, pages', trail, ls, j);
    assert PidsOf(ls)[j] == ls[j].pid && KeptIds(trail, Own(ls)) == PidsOf(ls);
    hide Trail, Own, KeptIds, Puts, Threads, OnPage, DistinctPids, Splice;
    var k := KeptAt(trail, Own(ls), j);
    if |news| == 1 {
      trail' := trail;
      assert news == [news[0]];
      OnePut(pages, pages', trail, k, ls, ls', j, news[0]);
    } else {
      trail' := PutAfter(trail, k, news[1].pid);
      assert news == [news[0], news[1]];
      TwoPut(pages, pages', trail, k, ls, ls', j, news[0], news[1]);
      PutAfterIn(trail, k, news[1].pid);
    }
  }

  lemma PutsIs(l: LeafRec, news: seq<LeafRec>, e: Entry)
    requires Puts(l, news, e)
    ensures |news| == 1 || |news| == 2
    ensures news[0].pid == l.pid && (|news| == 1 ==> news[0].next == l.next)
    ensures |news| == 2 ==> news[0].next == Some(news[1].pid) && news[1].next == l.next
  {
  }

  lemma AbandonedStay(pages: Pages, pages': Pages, trail: seq<nat>, ls: seq<LeafRec>, j: nat)
    requires j < |ls| && forall p | p in trail && p != ls[j].pid :: p in pages && p in pages' && pages'[p] == pages[p]
    ensures forall p | p in trail && p !in Own(ls) :: p in pages && p in pages' && pages'[p] == pages[p]
  {
    assert PidsOf(ls)[j] == ls[j].pid;
  }

  /** The changed leaf's pages, and all others. */
  lemma PutPages(pages: Pages, pages': Pages, t: Tree, t': Tree, h: nat, h': nat, trail: seq<nat>,
                 j: nat, news: seq<LeafRec>, e: Entry)
    requires Trail(pages, trail) && Rep(pages, t) && Rep(pages', t') && WF(t, h, None, None) && WF(t', h', None, None)
    requires SameOutside(pages, pages', Foot(t))
    requires j < |Leaves(t)| && Puts(Leaves(t)[j], news, e) && Leaves(t') == Splice(Leaves(t), j, 1, news)
    ensures OnPage(pages, Leaves(t)[j]) && forall i :: 0 <= i < |news| ==> OnPage(pages', news[i])
    ensures forall p | p in trail :: p in pages
    ensures forall p | p in trail && p != Leaves(t)[j].pid :: p in pages' && pages'[p] == pages[p]
  {
    TreeLeafOnPage(pages, t, h, None, None, j);
    forall i | 0 <= i < |news| ensures OnPage(pages', news[i]) {
      assert Leaves(t')[j + i] == news[i];
      TreeLeafOnPage(pages', t', h', None, None, j + i);
    }
    TrailPages(pages, trail);
    hide Trail, OnPage, Puts;
    forall p | p in trail && p != Leaves(t)[j].pid ensures p in pages' && pages'[p] == pages[p] {
      OtherPage(pages, pages', t, t', h, h', j, news, p);
    }
  }

  lemma TrailPages(pages: Pages, trail: seq<nat>)
    requires Trail(pages, trail)
    ensures forall p | p in trail :: p in pages && LeafOk(pages[p])
  {
    forall p | p in trail ensures p in pages && LeafOk(pages[p]) {
      var m :| 0 <= m < |trail| && trail[m] == p;
      assert LinksOn(pages, trail, m);
    }
  }

  lemma PutAfterIn(trail: seq<nat>, k: nat, p: nat)
    requires k < |trail|
    ensures forall q | q in trail :: q in PutAfter(trail, k, p)
  {
    assert trail == trail[..k + 1] + trail[k + 1..];
  }

  /** A page of the trail that was not the changed leaf's keeps its content. */
  lemma OtherPage(pages: Pages, pages': Pages, t: Tree, t': Tree, h: nat, h': nat, j: nat, news: seq<LeafRec>, p: nat)
    requires Rep(pages, t) && Rep(pages', t') && WF(t, h, None, None) && WF(t', h', None, None)
    requires SameOutside(pages, pages', Foot(t)) && p in pages && LeafOk(pages[p])
    requires j < |Leaves(t)| && Leaves(t') == Splice(Leaves(t), j, 1, news) && p != Leaves(t)[j].pid
    ensures p in pages' && pages'[p] == pages[p]
  {
    if p in Foot(t) {
      var i := LeafPageIsLeaf(pages, t, p);
      var i' := if i < j then i else i - 1 + |news|;
      assert Leaves(t')[i'] == Leaves(t)[i];
      LeafOnPage(pages, t, i);
      LeafOnPage(pages', t', i');
    }
  }

  lemma OnePut(pages: Pages, pages': Pages, trail: seq<nat>, k: nat, ls: seq<LeafRec>, ls': seq<LeafRec>, j: nat,
               l: LeafRec)
    requires Threads(pages, trail, ls) && k < |trail| && j < |ls| && trail[k] == ls[j].pid == l.pid
             && ls' == Splice(ls, j, 1, [l])
    requires OnPage(pages', l) && OnPage(pages, ls[j]) && l.next == ls[j].next
    requires forall p | p in trail && p != l.pid :: p in pages && p in pages' && pages'[p] == pages[p]
    ensures Threads(pages', trail, ls')
  {
    assert PidsOf(ls') == PidsOf(ls);
    assert Own(ls') == Own(ls);
    forall m | 0 <= m < |trail| ensures LinksOn(pages', trail, m) {
      assert LinksOn(pages, trail, m) && trail[m] in trail;
    }
    assert PidsOf(ls)[j] == l.pid;
  }

  function PutAfter(trail: seq<nat>, k: nat, p: nat): seq<nat>
    requires k < |trail|
  {
    trail[..k + 1] + [p] + trail[k + 1..]
  }

  lemma PutAfterIs(trail: seq<nat>, k: nat, p: nat)
    requires k < |trail| && Distinct(trail) && p !in trail
    ensures var o := PutAfter(trail, k, p);
            && |o| == |trail| + 1 && Distinct(o) && (forall q :: q in o <==> q in trail || q == p)
            && forall m :: 0 <= m < |o| ==> o[m] == if m <= k then trail[m] else if m == k + 1 then p else trail[m - 1]
  {
    var o := PutAfter(trail, k, p);
    forall m | 0 <= m < |o| ensures o[m] == if m <= k then trail[m] else if m == k + 1 then p else trail[m - 1] {}
    forall i, j | 0 <= i < j < |o| ensures o[i] != o[j] {}
    forall q ensures q in o <==> q in trail || q == p {
      assert trail == trail[..k + 1] + trail[k + 1..];
    }
  }

  lemma TwoPut(pages: Pages, pages': Pages, trail: seq<nat>, k: nat, ls: seq<LeafRec>, ls': seq<LeafRec>, j: nat,
               a: LeafRec, b: LeafRec)
    requires Threads(pages, trail, ls) && DistinctPids(ls) && k < |trail| && j < |ls| && trail[k] == ls[j].pid == a.pid
    requires KeptIds(trail[..k], Own(ls)) == PidsOf(ls)[..j]
    requires ls' == Splice(ls, j, 1, [a, b]) && a.next == Some(b.pid) && b.next == ls[j].next && OnPage(pages, ls[j])
    requires OnPage(pages', a) && OnPage(pages', b) && b.pid !in pages && forall m :: 0 <= m < |trail| ==>
               trail[m] in pages
    requires forall p | p in trail && p != a.pid :: p in pages && p in pages' && pages'[p] == pages[p]
    ensures Threads(pages', PutAfter(trail, k, b.pid), ls')
  {
    var o, p := PutAfter(trail, k, b.pid), b.pid;
    assert p !in trail;
    PutAfterIs(trail, k, p);
    TwoLinks(pages, pages', trail, k, ls[j], a, b);
    KeptPut(trail, k, ls, ls', j, a, b);
    assert PidsOf(ls')[j] == a.pid && PidsOf(ls')[j + 1] == p;
    OwnGrows(ls, ls', j, a, b);
    hide OnPage, Trail, KeptIds;
  }

  lemma OwnGrows(ls: seq<LeafRec>, ls': seq<LeafRec>, j: nat, a: LeafRec, b: LeafRec)
    requires j < |ls| && ls[j].pid == a.pid && ls' == Splice(ls, j, 1, [a, b])
    ensures Own(ls') == Own(ls) + {b.pid} && PidsOf(ls') == PidsOf(ls)[..j + 1] + [b.pid] + PidsOf(ls)[j + 1..]
  {
    var x, y := PidsOf(ls), PidsOf(ls');
    assert y == x[..j + 1] + [b.pid] + x[j + 1..];
    assert x == x[..j + 1] + x[j + 1..];
    forall p ensures p in y <==> p in x || p == b.pid {}
  }

  lemma TwoLinks(pages: Pages, pages': Pages, trail: seq<nat>, k: nat, l: LeafRec, a: LeafRec, b: LeafRec)
    requires Trail(pages, trail) && k < |trail| && trail[k] == l.pid == a.pid && OnPage(pages, l) && b.pid !in trail
    requires a.next == Some(b.pid) && b.next == l.next && OnPage(pages', a) && OnPage(pages', b)
    requires forall p | p in trail && p != a.pid :: p in pages && p in pages' && pages'[p] == pages[p]
    ensures Trail(pages', PutAfter(trail, k, b.pid))
  {
    var o := PutAfter(trail, k, b.pid);
    PutAfterIs(trail, k, b.pid);
    assert LinksOn(pages, trail, k);
    forall m | 0 <= m < |o| ensures LinksOn(pages', o, m) {
      if m < k {
        assert LinksOn(pages, trail, m) && trail[m] in trail && trail[m] != trail[k];
      } else if m > k + 1 {
        assert LinksOn(pages, trail, m - 1) && trail[m - 1] in trail && trail[m - 1] != trail[k];
      }
    }
  }

  lemma KeptPut(trail: seq<nat>, k: nat, ls: seq<LeafRec>, ls': seq<LeafRec>, j: nat, a: LeafRec, b: LeafRec)
    requires Distinct(trail) && k < |trail| && j < |ls| && trail[k] == ls[j].pid == a.pid && b.pid !in trail
    requires KeptIds(trail, Own(ls)) == PidsOf(ls) && KeptIds(trail[..k], Own(ls)) == PidsOf(ls)[..j]
    requires ls' == Splice(ls, j, 1, [a, b])
    ensures KeptIds(PutAfter(trail, k, b.pid), Own(ls')) == PidsOf(ls')
  {
    OwnGrows(ls, ls', j, a, b);
    assert PidsOf(ls)[j] == trail[k];
    hide KeptIds, Own;
    KeptPutId(trail, k, PidsOf(ls), j, b.pid, Own(ls), Own(ls'));
  }

  lemma KeptPutId(trail: seq<nat>, k: nat, ps: seq<nat>, j: nat, p: nat, own: set<nat>, own': set<nat>)
    requires k < |trail| && j < |ps| && trail[k] == ps[j] && ps[j] in own && p !in trail && own' == own + {p}
    requires KeptIds(trail, own) == ps && KeptIds(trail[..k], own) == ps[..j]
    ensures KeptIds(PutAfter(trail, k, p), own') == ps[..j + 1] + [p] + ps[j + 1..]
  {
    var x, y := trail[..k + 1], trail[k + 1..];
    assert trail == x + y && x == trail[..k] + [trail[k]];
    OneId(trail[k], own);
    OneId(p, own');
    hide KeptIds;
    KeptIdsAppend(x, y, own);
    KeptIdsAppend(trail[..k], [trail[k]], own);
    FrontIs(ps, j, KeptIds(x, own), KeptIds(y, own));
    KeptIdsAgree(x, own, own');
    KeptIdsAgree(y, own, own');
    KeptIdsAppend(x + [p], y, own');
    KeptIdsAppend(x, [p], own');
  }

  lemma FrontIs(ps: seq<nat>, j: nat, x: seq<nat>, y: seq<nat>)
    requires j < |ps| && x + y == ps && x == ps[..j] + [ps[j]]
    ensures x == ps[..j + 1] && y == ps[j + 1..]
  {
    assert (x + y)[j + 1..] == y;
  }

  // ----- both operations, whole

  /** An insertion of a new key, on the tree and on the trail. */
  lemma InsertOutcome(pages: Pages, pages': Pages, t: Tree, e: Entry, c: Caps, alloc: nat, h: nat, trail: seq<nat>)
    returns (h': nat, trail': seq<nat>)
    requires WF(t, h, None, None) && Shaped(t) && Roomy(c) && Occ(t, true, c) && Sep(t) && e.key !in Content(Entries(t))
    requires Threads(pages, trail, Leaves(t)) && alloc !in pages
    requires Rep(pages, t) && Rep(pages', Insert(t, e, c, alloc).0) && SameOutside(pages, pages', Foot(t))
    ensures var t' := Insert(t, e, c, alloc).0;
            && WF(t', h', None, None) && Shaped(t') && Occ(t', true, c)
            && Content(Entries(t')) == Content(Entries(t))[e.key := e.rid]
            && Threads(pages', trail', Leaves(t'))
    ensures forall p | p in trail && p !in Own(Leaves(t)) ::
              p in trail' && p in pages && p in pages' && pages'[p] == pages[p]
  {
    hide *;
    var t' := Insert(t, e, c, alloc).0;
    var p;
    h', p := InsertKeeps(t, e, c, alloc, h);
    InsertRefinesMap(t, e, c, alloc, h, 0);
    SepDistinct(t);
    var j, news := InsertLeaves(t, e, c, alloc);
    trail' := TrailInsert(pages, pages', t, t', h, h', trail, j, news, e);
  }

  lemma DeleteOnTrail(pages: Pages, pages': Pages, t: Tree, e: Entry, h: nat, h': nat, trail: seq<nat>)
    requires WF(t, h, None, None) && Shaped(t) && Sep(t) && Threads(pages, trail, Leaves(t)) && Rep(pages, t)
    requires SameOutside(pages, pages', Foot(t)) && ChainSafe(pages, pages', t, DelT(t, e).t)
    requires OrphanStays(pages', t, DelT(t, e).t, AbandonedLeaf(t, e))
    requires Rep(pages', DelT(t, e).t) && Rep(pages', Delete(t, e)) && WF(Delete(t, e), h', None, None)
    ensures Threads(pages', trail, Leaves(Delete(t, e)))
  {
    hide *;
    var t1 := DelT(t, e).t;
    assert Delete(t, e) == RootOf(t1) by { DeleteIs(t, e); }
    WFUniform(t, h, None, None);
    DelLinks(t, e, h);
    SepDistinct(t);
    RootLeaves(t1);
    RootFoot(t1);
    RootSafe(pages, pages', t, t1);
    SameAsItself(pages', Foot(t1));
    OrphanKept(pages', pages', t, t1, RootOf(t1), AbandonedLeaf(t, e));
    TrailDelete(pages, pages', t, RootOf(t1), h', AbandonedLeaf(t, e), trail);
  }

  lemma DeleteIs(t: Tree, e: Entry)
    requires Shaped(t)
    ensures Delete(t, e) == RootOf(DelT(t, e).t)
  {
  }

  lemma SameAsItself(pages: Pages, ps: set<nat>)
    ensures SameOutside(pages, pages, ps)
  {
  }
}
