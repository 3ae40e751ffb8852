/** The wait-for graph: at most one outgoing edge per waiter. The detector's answer is exact. */
module Deadlock {
  import opened Common

  type Graph = map<int, int>

  // ----- reference: following edges

  /** The node k edges on from v; None where the walk ends. */
  function Walk(g: Graph, v: int, k: nat): Option<int>
    decreases k
  {
    if k == 0 then Some(v) else if v !in g then None else Walk(g, g[v], k - 1)
  }

  ghost predicate OnCycle(g: Graph, v: int) {
    exists k: nat :: k > 0 && Walk(g, v, k) == Some(v)
  }

  ghost predicate Acyclic(g: Graph) {
    forall v :: !OnCycle(g, v)
  }

  lemma {:induction false} WalkOn(g: Graph, v: int, j: nat, k: nat)
    ensures Walk(g, v, j + k) == if Walk(g, v, j).None? then None else Walk(g, Walk(g, v, j).value, k)
    decreases j
  {
    if j > 0 && v in g {
      WalkOn(g, g[v], j - 1, k);
    }
  }

  /** From any node of the walk of a node on a cycle, that node is reached again. */
  lemma {:induction false} Returns(g: Graph, v: int, n: nat, k: nat) returns (x: int, j: nat)
    requires n > 0 && Walk(g, v, n) == Some(v)
    ensures Walk(g, v, k) == Some(x) && Walk(g, x, j) == Some(v) && x in g
  {
    if k == 0 {
      x, j := v, 0;
    } else {
      var y, i := Returns(g, v, n, k - 1);
      WalkOn(g, v, k - 1, 1);
      x := g[y];
      assert Walk(g, y, 1) == Some(x) by { assert Walk(g, x, 0) == Some(x); }
      j := if i > 0 then i - 1 else n - 1;
    }
  }

  lemma {:induction false} StaysInside(g: Graph, c: set<int>, x: int, k: nat)
    requires x in c && (forall u | u in c :: u in g && g[u] in c)
    ensures Walk(g, x, k).Some? && Walk(g, x, k).value in c
    decreases k
  {
    if k > 0 {
      StaysInside(g, c, g[x], k - 1);
    }
  }

  // ----- the depth-first search

  function After(path: seq<int>, node: int, i: nat): int {
    if i + 1 < |path| then path[i + 1] else node
  }

  /** The path so far: distinct waiters, each waiting for the next, the last one for `node`. */
  ghost predicate OnPath(g: Graph, path: seq<int>, node: int) {
    && (forall i :: 0 <= i < |path| ==> path[i] in g && g[path[i]] == After(path, node, i))
    && (forall i, j :: 0 <= i < j < |path| ==> path[i] != path[j])
  }

  lemma PathIsShort(g: Graph, path: seq<int>, node: int)
    requires OnPath(g, path, node)
    ensures |path| <= |g|
  {
    var s := set x | x in path;
    DistinctSize(path);
    assert s <= g.Keys;
    SubsetSize(s, g.Keys);
  }

  lemma {:induction false} DistinctSize(path: seq<int>)
    requires forall i, j :: 0 <= i < j < |path| ==> path[i] != path[j]
    ensures |set x | x in path| == |path|
  {
    if path != [] {
      var n := |path| - 1;
      DistinctSize(path[..n]);
      assert (set x | x in path) == (set x | x in path[..n]) + {path[n]};
    }
  }

  lemma {:induction false} SubsetSize(a: set<int>, b: set<int>)
    requires a <= b
    ensures |a| <= |b|
    decreases a
  {
    if a != {} {
      var x := Member(a);
      SubsetSize(a - {x}, b - {x});
    }
  }

  /** The nodes of a path lie on the walk. */
  lemma {:induction false} PathWalk(g: Graph, path: seq<int>, node: int, i: nat, k: nat)
    requires OnPath(g, path, node) && i + k <= |path| && i < |path|
    ensures Walk(g, path[i], k) == Some(if i + k < |path| then path[i + k] else node)
    decreases k
  {
    if k > 0 {
      if i + 1 < |path| {
        PathWalk(g, path, node, i + 1, k - 1);
      } else {
        assert Walk(g, node, 0) == Some(node);
      }
    }
  }

  /** What the search reports: nodes that are all on one cycle, and all of it. */
  ghost predicate IsCycle(g: Graph, c: seq<int>) {
    c != [] && forall x | x in c :: OnCycle(g, x) && x in g && g[x] in c
  }

  lemma ClosedPath(g: Graph, path: seq<int>, node: int)
    requires OnPath(g, path, node) && node in path
    ensures IsCycle(g, path[IndexIn(path, node)..] + [node])
  {
    var i := IndexIn(path, node);
    var c := path[i..] + [node];
    forall x | x in c ensures OnCycle(g, x) && x in g && g[x] in c {
      hide OnPath, OnCycle;
      var p := OnTheLoop(path, node, i, x);
      OnLoop(g, path, node, i, p);
      NextInside(g, path, node, i, p);
    }
  }

  lemma OnTheLoop(path: seq<int>, node: int, i: nat, x: int) returns (p: nat)
    requires i < |path| && path[i] == node && x in path[i..] + [node]
    ensures i <= p < |path| && path[p] == x
  {
    var c := path[i..] + [node];
    var j :| 0 <= j < |c| && c[j] == x;
    p := if j < |path| - i then i + j else i;
  }

  lemma OnLoop(g: Graph, path: seq<int>, node: int, i: nat, p: nat)
    requires OnPath(g, path, node) && i <= p < |path| && path[i] == node
    ensures OnCycle(g, path[p])
  {
    var n := |path|;
    PathWalk(g, path, node, p, n - p);
    PathWalk(g, path, node, i, p - i);
    hide OnPath;
    WalkOn(g, path[p], n - p, p - i);
    assert Walk(g, path[p], n - i) == Some(path[p]);
  }

  lemma NextInside(g: Graph, path: seq<int>, node: int, i: nat, p: nat)
    requires OnPath(g, path, node) && i <= p < |path|
    ensures path[p] in g && g[path[p]] in path[i..] + [node]
  {
    var c := path[i..] + [node];
    if p + 1 < |path| {
      assert c[p + 1 - i] == path[p + 1];
    } else {
      assert c[|c| - 1] == node;
    }
  }

  // ----- the detector

  class DeadlockDetector {
    var waits: Graph

    constructor ()
      ensures waits == map[]
    {
      waits := map[];
    }

    method AddWait(waiter: int, holder: int)
      modifies this
      ensures waits == old(waits)[waiter := holder]
    {
      waits := waits[waiter := holder];
    }

    /** Drop every edge that involves the transaction. */
    method Remove(tx: int)
      modifies this
      ensures waits == Without(old(waits), tx)
    {
      var m := waits - {tx};
      waits := map w | w in m && m[w] != tx :: m[w];
    }

    /** `_dfs_cycle`: None exactly when the walk from `node` ends. */
    method DfsCycle(node: int, path: seq<int>) returns (r: Option<seq<int>>)
      requires OnPath(waits, path, node)
      ensures r.Some? ==> IsCycle(waits, r.value)
      ensures r.None? ==> exists k: nat :: Walk(waits, node, k).None?
      ensures forall v, k ::
                Walk(waits, v, k) == Some(node) && OnCycle(waits, v) && (path == [] || path[0] == v) && k == |path| ==>
                r.Some? && v in r.value
      decreases |waits| + 1 - |path|
    {
      PathIsShort(waits, path, node);
      if node in path {
        r := Some(path[IndexIn(path, node)..] + [node]);
        ClosedPath(waits, path, node);
        forall v | OnCycle(waits, v) && path[0] == v ensures v in r.value {
          CycleIsWhole(waits, path, node, v);
        }
        return;
      }
      if node !in waits {
        assert Walk(waits, node, 1).None?;
        forall v, k | Walk(waits, v, k) == Some(node) && OnCycle(waits, v) ensures false {
          var n :| n > 0 && Walk(waits, v, n) == Some(v);
          var x, j := Returns(waits, v, n, k);
        }
        return None;
      }
      ExtendPath(waits, path, node);
      r := DfsCycle(waits[node], path + [node]);
      if r.None? {
        var k: nat :| Walk(waits, waits[node], k).None?;
        assert Walk(waits, node, k + 1).None?;
      }
      forall v | Walk(waits, v, |path|) == Some(node) && OnCycle(waits, v) && (path == [] || path[0] == v)
        ensures r.Some? && v in r.value
      {
        WalkOn(waits, v, |path|, 1);
        assert Walk(waits, node, 1) == Some(waits[node]) by { assert Walk(waits, waits[node], 0) == Some(waits[node]); }
        assert path == [] ==> v == node;
        assert (path + [node])[0] == v;
      }
    }
  
    /** `detect_cycle`: exactly the greatest id on any cycle, when that id is positive. */
    method DetectCycle() returns (r: Option<int>)
      ensures r.Some? ==> r.value > 0 && OnCycle(waits, r.value) && forall v :: OnCycle(waits, v) ==> v <= r.value
      ensures r.None? <==> NoVictim(waits)
    {
      var victim := 0;
      var todo := waits.Keys;
      while todo != {}
        invariant todo <= waits.Keys
        invariant victim >= 0 && (victim > 0 ==> OnCycle(waits, victim))
        invariant forall v | OnCycle(waits, v) && v !in todo :: v <= victim
      {
        var start := Any(todo);
        var cycle := DfsCycle(start, []);
        assert Walk(waits, start, 0) == Some(start);
        if cycle.Some? {
          var m := MaxOf(cycle.value);
          if m > victim {
            victim := m;
          }
        }
        todo := todo - {start};
      }
      r := if victim == 0 then None else Some(victim);
    }

    /** The pre-flight check of `begin`, run without interruption: it finds a victim exactly when the new
        wait closes a cycle; a new id that nobody mentions never does, and the graph is as before. */
    method WouldDeadlock(newTx: int, active: int) returns (victim: Option<int>)
      modifies this
      ensures victim.None? <==> NoVictim(old(waits)[newTx := active])
      ensures Acyclic(old(waits)) && (forall v | v in old(waits) :: v > 0) && newTx > 0 ==>
                (victim.Some? <==> Reaches(old(waits), active, newTx))
      ensures waits == Without(old(waits)[newTx := active], newTx)
      ensures NotMentioned(old(waits), newTx) ==> waits == old(waits)
    {
      ghost var g := waits;
      AddWait(newTx, active);
      victim := DetectCycle();
      if Acyclic(g) && (forall v | v in g :: v > 0) && newTx > 0 {
        AddEdgeExact(g, newTx, active);
        forall v | OnCycle(waits, v) ensures v > 0 {
          OnlyWaiters(waits, v);
        }
      }
      Remove(newTx);
      if NotMentioned(g, newTx) {
        AddThenRemove(g, newTx, active);
      }
    }
  }

  /** Dictionary order is left open. */
  method Any<T(==)>(s: set<T>) returns (x: T)
    requires s != {}
    ensures x in s
  {
    x :| x in s;
  }

  method MaxOf(c: seq<int>) returns (m: int)
    requires c != []
    ensures m in c && forall x | x in c :: x <= m
  {
    m := c[0];
    for i := 1 to |c|
      invariant m in c && forall j :: 0 <= j < i ==> c[j] <= m
    {
      if c[i] > m {
        m := c[i];
      }
    }
  }

  /** No cycle goes through a positive id. */
  ghost predicate NoVictim(g: Graph) {
    forall v :: OnCycle(g, v) ==> v <= 0
  }

  lemma OnlyWaiters(g: Graph, v: int)
    requires OnCycle(g, v)
    ensures v in g
  {
  }

  ghost predicate NotMentioned(g: Graph, tx: int) {
    tx !in g && forall w | w in g :: g[w] != tx
  }

  /** Edges only removed: no new cycle. */
  lemma {:induction false} FewerEdges(g: Graph, h: Graph, v: int, k: nat)
    requires (forall w | w in h :: w in g && g[w] == h[w]) && Walk(h, v, k).Some?
    ensures Walk(g, v, k) == Walk(h, v, k)
    decreases k
  {
    if k > 0 {
      FewerEdges(g, h, h[v], k - 1);
    }
  }

  lemma RemovalIsSafe(g: Graph, tx: int)
    requires Acyclic(g)
    ensures Acyclic(Without(g, tx))
  {
    var h := Without(g, tx);
    forall v ensures !OnCycle(h, v) {
      if OnCycle(h, v) {
        var k: nat :| k > 0 && Walk(h, v, k) == Some(v);
        FewerEdges(g, h, v, k);
        assert OnCycle(g, v);
      }
    }
  }

  lemma AddThenRemove(g: Graph, w: int, holder: int)
    requires NotMentioned(g, w)
    ensures Without(g[w := holder], w) == g
  {
    var h := Without(g[w := holder], w);
    forall x ensures x in h <==> x in g {}
    assert h.Keys == g.Keys;
  }

  function Without(g: Graph, tx: int): Graph {
    map w | w in g && w != tx && g[w] != tx :: g[w]
  }

  lemma ExtendPath(g: Graph, path: seq<int>, node: int)
    requires OnPath(g, path, node) && node !in path && node in g
    ensures OnPath(g, path + [node], g[node])
  {
    var p := path + [node];
    forall i | 0 <= i < |p| ensures p[i] in g && g[p[i]] == After(p, g[node], i) {
      if i < |path| {
        assert p[i] == path[i];
      }
    }
  }

  /** The reported cycle contains the start when that is on a cycle: the walk comes back to it, and
      it cannot leave the reported nodes. */
  lemma CycleIsWhole(g: Graph, path: seq<int>, node: int, v: int)
    requires OnPath(g, path, node) && node in path && path[0] == v && OnCycle(g, v)
    ensures v in path[IndexIn(path, node)..] + [node]
  {
    var i := IndexIn(path, node);
    var c := path[i..] + [node];
    ClosedPath(g, path, node);
    var n :| n > 0 && Walk(g, v, n) == Some(v);
    PathWalk(g, path, node, 0, i);
    var x, j := Returns(g, v, n, i);
    assert c[0] == x;
    StaysInside(g, (set u | u in c), x, j);
  }

  // ----- one more edge

  ghost predicate Reaches(g: Graph, a: int, b: int) {
    exists k: nat :: Walk(g, a, k) == Some(b)
  }

  /** Two graphs that differ at w at most. */
  ghost predicate SameOff(g: Graph, h: Graph, w: int) {
    forall v :: v != w ==> (v in g <==> v in h) && (v in g ==> g[v] == h[v])
  }

  /** What reaches w in one reaches it in the other: the edge of w itself is not needed. */
  lemma {:induction false} FirstHit(g: Graph, h: Graph, w: int, v: int, k: nat) returns (j: nat)
    requires SameOff(g, h, w) && Walk(g, v, k) == Some(w)
    ensures Walk(h, v, j) == Some(w)
    decreases k
  {
    if v == w {
      j := 0;
    } else {
      var i := FirstHit(g, h, w, g[v], k - 1);
      j := i + 1;
    }
  }

  /** A walk is the same in both, or it meets w on the way. */
  lemma {:induction false} SameWalk(g: Graph, h: Graph, w: int, v: int, n: nat) returns (j: nat)
    requires SameOff(g, h, w)
    ensures Walk(g, v, n) == Walk(h, v, n) || (j < n && Walk(h, v, j) == Some(w))
    decreases n
  {
    j := 0;
    if n > 0 && v != w && v in g {
      var i := SameWalk(g, h, w, g[v], n - 1);
      j := i + 1;
    }
  }

  /** On an acyclic graph, a new wait closes a cycle exactly when the holder's walk comes back to the
      waiter. */
  lemma AddEdgeExact(g: Graph, w: int, holder: int)
    requires Acyclic(g)
    ensures Acyclic(g[w := holder]) <==> !Reaches(g, holder, w)
  {
    var h := g[w := holder];
    if Reaches(g, holder, w) {
      var k: nat :| Walk(g, holder, k) == Some(w);
      var j := FirstHit(g, h, w, holder, k);
      assert Walk(h, w, j + 1) == Some(w);
      assert OnCycle(h, w);
    } else {
      forall v ensures !OnCycle(h, v) {
        if OnCycle(h, v) {
          var n: nat :| n > 0 && Walk(h, v, n) == Some(v);
          var j := SameWalk(g, h, w, v, n);
          NoReturn(g, v, n);
          ComesBack(g, h, w, holder, v, n, j);
        }
      }
    }
  }

  lemma NoReturn(g: Graph, v: int, n: nat)
    requires Acyclic(g) && n > 0
    ensures Walk(g, v, n) != Some(v)
  {
    assert !OnCycle(g, v);
  }

  /** A cycle of the new graph through w brings the holder back to w. */
  lemma ComesBack(g: Graph, h: Graph, w: int, holder: int, v: int, n: nat, j: nat)
    requires SameOff(g, h, w) && w in h && h[w] == holder
    requires n > 0 && Walk(h, v, n) == Some(v) && Walk(h, v, j) == Some(w)
    ensures Reaches(g, holder, w)
  {
    var x, i := Returns(h, v, n, j);
    WalkOn(h, w, i, n);
    WalkOn(h, w, i + n, j);
    assert Walk(h, w, i + n + j) == Some(w);
    assert Walk(h, holder, i + n + j - 1) == Some(w);
    var k := FirstHit(h, g, w, holder, i + n + j - 1);
  }

  // ----- the loop that a node is on

  /** The nodes that w's walk visits. */
  ghost function LoopOf(g: Graph, w: int): set<int> {
    set v | v in g && Reaches(g, w, v)
  }

  /** h has every edge that g has from these nodes, and g's lead back into them. */
  ghost predicate SameInside(g: Graph, h: Graph, c: set<int>) {
    forall u | u in c :: u in g && g[u] in c && u in h && h[u] == g[u]
  }

  lemma LoopIsClosed(g: Graph, w: int)
    requires OnCycle(g, w)
    ensures w in LoopOf(g, w) && SameInside(g, g, LoopOf(g, w))
    ensures forall u | u in LoopOf(g, w) :: Reaches(g, u, w)
  {
    var n: nat :| n > 0 && Walk(g, w, n) == Some(w);
    assert Walk(g, w, 0) == Some(w);
    forall u | u in LoopOf(g, w) ensures g[u] in LoopOf(g, w) && Reaches(g, u, w) {
      var k: nat :| Walk(g, w, k) == Some(u);
      var x, j := Returns(g, w, n, k);
      WalkOn(g, w, k, 1);
      assert Walk(g, g[u], 0) == Some(g[u]);
      var y, i := Returns(g, w, n, k + 1);
    }
  }

  lemma {:induction false} SameWalkInside(g: Graph, h: Graph, c: set<int>, v: int, k: nat)
    requires SameInside(g, h, c) && v in c
    ensures Walk(h, v, k) == Walk(g, v, k) && Walk(g, v, k).Some? && Walk(g, v, k).value in c
    decreases k
  {
    if k > 0 {
      SameWalkInside(g, h, c, g[v], k - 1);
    }
  }

  lemma ReachOn(g: Graph, a: int, b: int, c: int)
    requires Reaches(g, a, b) && Reaches(g, b, c)
    ensures Reaches(g, a, c)
  {
    var i: nat :| Walk(g, a, i) == Some(b);
    var j: nat :| Walk(g, b, j) == Some(c);
    WalkOn(g, a, i, j);
  }

  /** What a node of the set reaches is the same in both graphs, and in the set. */
  lemma SameReach(g: Graph, h: Graph, c: set<int>, v: int, u: int)
    requires SameInside(g, h, c) && v in c
    ensures Reaches(h, v, u) <==> Reaches(g, v, u)
    ensures Reaches(g, v, u) ==> u in c
  {
    if Reaches(g, v, u) {
      var k: nat :| Walk(g, v, k) == Some(u);
      SameWalkInside(g, h, c, v, k);
    }
    if Reaches(h, v, u) {
      var k: nat :| Walk(h, v, k) == Some(u);
      SameWalkInside(g, h, c, v, k);
    }
  }

  lemma CycleIsReach(g: Graph, v: int)
    ensures OnCycle(g, v) <==> v in g && Reaches(g, g[v], v)
  {
    if OnCycle(g, v) {
      var n: nat :| n > 0 && Walk(g, v, n) == Some(v);
      assert Walk(g, g[v], n - 1) == Some(v);
    }
    if v in g && Reaches(g, g[v], v) {
      var k: nat :| Walk(g, g[v], k) == Some(v);
      assert Walk(g, v, k + 1) == Some(v);
    }
  }

  /** A loop is the same loop in every graph that has its edges, from whichever of its nodes. */
  lemma SameLoop(g: Graph, h: Graph, w: int, v: int)
    requires OnCycle(g, w) && v in LoopOf(g, w) && SameInside(g, h, LoopOf(g, w))
    ensures OnCycle(h, v) && LoopOf(h, v) == LoopOf(g, w)
  {
    var c := LoopOf(g, w);
    LoopIsClosed(g, w);
    hide Reaches, OnCycle;
    forall u ensures u in LoopOf(h, v) <==> u in c {
      SameReach(g, h, c, v, u);
      if u in c {
        ReachOn(g, v, w, u);
      }
    }
    ReachOn(g, g[v], w, v);
    SameReach(g, h, c, g[v], v);
    CycleIsReach(h, v);
  }

  /** The edge of w that g lacks: in h, w is on a loop, so in g its holder reaches w. */
  lemma LastEdge(g: Graph, w: int, holder: int)
    requires OnCycle(g[w := holder], w)
    ensures Reaches(g, holder, w)
  {
    var h := g[w := holder];
    var n: nat :| n > 0 && Walk(h, w, n) == Some(w);
    var k := FirstHit(h, g, w, holder, n - 1);
  }

  lemma ClosedByEdge(g: Graph, w: int, holder: int)
    requires Reaches(g, holder, w)
    ensures OnCycle(g[w := holder], w)
  {
    var h := g[w := holder];
    var k: nat :| Walk(g, holder, k) == Some(w);
    var j := FirstHit(g, h, w, holder, k);
    assert Walk(h, w, j + 1) == Some(w);
  }
}
