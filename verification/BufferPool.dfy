/** The page cache: recency order, write-back of dirty pages, and what both mean over any trace. */
module BufferPool {
  import opened Common

  // ----- recency, from the trace alone

  function Without(s: seq<nat>, p: nat): (r: seq<nat>)
    ensures forall q :: q in r <==> q in s && q != p
  {
    if s == [] then [] else Without(s[..|s| - 1], p) + if s[|s| - 1] == p then [] else [s[|s| - 1]]
  }

  function Touch(s: seq<nat>, p: nat): seq<nat> {
    Without(s, p) + [p]
  }

  /** The distinct pages of a trace, least recent first. */
  function Recent(trace: seq<nat>): seq<nat> {
    if trace == [] then [] else Touch(Recent(trace[..|trace| - 1]), trace[|trace| - 1])
  }

  /** The last n, or all if there are fewer. */
  function LastN(s: seq<nat>, n: nat): seq<nat> {
    if |s| <= n then s else s[|s| - n..]
  }

  /** When a page was last touched. */
  ghost predicate LastAt(trace: seq<nat>, p: nat, k: nat) {
    k < |trace| && trace[k] == p && forall j :: k < j < |trace| ==> trace[j] != p
  }

  lemma {:induction false} WithoutKeepsOrder(s: seq<nat>, p: nat)
    requires Distinct(s)
    ensures Distinct(Without(s, p))
    ensures p !in s ==> Without(s, p) == s
    decreases s
  {
    if s != [] {
      var n := |s| - 1;
      var t, x := s[..n], s[n];
      var w := Without(t, p);
      DistinctSnoc(t, x);
      assert s == t + [x];
      assert Without(s, p) == w + if x == p then [] else [x];
      WithoutKeepsOrder(t, p);
      hide Without, Distinct;
      DistinctSnoc(w, x);
      assert w + [] == w;
    }
  }

  lemma DistinctSnoc(t: seq<nat>, x: nat)
    ensures Distinct(t + [x]) <==> Distinct(t) && x !in t
  {
    if Distinct(t + [x]) {
      forall i, j | 0 <= i < j < |t| ensures t[i] != t[j] {
        assert (t + [x])[i] != (t + [x])[j];
      }
      forall i | 0 <= i < |t| ensures t[i] != x {
        assert (t + [x])[i] != (t + [x])[|t|];
      }
    }
  }

  lemma {:induction false} RecentDistinct(trace: seq<nat>)
    ensures Distinct(Recent(trace)) && forall p :: p in Recent(trace) <==> p in trace
    decreases trace
  {
    if trace != [] {
      var n := |trace| - 1;
      RecentDistinct(trace[..n]);
      WithoutKeepsOrder(Recent(trace[..n]), trace[n]);
      assert trace == trace[..n] + [trace[n]];
    }
  }

  /** Recency order is the order of last touches. */
  lemma {:induction false} RecentByLastTouch(trace: seq<nat>, i: nat, j: nat, a: nat, b: nat)
    requires i < j < |Recent(trace)| && LastAt(trace, Recent(trace)[i], a) && LastAt(trace, Recent(trace)[j], b)
    ensures a < b
    decreases trace
  {
    var n := |trace| - 1;
    var t, p := trace[..n], trace[n];
    var r := Recent(t);
    RecentDistinct(t);
    RecentDistinct(trace);
    var w := Without(r, p);
    assert Recent(trace) == w + [p];
    hide Recent, Without, Distinct;
    if j < |w| {
      var x, y := w[i], w[j];
      assert x in w && y in w && x != p && y != p;
      var i', j' := WithoutPlaces(r, p, i, j);
      assert LastAt(t, x, a) && LastAt(t, y, b);
      RecentByLastTouch(t, i', j', a, b);
    } else {
      assert w[i] in w && w[i] != p;
      assert b == n;
    }
  }

  lemma {:induction false} WithoutPlaces(s: seq<nat>, p: nat, i: nat, j: nat) returns (i': nat, j': nat)
    requires i < j < |Without(s, p)|
    ensures i' < j' < |s| && s[i'] == Without(s, p)[i] && s[j'] == Without(s, p)[j]
    decreases s
  {
    var n := |s| - 1;
    var w := Without(s[..n], p);
    if j < |w| {
      i', j' := WithoutPlaces(s[..n], p, i, j);
    } else {
      j' := n;
      i' := WithoutPlace(s[..n], p, i);
    }
  }

  lemma {:induction false} WithoutPlace(s: seq<nat>, p: nat, i: nat) returns (i': nat)
    requires i < |Without(s, p)|
    ensures i' < |s| && s[i'] == Without(s, p)[i]
    decreases s
  {
    var n := |s| - 1;
    if i < |Without(s[..n], p)| {
      i' := WithoutPlace(s[..n], p, i);
    } else {
      i' := n;
    }
  }

  // ----- keeping only the last n

  lemma {:induction false} WithoutAppend(a: seq<nat>, b: seq<nat>, p: nat)
    ensures Without(a + b, p) == Without(a, p) + Without(b, p)
    decreases b
  {
    if b == [] {
      assert a + b == a;
    } else {
      var n := |b| - 1;
      WithoutAppend(a, b[..n], p);
      assert (a + b)[..|a + b| - 1] == a + b[..n] && (a + b)[|a + b| - 1] == b[n];
    }
  }

  lemma {:induction false} WithoutSize(s: seq<nat>, p: nat)
    requires Distinct(s) && p in s
    ensures |Without(s, p)| == |s| - 1
    decreases s
  {
    var n := |s| - 1;
    if s[n] == p {
      WithoutKeepsOrder(s[..n], p);
    } else {
      assert s == s[..n] + [s[n]];
      WithoutSize(s[..n], p);
    }
  }

  /** Cut a list where its window begins. */
  lemma Window(s: seq<nat>, n: nat) returns (a: seq<nat>, b: seq<nat>)
    ensures s == a + b && b == LastN(s, n) && |b| <= n && (|b| < n ==> a == [])
    ensures Distinct(s) ==> Distinct(a) && Distinct(b) && forall p :: !(p in a && p in b)
  {
    var k := if |s| <= n then 0 else |s| - n;
    a, b := s[..k], s[k..];
    if Distinct(s) {
      forall p ensures !(p in a && p in b) {}
    }
  }

  lemma LastOf(a: seq<nat>, b: seq<nat>, n: nat)
    requires |b| == n || (|b| <= n && a == [])
    ensures LastN(a + b, n) == b
  {
  }

  /** A hit moves a cached page to the end; the rest of the window stays. */
  lemma HitKeepsWindow(s: seq<nat>, n: nat, p: nat)
    requires Distinct(s) && p in LastN(s, n)
    ensures LastN(Touch(s, p), n) == Touch(LastN(s, n), p)
  {
    hide LastN;
    var a, b := Window(s, n);
    assert Touch(s, p) == a + Touch(b, p) by {
      WithoutAppend(a, b, p);
      WithoutKeepsOrder(a, p);
    }
    WithoutSize(b, p);
    hide Without;
    LastOf(a, Touch(b, p), n);
  }

  /** A miss puts the page at the end and drops the oldest when the window is full. */
  lemma MissKeepsWindow(s: seq<nat>, n: nat, p: nat)
    requires Distinct(s) && p !in LastN(s, n) && n > 0
    ensures var w := LastN(s, n);
            LastN(Touch(s, p), n) == (if |w| >= n then w[1..] else w) + [p]
  {
    hide LastN, Without, Touch, Distinct;
    var a, b := Window(s, n);
    TouchNew(a, b, p);
    var a' := Without(a, p);
    if |b| >= n {
      Shift(a', b, p);
      LastOf(a' + [b[0]], b[1..] + [p], n);
    } else {
      WithoutNone(p);
      LastOf(a', b + [p], n);
    }
  }

  lemma WithoutNone(p: nat)
    ensures Without([], p) == []
  {
  }

  lemma TouchNew(a: seq<nat>, b: seq<nat>, p: nat)
    requires Distinct(b) && p !in b
    ensures Touch(a + b, p) == Without(a, p) + (b + [p])
  {
    WithoutAppend(a, b, p);
    WithoutKeepsOrder(b, p);
  }

  lemma Shift(a: seq<nat>, b: seq<nat>, p: nat)
    requires b != []
    ensures a + (b + [p]) == (a + [b[0]]) + (b[1..] + [p])
  {
  }

  // ----- the pool

  /** The logical contents: a cached page hides the one on disk. */
  ghost function Over<D>(disk: map<nat, D>, content: map<nat, D>): map<nat, D> {
    map p | p in disk.Keys + content.Keys :: if p in content then content[p] else disk[p]
  }

  /** Cached pages are those of `order`; clean ones equal the disk; disk and cache are the view. */
  ghost predicate Coherent<D>(disk: map<nat, D>, order: seq<nat>, content: map<nat, D>, dirty: set<nat>, view: map<nat,
                              D>) {
    && (forall p :: p in content <==> p in order)
    && (forall p | p in dirty :: p in content)
    && (forall p | p in content && p !in dirty :: p in disk && disk[p] == content[p])
    && view == Over(disk, content)
  }

  lemma EvictOk<D>(disk: map<nat, D>, order: seq<nat>, content: map<nat, D>, dirty: set<nat>, view: map<nat, D>)
    requires Coherent(disk, order, content, dirty, view) && order != [] && Distinct(order)
    ensures var out := order[0];
            && out in content
            && Coherent(if out in dirty then disk[out := content[out]] else disk, order[1..], content - {out},
                        dirty - {out}, view)
  {
    var out := order[0];
    assert out in order;
    assert order == [out] + order[1..] && out !in order[1..];
    EvictView(disk, content, out, out in dirty);
  }

  /** Taking a page out of the cache leaves the view alone if the disk has its value. */
  lemma EvictView<D>(disk: map<nat, D>, content: map<nat, D>, out: nat, dirty: bool)
    requires out in content && (dirty || (out in disk && disk[out] == content[out]))
    ensures Over(if dirty then disk[out := content[out]] else disk, content - {out}) == Over(disk, content)
  {
    var disk' := if dirty then disk[out := content[out]] else disk;
    var a, b := Over(disk', content - {out}), Over(disk, content);
    forall p ensures p in a <==> p in b {}
    forall p | p in a ensures a[p] == b[p] {}
  }

  lemma AddClean<D>(disk: map<nat, D>, order: seq<nat>, content: map<nat, D>, dirty: set<nat>, view: map<nat, D>,
                    pid: nat)
    requires Coherent(disk, order, content, dirty, view) && pid !in order && pid in disk
    ensures pid in view && view[pid] == disk[pid]
    ensures Coherent(disk, order + [pid], content[pid := disk[pid]], dirty, view)
  {
    assert Over(disk, content[pid := disk[pid]]) == view;
  }

  lemma PutDirty<D>(disk: map<nat, D>, order: seq<nat>, order': seq<nat>, content: map<nat, D>, dirty: set<nat>,
                    view: map<nat, D>, pid: nat, data: D)
    requires Coherent(disk, order, content, dirty, view) && forall p :: p in order' <==> p in order || p == pid
    ensures Coherent(disk, order', content[pid := data], dirty + {pid}, view[pid := data])
  {
    assert Over(disk, content[pid := data]) == view[pid := data];
  }

  lemma Reordered<D>(disk: map<nat, D>, order: seq<nat>, order': seq<nat>, content: map<nat, D>, dirty: set<nat>,
                     view: map<nat, D>)
    requires Coherent(disk, order, content, dirty, view) && forall p :: p in order' <==> p in order
    ensures Coherent(disk, order', content, dirty, view)
  {
  }

  lemma WindowDistinct(trace: seq<nat>, n: nat)
    ensures Distinct(Recent(trace)) && Distinct(LastN(Recent(trace), n))
  {
    RecentDistinct(trace);
  }

  lemma TraceStep(trace: seq<nat>, p: nat)
    ensures Recent(trace + [p]) == Touch(Recent(trace), p)
  {
    assert (trace + [p])[..|trace|] == trace;
  }

  class Pool<D(==)> {
    const capacity: nat
    var disk: map<nat, D>
    var order: seq<nat>
    var content: map<nat, D>
    var dirty: set<nat>
    var hits: nat
    var misses: nat
    ghost var trace: seq<nat>
    ghost var view: map<nat, D>

    /** The cached pages, in order, are the most recent `capacity` distinct pages of the trace, and the
        cache is coherent. */
    ghost predicate Valid()
      reads this
    {
      capacity > 0 && order == LastN(Recent(trace), capacity) && Coherent(disk, order, content, dirty, view)
    }

    constructor (capacity: nat, disk: map<nat, D>)
      requires capacity > 0
      ensures Valid() && this.capacity == capacity && trace == [] && view == disk && this.disk == disk
    {
      this.capacity, this.disk := capacity, disk;
      order, content, dirty, hits, misses := [], map[], {}, 0, 0;
      trace, view := [], disk;
      new;
      assert Over(disk, map[]) == disk;
    }

    /** The first half of `_admit`: the oldest page leaves a full cache, written back if dirty. */
    method MakeRoom()
      requires Coherent(disk, order, content, dirty, view) && Distinct(order) && capacity > 0
      modifies this`disk, this`order, this`content, this`dirty
      ensures order == if |old(order)| >= capacity then old(order)[1..] else old(order)
      ensures Coherent(disk, order, content, dirty, view)
      ensures forall p | p !in old(order) && p in old(disk) :: p in disk && disk[p] == old(disk)[p]
    {
      if |order| >= capacity {
        EvictOk(disk, order, content, dirty, view);
        var out := order[0];
        assert out in order;
        if out in dirty {
          disk := disk[out := content[out]];
        }
        order, content, dirty := order[1..], content - {out}, dirty - {out};
      }
    }

    /** `fetch_page` without a snapshot: the last value written, whatever was evicted; None stands for
        the pager's IndexError. */
    method Fetch(pid: nat) returns (r: Option<D>)
      requires Valid()
      modifies this`disk, this`order, this`content, this`dirty, this`hits, this`misses, this`trace
      ensures Valid() && view == old(view)
      ensures r == if pid in view then Some(view[pid]) else None
      ensures trace == if r.Some? then old(trace) + [pid] else old(trace)
      ensures hits + misses == old(hits) + old(misses) + 1 && (hits > old(hits) <==> pid in old(order))
    {
      hide LastN, Recent, Touch;
      WindowDistinct(trace, capacity);
      TraceStep(trace, pid);
      if pid in content {
        HitKeepsWindow(Recent(trace), capacity, pid);
        r := Some(content[pid]);
        TouchKeeps(order, pid);
        Reordered(disk, order, Touch(order, pid), content, dirty, view);
        order := Touch(order, pid);
        hits := hits + 1;
        trace := trace + [pid];
        return;
      }
      misses := misses + 1;
      if pid !in disk {
        return None;
      }
      MissKeepsWindow(Recent(trace), capacity, pid);
      var data := disk[pid];
      ghost var order0 := order;
      MakeRoom();
      assert pid !in order;
      AddClean(disk, order, content, dirty, view, pid);
      content, order := content[pid := data], order + [pid];
      trace := trace + [pid];
      r := Some(data);
    }

    /** `write_page`. */
    method Write(pid: nat, data: D)
      requires Valid()
      modifies this`disk, this`order, this`content, this`dirty, this`trace, this`view
      ensures Valid() && view == old(view)[pid := data] && trace == old(trace) + [pid]
    {
      hide LastN, Recent, Touch;
      WindowDistinct(trace, capacity);
      TraceStep(trace, pid);
      if pid in content {
        HitKeepsWindow(Recent(trace), capacity, pid);
        TouchKeeps(order, pid);
        PutDirty(disk, order, Touch(order, pid), content, dirty, view, pid, data);
        content, order := content[pid := data], Touch(order, pid);
      } else {
        MissKeepsWindow(Recent(trace), capacity, pid);
        MakeRoom();
        PutDirty(disk, order, order + [pid], content, dirty, view, pid, data);
        content, order := content[pid := data], order + [pid];
      }
      dirty := dirty + {pid};
      trace, view := trace + [pid], view[pid := data];
    }

    /** `mark_dirty`: no touch; false stands for ValueError. */
    method MarkDirty(pid: nat) returns (ok: bool)
      requires Valid()
      modifies this`dirty
      ensures Valid() && ok == (pid in order) && dirty == if ok then old(dirty) + {pid} else old(dirty)
    {
      ok := pid in content;
      if ok {
        dirty := dirty + {pid};
      }
    }

    /** `flush_all`: afterwards the disk is the logical view. */
    method FlushAll()
      requires Valid()
      modifies this`disk, this`dirty
      ensures Valid() && disk == view && dirty == {}
    {
      for i := 0 to |order|
        invariant Coherent(disk, order, content, dirty, view)
        invariant forall j :: 0 <= j < i ==> order[j] !in dirty
      {
        var pid := order[i];
        assert pid in order;
        if pid in dirty {
          FlushOk(disk, order, content, dirty, view, pid);
          disk, dirty := disk[pid := content[pid]], dirty - {pid};
        }
      }
      AllClean(disk, order, content, dirty, view);
    }
  }

  /** `move_to_end` keeps the pages. */
  lemma TouchKeeps(order: seq<nat>, p: nat)
    requires p in order
    ensures forall q :: q in Touch(order, p) <==> q in order
  {
  }

  lemma FlushOk<D>(disk: map<nat, D>, order: seq<nat>, content: map<nat, D>, dirty: set<nat>, view: map<nat, D>,
                   pid: nat)
    requires Coherent(disk, order, content, dirty, view) && pid in dirty
    ensures Coherent(disk[pid := content[pid]], order, content, dirty - {pid}, view)
  {
    assert Over(disk[pid := content[pid]], content) == view;
  }

  lemma AllClean<D>(disk: map<nat, D>, order: seq<nat>, content: map<nat, D>, dirty: set<nat>, view: map<nat, D>)
    requires Coherent(disk, order, content, dirty, view) && forall j :: 0 <= j < |order| ==> order[j] !in dirty
    ensures dirty == {} && disk == view
  {
    forall p ensures p !in dirty {
      if p in order {
        var j :| 0 <= j < |order| && order[j] == p;
      }
    }
    assert disk == view;
  }
}
