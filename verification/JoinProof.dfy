/** The indexed join against the nested-loop join: equal multisets of rows, at every nesting depth. */
module JoinProof {
  import opened Common
  import opened Rows
  import opened JoinLayout
  import opened Join

  /** One join node seen through its slots: left rows have wl columns, right rows w, and ON compares
      left slot i with right slot j. */
  datatype Node = Node(on: Option<On>, m: Positions, wl: nat, w: nat, i: nat, j: nat)

  ghost predicate NodeOk(n: Node) {
    && n.on.Some? && n.i < n.wl && n.j < n.w
    && Resolve(n.on.value.l, n.m) == Some(n.i) && Resolve(n.on.value.r, n.m) == Some(n.wl + n.j)
  }

  predicate Wide(rows: seq<Row>, w: nat) {
    forall k :: 0 <= k < |rows| ==> |rows[k]| == w
  }

  function KeyIs(j: nat, v: Val): Row -> bool {
    (r: Row) => |r| > j && r[j] == v
  }

  function Prefix(l: Row, rs: seq<Row>): (out: seq<Row>)
    ensures |out| == |rs| && forall k :: 0 <= k < |rs| ==> out[k] == l + rs[k]
  {
    seq(|rs|, k requires 0 <= k < |rs| => l + rs[k])
  }

  lemma HoldsIs(n: Node, l: Row, r: Row)
    requires NodeOk(n) && |l| == n.wl && |r| == n.w
    ensures Holds(n.on, l + r, n.m) <==> KeyIs(n.j, l[n.i])(r)
  {
    assert (l + r)[n.i] == l[n.i] && (l + r)[n.wl + n.j] == r[n.j];
  }

  /** The hits of a left row are the right rows with its key. */
  lemma {:induction false} HitsAre(n: Node, l: Row, rs: seq<Row>)
    requires NodeOk(n) && |l| == n.wl && Wide(rs, n.w)
    ensures Hits(l, rs, n.on, n.m) == Prefix(l, Matching(rs, KeyIs(n.j, l[n.i])))
    decreases |rs|
  {
    if rs != [] {
      var k := |rs| - 1;
      HitsAre(n, l, rs[..k]);
      HoldsIs(n, l, rs[k]);
      var a := Matching(rs[..k], KeyIs(n.j, l[n.i]));
      assert Prefix(l, a + [rs[k]]) == Prefix(l, a) + [l + rs[k]];
    }
  }

  lemma {:induction false} AllMatch(rs: seq<Row>, p: Row -> bool)
    requires forall k :: 0 <= k < |rs| ==> p(rs[k])
    ensures Matching(rs, p) == rs
    decreases |rs|
  {
    if rs != [] {
      AllMatch(rs[..|rs| - 1], p);
    }
  }

  lemma {:induction false} MatchingAre(rs: seq<Row>, p: Row -> bool)
    ensures forall r :: r in Matching(rs, p) <==> r in rs && p(r)
    decreases |rs|
  {
    if rs != [] {
      var k := |rs| - 1;
      MatchingAre(rs[..k], p);
      assert rs == rs[..k] + [rs[k]];
    }
  }

  lemma {:induction false} PrefixBag(l: Row, a: seq<Row>, b: seq<Row>)
    requires multiset(a) == multiset(b)
    ensures multiset(Prefix(l, a)) == multiset(Prefix(l, b))
    decreases |a|
  {
    if a == [] {
      EmptyBag(b);
    } else {
      var k := Place(a[0], a, b);
      var b' := b[..k] + b[k + 1..];
      PrefixBag(l, a[1..], b');
      assert Prefix(l, a) == [l + a[0]] + Prefix(l, a[1..]);
      assert Prefix(l, b) == Prefix(l, b[..k]) + [l + b[k]] + Prefix(l, b[k + 1..]);
      assert Prefix(l, b') == Prefix(l, b[..k]) + Prefix(l, b[k + 1..]);
    }
  }

  lemma EmptyBag(b: seq<Row>)
    requires multiset(b) == multiset{}
    ensures b == []
  {
    assert |multiset(b)| == |b|;
  }

  /** The first element of one list, found in a rearrangement; without it the rests agree too. */
  lemma Place(x: Row, a: seq<Row>, b: seq<Row>) returns (k: nat)
    requires a != [] && x == a[0] && multiset(a) == multiset(b)
    ensures k < |b| && b[k] == x && multiset(a[1..]) == multiset(b[..k] + b[k + 1..])
  {
    assert x in multiset(a);
    assert x in multiset(b);
    k :| 0 <= k < |b| && b[k] == x;
    assert a == [x] + a[1..];
    assert b == b[..k] + [x] + b[k + 1..];
    assert multiset(a) == multiset{x} + multiset(a[1..]);
    assert multiset(b) == multiset{x} + multiset(b[..k] + b[k + 1..]);
    Cancel(x, multiset(a[1..]), multiset(b[..k] + b[k + 1..]));
  }

  lemma Cancel(x: Row, a: multiset<Row>, b: multiset<Row>)
    requires multiset{x} + a == multiset{x} + b
    ensures a == b
  {
    forall y ensures a[y] == b[y] {
      assert (multiset{x} + a)[y] == (multiset{x} + b)[y];
    }
  }

  // ----- one left row

  /** The index lists, under every key, exactly the right rows with that key. */
  ghost predicate IndexAgrees(entries: map<int, seq<nat>>, rs: seq<Row>, j: nat) {
    InTable(entries, |rs|) && forall k :: Covers(EntriesAt(entries, k), rs, KeyIs(j, V(k)))
  }

  /** With a key, the index finds what the scan finds. */
  lemma KeyedBlock(n: Node, l: Row, rs: seq<Row>, entries: map<int, seq<nat>>, pad: bool)
    requires NodeOk(n) && |l| == n.wl && Wide(rs, n.w) && IndexAgrees(entries, rs, n.j) && l[n.i] != Null
    ensures multiset(IndexedBlock(l, n.i, rs, entries, n.on, n.m, pad, n.w))
            == multiset(Block(l, rs, n.on, n.m, pad, n.w))
  {
    var k := l[n.i].n;
    var p, rids := KeyIs(n.j, V(k)), EntriesAt(entries, k);
    assert Covers(rids, rs, p);
    var found := Fetch(rs, rids);
    forall q | 0 <= q < |found| ensures p(found[q]) && |found[q]| == n.w {
      assert rids[q] in rids;
    }
    FetchIsFilter(rids, rs, p);
    AllMatch(found, p);
    HitsAre(n, l, found);
    HitsAre(n, l, rs);
    PrefixBag(l, found, Matching(rs, p));
    var a, b := Hits(l, found, n.on, n.m), Hits(l, rs, n.on, n.m);
    hide Hits, Matching;
    if a == [] || b == [] {
      EmptyBags(a, b);
    }
  }

  lemma EmptyBags(a: seq<Row>, b: seq<Row>)
    requires multiset(a) == multiset(b)
    ensures a == [] <==> b == []
  {
    assert |multiset(a)| == |a| && |multiset(b)| == |b|;
  }

  /** Without a key: the scan pairs the row with the NULL-keyed right rows, the index pads or skips it. */
  lemma NullBlock(n: Node, l: Row, rs: seq<Row>, entries: map<int, seq<nat>>, pad: bool)
    requires NodeOk(n) && |l| == n.wl && Wide(rs, n.w) && InTable(entries, |rs|) && l[n.i] == Null
    ensures IndexedBlock(l, n.i, rs, entries, n.on, n.m, pad, n.w) == if pad then [l + Nulls(n.w)] else []
    ensures Block(l, rs, n.on, n.m, pad, n.w) ==
              if NullKeyed(rs, n.j) == [] && pad then [l + Nulls(n.w)] else Prefix(l, NullKeyed(rs, n.j))
  {
    HitsAre(n, l, rs);
  }

  function NullKeyed(rs: seq<Row>, j: nat): seq<Row> {
    Matching(rs, KeyIs(j, Null))
  }

  // ----- one node

  /** No left row has a NULL key, or no right row has, or the only such right row is all NULL and the
      join pads anyway. */
  ghost predicate NoClash(n: Node, ls: seq<Row>, rs: seq<Row>, pad: bool)
    requires NodeOk(n)
  {
    || (forall k :: 0 <= k < |ls| ==> |ls[k]| == n.wl && ls[k][n.i] != Null)
    || NullKeyed(rs, n.j) == []
    || (pad && NullKeyed(rs, n.j) == [Nulls(n.w)])
  }

  lemma SameBlock(n: Node, l: Row, rs: seq<Row>, entries: map<int, seq<nat>>, pad: bool)
    requires NodeOk(n) && |l| == n.wl && Wide(rs, n.w) && IndexAgrees(entries, rs, n.j)
    requires l[n.i] == Null ==> NullKeyed(rs, n.j) == [] || (pad && NullKeyed(rs, n.j) == [Nulls(n.w)])
    ensures multiset(IndexedBlock(l, n.i, rs, entries, n.on, n.m, pad, n.w))
            == multiset(Block(l, rs, n.on, n.m, pad, n.w))
  {
    if l[n.i] == Null {
      NullBlock(n, l, rs, entries, pad);
      if NullKeyed(rs, n.j) == [Nulls(n.w)] {
        assert Prefix(l, [Nulls(n.w)]) == [l + Nulls(n.w)];
      } else {
        assert Prefix(l, NullKeyed(rs, n.j)) == [];
      }
    } else {
      KeyedBlock(n, l, rs, entries, pad);
    }
  }

  lemma {:induction false} NodeAgrees(n: Node, ls: seq<Row>, rs: seq<Row>, entries: map<int, seq<nat>>, pad: bool)
    requires NodeOk(n) && Wide(ls, n.wl) && Wide(rs, n.w) && IndexAgrees(entries, rs, n.j) && NoClash(n, ls, rs, pad)
    ensures multiset(IndexedRows(ls, n.i, rs, entries, n.on, n.m, pad, n.w))
            == multiset(NestedRows(ls, rs, n.on, n.m, pad, n.w))
    decreases |ls|
  {
    if ls != [] {
      var k := |ls| - 1;
      NodeAgrees(n, ls[..k], rs, entries, pad);
      SameBlock(n, ls[k], rs, entries, pad);
    }
  }

  lemma BlockSizes(n: Node, l: Row, rs: seq<Row>, entries: map<int, seq<nat>>, pad: bool)
    requires NodeOk(n) && |l| == n.wl && Wide(rs, n.w) && IndexAgrees(entries, rs, n.j)
    requires NullKeyed(rs, n.j) != [] && (pad ==> |NullKeyed(rs, n.j)| > 1)
    ensures var x, y := IndexedBlock(l, n.i, rs, entries, n.on, n.m, pad, n.w), Block(l, rs, n.on, n.m, pad, n.w);
            |x| <= |y| && (l[n.i] == Null ==> |x| < |y|)
  {
    var x, y := IndexedBlock(l, n.i, rs, entries, n.on, n.m, pad, n.w), Block(l, rs, n.on, n.m, pad, n.w);
    hide NullKeyed, IndexedBlock, Block;
    if l[n.i] == Null {
      NullBlock(n, l, rs, entries, pad);
    } else {
      KeyedBlock(n, l, rs, entries, pad);
      assert |multiset(x)| == |x| && |multiset(y)| == |y|;
    }
  }

  /** Otherwise they differ: the nested loop yields more rows, or a row the index cannot yield. */
  lemma {:induction false} NoFewer(n: Node, ls: seq<Row>, rs: seq<Row>, entries: map<int, seq<nat>>, pad: bool, q: nat)
    requires NodeOk(n) && Wide(ls, n.wl) && Wide(rs, n.w) && IndexAgrees(entries, rs, n.j)
    requires NullKeyed(rs, n.j) != [] && (pad ==> |NullKeyed(rs, n.j)| > 1)
    ensures var a, b := IndexedRows(ls, n.i, rs, entries, n.on, n.m, pad, n.w), NestedRows(ls, rs, n.on, n.m, pad, n.w);
            |a| <= |b| && (q < |ls| && ls[q][n.i] == Null ==> |a| < |b|)
    decreases |ls|
  {
    hide NullKeyed, IndexedBlock, Block, IndexAgrees, NodeOk;
    if ls != [] {
      var k := |ls| - 1;
      NoFewer(n, ls[..k], rs, entries, pad, q);
      BlockSizes(n, ls[k], rs, entries, pad);
    }
  }

  lemma BlockYields(n: Node, l: Row, rs: seq<Row>, entries: map<int, seq<nat>>, x: Row)
    requires NodeOk(n) && |l| == n.wl && Wide(rs, n.w) && IndexAgrees(entries, rs, n.j)
    requires x in IndexedBlock(l, n.i, rs, entries, n.on, n.m, true, n.w)
    ensures |x| == n.wl + n.w && (x[n.wl..] == Nulls(n.w) || x[n.wl + n.j] != Null)
  {
    if l[n.i] == Null {
      assert (l + Nulls(n.w))[n.wl..] == Nulls(n.w);
    } else {
      KeyedBlock(n, l, rs, entries, true);
      var b := Block(l, rs, n.on, n.m, true, n.w);
      assert x in multiset(b);
      hide IndexedBlock;
      ScanYields(n, l, rs, x);
    }
  }

  lemma ScanYields(n: Node, l: Row, rs: seq<Row>, x: Row)
    requires NodeOk(n) && |l| == n.wl && Wide(rs, n.w) && l[n.i] != Null && x in Block(l, rs, n.on, n.m, true, n.w)
    ensures |x| == n.wl + n.w && (x[n.wl..] == Nulls(n.w) || x[n.wl + n.j] != Null)
  {
    HitsAre(n, l, rs);
    var p := KeyIs(n.j, l[n.i]);
    MatchingAre(rs, p);
    hide Hits, Matching;
    if x == l + Nulls(n.w) {
      assert x[n.wl..] == Nulls(n.w);
    } else {
      var hits := Matching(rs, p);
      var q :| 0 <= q < |hits| && x == l + hits[q];
      assert hits[q] in hits;
    }
  }

  /** Whatever the index yields ends in NULLs or in a right row that has a key. */
  lemma {:induction false} IndexedYields(n: Node, ls: seq<Row>, rs: seq<Row>, entries: map<int, seq<nat>>, x: Row)
    requires NodeOk(n) && Wide(ls, n.wl) && Wide(rs, n.w) && IndexAgrees(entries, rs, n.j)
    requires x in IndexedRows(ls, n.i, rs, entries, n.on, n.m, true, n.w)
    ensures |x| == n.wl + n.w && (x[n.wl..] == Nulls(n.w) || x[n.wl + n.j] != Null)
    decreases |ls|
  {
    hide IndexedBlock;
    var k := |ls| - 1;
    if x in IndexedRows(ls[..k], n.i, rs, entries, n.on, n.m, true, n.w) {
      IndexedYields(n, ls[..k], rs, entries, x);
    } else {
      BlockYields(n, ls[k], rs, entries, x);
    }
  }

  lemma {:induction false} NestedYields(n: Node, ls: seq<Row>, rs: seq<Row>, pad: bool, k: nat, r: Row)
    requires NodeOk(n) && Wide(ls, n.wl) && Wide(rs, n.w) && k < |ls| && ls[k][n.i] == Null && r in NullKeyed(rs, n.j)
    ensures ls[k] + r in NestedRows(ls, rs, n.on, n.m, pad, n.w)
    decreases |ls|
  {
    hide Block, NullKeyed;
    var e := |ls| - 1;
    if k < e {
      NestedYields(n, ls[..e], rs, pad, k, r);
    } else {
      NullHit(n, ls[k], rs, pad, r);
    }
  }

  lemma NullHit(n: Node, l: Row, rs: seq<Row>, pad: bool, r: Row)
    requires NodeOk(n) && |l| == n.wl && Wide(rs, n.w) && l[n.i] == Null && r in NullKeyed(rs, n.j)
    ensures l + r in Block(l, rs, n.on, n.m, pad, n.w)
  {
    HitsAre(n, l, rs);
    var a := NullKeyed(rs, n.j);
    var q :| 0 <= q < |a| && a[q] == r;
    assert Prefix(l, a)[q] == l + r;
  }

  /** One node, the same left rows: the two operators yield the same rows, up to order, exactly when
      no NULL key on the left meets a NULL key on the right. */
  lemma NodeExact(n: Node, ls: seq<Row>, rs: seq<Row>, entries: map<int, seq<nat>>, pad: bool)
    requires NodeOk(n) && Wide(ls, n.wl) && Wide(rs, n.w) && IndexAgrees(entries, rs, n.j)
    ensures multiset(IndexedRows(ls, n.i, rs, entries, n.on, n.m, pad, n.w))
            == multiset(NestedRows(ls, rs, n.on, n.m, pad, n.w))
            <==> NoClash(n, ls, rs, pad)
  {
    if NoClash(n, ls, rs, pad) {
      NodeAgrees(n, ls, rs, entries, pad);
    } else {
      var k :| 0 <= k < |ls| && ls[k][n.i] == Null;
      Differ(n, ls, rs, entries, pad, k);
    }
  }

  lemma Differ(n: Node, ls: seq<Row>, rs: seq<Row>, entries: map<int, seq<nat>>, pad: bool, k: nat)
    requires NodeOk(n) && Wide(ls, n.wl) && Wide(rs, n.w) && IndexAgrees(entries, rs, n.j)
    requires k < |ls| && ls[k][n.i] == Null && NullKeyed(rs, n.j) != [] && !(pad && NullKeyed(rs, n.j) == [Nulls(n.w)])
    ensures multiset(IndexedRows(ls, n.i, rs, entries, n.on, n.m, pad, n.w)) != multiset(NestedRows(ls, rs, n.on, n.m,
            pad, n.w))
  {
    var a, b := IndexedRows(ls, n.i, rs, entries, n.on, n.m, pad, n.w), NestedRows(ls, rs, n.on, n.m, pad, n.w);
    hide IndexedRows, NestedRows;
    if pad && |NullKeyed(rs, n.j)| == 1 {
      var x := NullPair(n, ls, rs, entries, k);
      assert x in multiset(b) && x !in multiset(a);
    } else {
      hide NullKeyed;
      NoFewer(n, ls, rs, entries, pad, k);
      assert |multiset(a)| == |a| && |multiset(b)| == |b|;
    }
  }

  lemma NullPair(n: Node, ls: seq<Row>, rs: seq<Row>, entries: map<int, seq<nat>>, k: nat) returns (x: Row)
    requires NodeOk(n) && Wide(ls, n.wl) && Wide(rs, n.w) && IndexAgrees(entries, rs, n.j)
    requires k < |ls| && ls[k][n.i] == Null && |NullKeyed(rs, n.j)| == 1 && NullKeyed(rs, n.j) != [Nulls(n.w)]
    ensures x in NestedRows(ls, rs, n.on, n.m, true, n.w)
            && x !in IndexedRows(ls, n.i, rs, entries, n.on, n.m, true, n.w)
  {
    hide IndexedRows, NestedRows, NullKeyed, IndexAgrees;
    var r := NullKeyed(rs, n.j)[0];
    NullKeyedAre(rs, n.j, n.w, r);
    x := ls[k] + r;
    NestedYields(n, ls, rs, true, k, r);
    assert x[n.wl..] == r && x[n.wl + n.j] == Null;
    NotYielded(n, ls, rs, entries, x);
  }

  lemma NullKeyedAre(rs: seq<Row>, j: nat, w: nat, r: Row)
    requires r in NullKeyed(rs, j) && Wide(rs, w) && j < w
    ensures r in rs && |r| == w && r[j] == Null
  {
    MatchingAre(rs, KeyIs(j, Null));
  }

  lemma NotYielded(n: Node, ls: seq<Row>, rs: seq<Row>, entries: map<int, seq<nat>>, x: Row)
    requires NodeOk(n) && Wide(ls, n.wl) && Wide(rs, n.w) && IndexAgrees(entries, rs, n.j)
    requires |x| == n.wl + n.w && x[n.wl..] != Nulls(n.w) && x[n.wl + n.j] == Null
    ensures x !in IndexedRows(ls, n.i, rs, entries, n.on, n.m, true, n.w)
  {
    if x in IndexedRows(ls, n.i, rs, entries, n.on, n.m, true, n.w) {
      IndexedYields(n, ls, rs, entries, x);
      assert false;
    }
  }

  // ----- the order of the left rows does not matter

  lemma {:induction false} NestedCons(l: Row, ls: seq<Row>, rs: seq<Row>, on: Option<On>, m: Positions, pad: bool,
                                      w: nat)
    ensures NestedRows([l] + ls, rs, on, m, pad, w) == Block(l, rs, on, m, pad, w) + NestedRows(ls, rs, on, m, pad, w)
    decreases |ls|
  {
    var all := [l] + ls;
    if ls == [] {
      assert all[..0] == [] && all[0] == l;
    } else {
      var k := |ls| - 1;
      NestedCons(l, ls[..k], rs, on, m, pad, w);
      assert all[..|all| - 1] == [l] + ls[..k] && all[|all| - 1] == ls[k];
    }
  }

  lemma {:induction false} NestedAppend(a: seq<Row>, b: seq<Row>, rs: seq<Row>, on: Option<On>, m: Positions,
                                        pad: bool, w: nat)
    ensures NestedRows(a + b, rs, on, m, pad, w) == NestedRows(a, rs, on, m, pad, w) + NestedRows(b, rs, on, m, pad, w)
    decreases |b|
  {
    if b == [] {
      assert a + b == a;
    } else {
      var k := |b| - 1;
      NestedAppend(a, b[..k], rs, on, m, pad, w);
      assert (a + b)[..|a + b| - 1] == a + b[..k] && (a + b)[|a + b| - 1] == b[k];
    }
  }

  lemma {:induction false} NestedBag(a: seq<Row>, b: seq<Row>, rs: seq<Row>, on: Option<On>, m: Positions, pad: bool,
                                     w: nat)
    requires multiset(a) == multiset(b)
    ensures multiset(NestedRows(a, rs, on, m, pad, w)) == multiset(NestedRows(b, rs, on, m, pad, w))
    decreases |a|
  {
    if a == [] {
      EmptyBag(b);
    } else {
      var k := Place(a[0], a, b);
      var x, y := b[..k], b[k + 1..];
      NestedBag(a[1..], x + y, rs, on, m, pad, w);
      assert a == [a[0]] + a[1..] && b == x + ([b[k]] + y);
      hide NestedRows, Block;
      NestedCons(a[0], a[1..], rs, on, m, pad, w);
      NestedCons(b[k], y, rs, on, m, pad, w);
      NestedAppend(x, [b[k]] + y, rs, on, m, pad, w);
      NestedAppend(x, y, rs, on, m, pad, w);
      var g := Block(a[0], rs, on, m, pad, w);
      Swap(g, NestedRows(a[1..], rs, on, m, pad, w), NestedRows(x, rs, on, m, pad, w),
           NestedRows(y, rs, on, m, pad, w));
    }
  }

  lemma Swap(g: seq<Row>, a: seq<Row>, x: seq<Row>, y: seq<Row>)
    requires multiset(a) == multiset(x + y)
    ensures multiset(g + a) == multiset(x + (g + y))
  {
    assert multiset(x + y) == multiset(x) + multiset(y);
    assert multiset(x + (g + y)) == multiset(x) + (multiset(g) + multiset(y));
  }
}
