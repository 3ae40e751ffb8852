/** Main results about deletion: the refinement, the keys an internal borrow loses, and the
    leaf chain. */
module BTreeDeleteExact {
  import opened Common
  import opened BTree
  import opened BTreeInsert
  import opened BTreeDelete
  import opened BTreeDeleteProof

  // ----- without an internal borrow

  /** The whole tree after a deletion, root collapse included. */
  lemma DeleteKeeps(t: Tree, e: Entry, c: Caps, h: nat) returns (h': nat, p: nat)
    requires WF(t, h, None, None) && Shaped(t) && Occ(t, true, c) && Roomy(c) && !BorrowsInternally(t, e)
    ensures var t' := Delete(t, e);
            && WF(t', h', None, None) && Occ(t', true, c) && (h' == h || h' + 1 == h)
            && (e !in Entries(t) ==> t' == t)
            && (e in Entries(t) ==>
                  p < |Entries(t)| && Entries(t)[p] == e && Entries(t') == Splice(Entries(t), p, 1, []))
  {
    p := DelKeeps(t, e, c, true, h, None, None);
    h' := RootOfKeeps(DelT(t, e), c, h);
    hide DelT, BorrowsInternally, Shaped, RootOf, WF, Occ, Entries, Fits;
  }

  lemma RootOfKeeps(d: Del, c: Caps, h: nat) returns (h': nat)
    requires WF(d.t, h, None, None) && DelOcc(d, true, c)
    ensures WF(RootOf(d.t), h', None, None) && Occ(RootOf(d.t), true, c) && (h' == h || h' + 1 == h)
    ensures Entries(RootOf(d.t)) == Entries(d.t) && (!d.removed ==> RootOf(d.t) == d.t)
  {
    h' := h;
    var r := d.t;
    if r.Node? && |r.kids| == 1 {
      h' := h - 1;
      WFsAt(r.keys, r.kids, h - 1, None, None, 0);
      assert r.kids == [r.kids[0]] && r.kids[0] in r.kids;
      OneKid(r.kids[0]);
    }
  }

  lemma InRemoved(es: seq<Entry>, p: nat, x: Entry)
    requires Increasing(es) && p < |es|
    ensures x in Splice(es, p, 1, []) <==> x in es && x != es[p]
  {
    var r := Splice(es, p, 1, []);
    if x in es && x != es[p] {
      var j :| 0 <= j < |es| && es[j] == x;
      assert r[if j < p then j else j - 1] == x;
    }
    if x in r {
      var j :| 0 <= j < |r| && r[j] == x;
      assert es[if j < p then j else j + 1] == x;
    }
  }

  /** Deletion refines map removal: exactly the entry (key, rid) goes, nothing happens when it is
      absent, and search sees the resulting map. */
  lemma DeleteRefinesMap(t: Tree, e: Entry, c: Caps, h: nat, k: int)
    requires WF(t, h, None, None) && Shaped(t) && Occ(t, true, c) && Roomy(c) && !BorrowsInternally(t, e)
    ensures var m, m' := Content(Entries(t)), Content(Entries(Delete(t, e)));
            m' == if e.key in m && m[e.key] == e.rid then m - {e.key} else m
    ensures Shaped(Delete(t, e))
    ensures Find(Delete(t, e), k) ==
              if k == e.key && e.key in Content(Entries(t)) && Content(Entries(t))[e.key] == e.rid then []
                  else Find(t, k)
  {
    var t' := Delete(t, e);
    var h', p := DeleteKeeps(t, e, c, h);
    var es, es' := Entries(t), Entries(t');
    EntriesSorted(t, h, None, None);
    EntriesSorted(t', h', None, None);
    FindIsLookup(t, h, None, None, k);
    FindIsLookup(t', h', None, None, k);
    ContentIs(es, e.key, e.rid);
    if e in es {
      ContentRemoved(es, p);
    }
    ContentIs(es, k, e.rid);
    ContentIs(es', k, e.rid);
    hide *;
  }

  lemma ContentRemoved(es: seq<Entry>, p: nat)
    requires Increasing(es) && p < |es| && Increasing(Splice(es, p, 1, []))
    ensures Content(Splice(es, p, 1, [])) == Content(es) - {es[p].key}
  {
    var m, es' := Content(es) - {es[p].key}, Splice(es, p, 1, []);
    ContentIs(es, es[p].key, es[p].rid);
    forall x: Entry ensures x in es' <==> x.key in m && m[x.key] == x.rid {
      hide Content, Increasing, Splice;
      InRemoved(es, p, x);
      ContentIs(es, x.key, x.rid);
    }
    SameEntriesSameMap(es', m);
  }

  // ----- with one

  lemma {:induction false} FindInEntries(t: Tree, k: int)
    requires Shaped(t) && Lookup(Entries(t), k) == []
    ensures Find(t, k) == []
    decreases t
  {
    match t
    case Leaf(l) => OneLeaf(l);
    case Node(_, keys, kids) =>
      var i := UpperBound(keys, k);
      ShapedAt(kids, i);
      LookupInKid(kids, i, k);
      FindInEntries(kids[i], k);
  }

  lemma LookupInKid(kids: seq<Tree>, i: nat, k: int)
    requires i < |kids|
    ensures Lookup(EntriesAll(kids), k) == [] ==> Lookup(Entries(kids[i]), k) == []
  {
    var a, m, b := EntriesAll(kids[..i]), Entries(kids[i]), EntriesAll(kids[i + 1..]);
    assert EntriesAll(kids) == a + m + b by {
      EntriesSplice(kids, i, 1, []);
      assert kids[i..i + 1] == [kids[i]];
      OneKid(kids[i]);
    }
    LookupAppend(a, m, k);
    LookupAppend(a + m, b, k);
  }

  lemma {:induction false} LookupHits(es: seq<Entry>, e: Entry)
    requires e in es
    ensures Lookup(es, e.key) != []
  {
    if es[0] != e {
      LookupHits(es[1..], e);
    }
  }

  lemma {:induction false} NonEmpty(t: Tree, c: Caps) returns (e: Entry)
    requires Occ(t, false, c) && Shaped(t)
    ensures e in Entries(t)
    decreases t
  {
    match t
    case Leaf(l) =>
      OneLeaf(l);
      e := l.es[0];
    case Node(_, _, kids) =>
      assert kids[0] in kids;
      e := NonEmpty(kids[0], c);
      assert kids == [kids[0]] + kids[1..];
      EntriesAppend([kids[0]], kids[1..]);
      OneKid(kids[0]);
  }

  lemma UpperBoundIs(keys: seq<int>, k: int, i: nat)
    requires Sorted(keys) && i <= |keys|
    requires (i > 0 ==> keys[i - 1] <= k) && (i < |keys| ==> k < keys[i])
    ensures UpperBound(keys, k) == i
  {
  }

  /** A subtree whose bounds exclude k does not find it. */
  lemma OutOfBounds(t: Tree, h: nat, lo: Bound, hi: Bound, k: int)
    requires WF(t, h, lo, hi) && Shaped(t) && !(Above(lo, k) && Below(k, hi))
    ensures Find(t, k) == []
  {
    EntriesSorted(t, h, lo, hi);
    LookupMisses(Entries(t), k);
    FindInEntries(t, k);
  }

  /** b borrowed a's last child, and now hides every entry of it behind its own first child. */
  lemma TakeLeftHides(a: Tree, s: int, b: Tree, c: Caps, h: nat, lo: Bound, hi: Bound) returns (x: Entry)
    requires a.Node? && b.Node? && Spare(a) && Shaped(a) && Shaped(b) && h > 0
    requires WF(a, h, lo, Some(s)) && WF(b, h, Some(s), hi) && Fits(a, c)
    ensures x in Entries(a) && Above(lo, x.key) && TakeLeft(a, b).0 <= x.key < s
    ensures Shaped(TakeLeft(a, b).2) && Find(TakeLeft(a, b).2, x.key) == []
  {
    var n := |a.keys|;
    var last := a.kids[n];
    WFsAt(a.keys, a.kids, h - 1, lo, Some(s), n);
    WFsSorted(a.keys, a.kids, h - 1, lo, Some(s));
    assert a.keys[n - 1] in a.keys && last in a.kids;
    ShapedAt(a.kids, n);
    x := NonEmpty(last, c);
    EntriesSorted(last, h - 1, Some(a.keys[n - 1]), Some(s));
    KidEntry(a.kids, n, x);
    TakeLeftShaped(a, b);
    WFsSorted(b.keys, b.kids, h - 1, Some(s), hi);
    WFsAt(b.keys, b.kids, h - 1, Some(s), hi, 0);
    ShapedAt(b.kids, 0);
    var keys := [a.keys[n - 1]] + b.keys;
    forall q | q in b.keys ensures q >= s {}
    SortedCons(a.keys[n - 1], b.keys);
    if b.keys != [] {
      assert keys[1] in b.keys;
    }
    UpperBoundIs(keys, x.key, 1);
    OutOfBounds(b.kids[0], h - 1, Some(s), Hi(b.keys, 0, hi), x.key);
  }

  lemma SortedCons(k: int, keys: seq<int>)
    requires Sorted(keys) && forall q <- keys :: k <= q
    ensures Sorted([k] + keys)
  {
    var s := [k] + keys;
    forall i, j | 0 <= i < j < |s| ensures s[i] <= s[j] {
      assert s[j] == keys[j - 1] && s[j] in keys;
    }
  }

  lemma SortedSnoc(keys: seq<int>, k: int)
    requires Sorted(keys) && forall q <- keys :: q <= k
    ensures Sorted(keys + [k])
  {
    var s := keys + [k];
    forall i, j | 0 <= i < j < |s| ensures s[i] <= s[j] {
      assert s[i] == keys[i] && s[i] in keys;
    }
  }

  lemma KidEntry(kids: seq<Tree>, i: nat, x: Entry)
    requires i < |kids| && x in Entries(kids[i])
    ensures x in EntriesAll(kids)
  {
    EntriesSplice(kids, i, 1, []);
    assert kids[i..i + 1] == [kids[i]];
    OneKid(kids[i]);
  }

  /** a borrowed b's first child, and hides every entry of it behind its own last child. */
  lemma TakeRightHides(a: Tree, s: int, b: Tree, c: Caps, h: nat, lo: Bound, hi: Bound) returns (x: Entry)
    requires a.Node? && b.Node? && Spare(b) && Shaped(a) && Shaped(b) && h > 0
    requires WF(a, h, lo, Some(s)) && WF(b, h, Some(s), hi) && Fits(b, c)
    ensures x in Entries(b) && Below(x.key, hi) && s <= x.key < TakeRight(a, b).0
    ensures Shaped(TakeRight(a, b).1) && Find(TakeRight(a, b).1, x.key) == []
  {
    WFsAt(b.keys, b.kids, h - 1, Some(s), hi, 0);
    WFsSorted(b.keys, b.kids, h - 1, Some(s), hi);
    assert b.keys[0] in b.keys && b.keys[1] in b.keys && b.kids[0] in b.kids;
    ShapedAt(b.kids, 0);
    x := NonEmpty(b.kids[0], c);
    EntriesSorted(b.kids[0], h - 1, Some(s), Some(b.keys[0]));
    KidEntry(b.kids, 0, x);
    TakeRightShaped(a, b);
    var n := |a.keys|;
    WFsSorted(a.keys, a.kids, h - 1, lo, Some(s));
    WFsAt(a.keys, a.kids, h - 1, lo, Some(s), n);
    ShapedAt(a.kids, n);
    var keys := a.keys + [b.keys[0]];
    forall q | q in a.keys ensures q <= s {}
    SortedSnoc(a.keys, b.keys[0]);
    if n > 0 {
      assert keys[n - 1] in a.keys;
    }
    UpperBoundIs(keys, x.key, n);
    OutOfBounds(a.kids[n], h - 1, Lo(a.keys, n, lo), Some(s), x.key);
  }

  /** Searching a row of children: a key between two separators is looked up in the child there. */
  lemma FindInRow(pid: nat, keys: seq<int>, kids: seq<Tree>, i: nat, k: int)
    requires i < |kids| == |keys| + 1 && ShapedAll(kids) && Sorted(keys)
    requires (i > 0 ==> keys[i - 1] <= k) && (i < |keys| ==> k < keys[i])
    ensures Shaped(kids[i]) && Find(Node(pid, keys, kids), k) == Find(kids[i], k)
  {
    ShapedAt(kids, i);
    UpperBoundIs(keys, k, i);
  }

  lemma SortedPut(keys: seq<int>, i: nat, k: int)
    requires Sorted(keys) && i < |keys|
    requires (i > 0 ==> keys[i - 1] <= k) && (i + 1 < |keys| ==> k <= keys[i + 1])
    ensures Sorted(Splice(keys, i, 1, [k])) && Splice(keys, i, 1, [k])[i] == k
    ensures forall j :: 0 <= j < |keys| && j != i ==> Splice(keys, i, 1, [k])[j] == keys[j]
  {
    var s := Splice(keys, i, 1, [k]);
    assert s == keys[i := k];
  }

  /** The borrow that happens at this node, from its left or right neighbour: some entry of the node,
      under another key than the deleted one, can no longer be found. */
  lemma BorrowHereLoses(t: Tree, e: Entry, i: nat, d: Del, c: Caps, root: bool, h: nat, lo: Bound, hi: Bound)
    returns (x: Entry)
    requires t.Node? && WF(t, h, lo, hi) && Shaped(t) && Occ(t, root, c)
    requires i == UpperBound(t.keys, e.key) && i < |t.kids| && Shaped(d.t)
    requires WF(d.t, h - 1, Lo(t.keys, i, lo), Hi(t.keys, i, hi))
    requires BorrowsHere(t.kids, i, d)
    ensures x in Entries(t) && x.key != e.key && Above(lo, x.key) && Below(x.key, hi)
    ensures var r := NodeDel(t.pid, t.keys, t.kids, i, d);
            r.t.Node? && |r.t.kids| == |t.kids| && |r.t.keys| == |t.keys| && Find(r.t, x.key) == []
  {
    var keys, kids' := t.keys, Splice(t.kids, i, 1, [d.t]);
    WFsSorted(keys, t.kids, h - 1, lo, hi);
    WFsAt(keys, t.kids, h - 1, lo, hi, i);
    ShapedSplice(t.kids, i, 1, [d.t]);
    assert kids'[i] == d.t && forall j :: 0 <= j < |kids'| && j != i ==> kids'[j] == t.kids[j];
    if i > 0 {
      WFsAt(keys, t.kids, h - 1, lo, hi, i - 1);
    }
    hide Rebalance;
    if i > 0 && Spare(t.kids[i - 1]) {
      x := LeftLoses(t, i, d.t, c, root, h, lo, hi);
      RebalanceLeft(keys, kids', i);
    } else {
      x := RightLoses(t, i, d.t, c, root, h, lo, hi);
      RebalanceRight(keys, kids', i);
    }
    hide WF, WFs, Occ, Entries, UpperBound, Find, ShapedAll;
  }

  lemma RebalanceLeft(keys: seq<int>, kids: seq<Tree>, i: nat)
    requires 0 < i < |kids| == |keys| + 1 && ShapedAll(kids) && Spare(kids[i - 1]) && SameKind(kids[i - 1], kids[i])
    requires Shaped(kids[i - 1])
    ensures var (s, a, b) := TakeLeft(kids[i - 1], kids[i]);
            Rebalance(keys, kids, i) == Some(Row(Splice(keys, i - 1, 1, [s]), Splice(kids, i - 1, 2, [a, b])))
  {
  }

  lemma RebalanceRight(keys: seq<int>, kids: seq<Tree>, i: nat)
    requires i + 1 < |kids| == |keys| + 1 && ShapedAll(kids) && Spare(kids[i + 1]) && SameKind(kids[i], kids[i + 1])
    requires Shaped(kids[i + 1]) && (i > 0 ==> SameKind(kids[i - 1], kids[i]) && !Spare(kids[i - 1]))
    ensures var (s, a, b) := TakeRight(kids[i], kids[i + 1]);
            Rebalance(keys, kids, i) == Some(Row(Splice(keys, i, 1, [s]), Splice(kids, i, 2, [a, b])))
  {
  }

  lemma PairShaped(kids: seq<Tree>, i: nat, k: Tree, j: nat, a: Tree, b: Tree)
    requires ShapedAll(kids) && Shaped(k) && Shaped(a) && Shaped(b) && i < |kids| && j + 1 < |kids|
    ensures var kids' := Splice(Splice(kids, i, 1, [k]), j, 2, [a, b]);
            ShapedAll(kids') && |kids'| == |kids| && kids'[j] == a && kids'[j + 1] == b
  {
    TwoShaped(a, b);
    TwoShaped(k, k);
    ShapedSplice(kids, i, 1, [k]);
    ShapedSplice(Splice(kids, i, 1, [k]), j, 2, [a, b]);
  }

  lemma NodeEntries(t: Tree)
    requires t.Node?
    ensures Entries(t) == EntriesAll(t.kids)
  {
  }

  lemma LeftLoses(t: Tree, i: nat, b: Tree, c: Caps, root: bool, h: nat, lo: Bound, hi: Bound) returns (x: Entry)
    requires t.Node? && WF(t, h, lo, hi) && Shaped(t) && Occ(t, root, c)
    requires 0 < i < |t.kids| && Spare(t.kids[i - 1]) && t.kids[i].Node? && Shaped(b)
    requires WF(b, h - 1, Lo(t.keys, i, lo), Hi(t.keys, i, hi))
    ensures x in Entries(t) && x.key < t.keys[i - 1] && Above(lo, x.key) && Below(x.key, hi)
    ensures Shaped(t.kids[i - 1]) && SameKind(t.kids[i - 1], b) && b.Node?
    ensures var (s, a', b') := TakeLeft(t.kids[i - 1], b);
            var kids' := Splice(Splice(t.kids, i, 1, [b]), i - 1, 2, [a', b']);
            ShapedAll(kids') && Find(Node(t.pid, Splice(t.keys, i - 1, 1, [s]), kids'), x.key) == []
  {
    var keys, kids := t.keys, t.kids;
    WFsSorted(keys, kids, h - 1, lo, hi);
    WFsAt(keys, kids, h - 1, lo, hi, i);
    WFsAt(keys, kids, h - 1, lo, hi, i - 1);
    ShapedAt(kids, i - 1);
    var a := kids[i - 1];
    assert a in kids;
    x := TakeLeftHides(a, keys[i - 1], b, c, h - 1, Lo(keys, i - 1, lo), Hi(keys, i, hi));
    assert a.keys[|a.keys| - 1] in a.keys;
    WFsSorted(a.keys, a.kids, h - 2, Lo(keys, i - 1, lo), Some(keys[i - 1]));
    EntriesSorted(t, h, lo, hi);
    hide WFs, WF, Occ, Entries, Find, EntriesAll, Increasing;
    KidEntry(kids, i - 1, x);
    assert EntriesAll(kids) == Entries(t) by { NodeEntries(t); }
    LeftRow(t.pid, keys, kids, i, b, x.key);
  }

  lemma LeftRow(pid: nat, keys: seq<int>, kids: seq<Tree>, i: nat, b: Tree, k: int)
    requires 0 < i < |kids| == |keys| + 1 && ShapedAll(kids) && Sorted(keys)
    requires Shaped(kids[i - 1]) && Shaped(b) && Spare(kids[i - 1]) && kids[i - 1].Node? && b.Node?
    requires var s := TakeLeft(kids[i - 1], b).0; s <= k < keys[i - 1] && (i > 1 ==> keys[i - 2] <= s)
    ensures var (s, a', b') := TakeLeft(kids[i - 1], b);
            var kids' := Splice(Splice(kids, i, 1, [b]), i - 1, 2, [a', b']);
            && ShapedAll(kids') && |kids'| == |kids| && Shaped(b')
            && Find(Node(pid, Splice(keys, i - 1, 1, [s]), kids'), k) == Find(b', k)
  {
    var (s, a', b') := TakeLeft(kids[i - 1], b);
    TakeLeftShaped(kids[i - 1], b);
    PairShaped(kids, i, b, i - 1, a', b');
    SortedPut(keys, i - 1, s);
    hide Shaped, ShapedAll, TakeLeft, Find;
    FindInRow(pid, Splice(keys, i - 1, 1, [s]), Splice(Splice(kids, i, 1, [b]), i - 1, 2, [a', b']), i, k);
  }

  lemma RightLoses(t: Tree, i: nat, a: Tree, c: Caps, root: bool, h: nat, lo: Bound, hi: Bound) returns (x: Entry)
    requires t.Node? && WF(t, h, lo, hi) && Shaped(t) && Occ(t, root, c)
    requires i + 1 < |t.kids| && Spare(t.kids[i + 1]) && t.kids[i].Node? && Shaped(a)
    requires WF(a, h - 1, Lo(t.keys, i, lo), Hi(t.keys, i, hi))
    ensures x in Entries(t) && t.keys[i] <= x.key && Above(lo, x.key) && Below(x.key, hi)
    ensures Shaped(t.kids[i + 1]) && SameKind(a, t.kids[i + 1]) && a.Node?
    ensures var (s, a', b') := TakeRight(a, t.kids[i + 1]);
            var kids' := Splice(Splice(t.kids, i, 1, [a]), i, 2, [a', b']);
            ShapedAll(kids') && Find(Node(t.pid, Splice(t.keys, i, 1, [s]), kids'), x.key) == []
  {
    var keys, kids := t.keys, t.kids;
    WFsSorted(keys, kids, h - 1, lo, hi);
    WFsAt(keys, kids, h - 1, lo, hi, i);
    WFsAt(keys, kids, h - 1, lo, hi, i + 1);
    ShapedAt(kids, i + 1);
    var b := kids[i + 1];
    assert b in kids;
    x := TakeRightHides(a, keys[i], b, c, h - 1, Lo(keys, i, lo), Hi(keys, i + 1, hi));
    KidEntry(kids, i + 1, x);
    EntriesSorted(t, h, lo, hi);
    assert b.keys[1] in b.keys;
    WFsSorted(b.keys, b.kids, h - 2, Some(keys[i]), Hi(keys, i + 1, hi));
    hide WFs, WF, Occ, Entries, Find;
    RightRow(t.pid, keys, kids, i, a, x.key);
  }

  lemma RightRow(pid: nat, keys: seq<int>, kids: seq<Tree>, i: nat, a: Tree, k: int)
    requires i + 1 < |kids| == |keys| + 1 && ShapedAll(kids) && Sorted(keys)
    requires Shaped(kids[i + 1]) && Shaped(a) && Spare(kids[i + 1]) && kids[i + 1].Node? && a.Node?
    requires var s := TakeRight(a, kids[i + 1]).0; keys[i] <= k < s && (i + 1 < |keys| ==> s <= keys[i + 1])
    ensures var (s, a', b') := TakeRight(a, kids[i + 1]);
            var kids' := Splice(Splice(kids, i, 1, [a]), i, 2, [a', b']);
            && ShapedAll(kids') && |kids'| == |kids| && Shaped(a')
            && Find(Node(pid, Splice(keys, i, 1, [s]), kids'), k) == Find(a', k)
  {
    var (s, a', b') := TakeRight(a, kids[i + 1]);
    TakeRightShaped(a, kids[i + 1]);
    PairShaped(kids, i, a, i, a', b');
    SortedPut(keys, i, s);
    hide Shaped, ShapedAll, TakeRight, Find;
    FindInRow(pid, Splice(keys, i, 1, [s]), Splice(Splice(kids, i, 1, [a]), i, 2, [a', b']), i, k);
  }

  /** What a child cannot find, its parent cannot find. */
  lemma LostBelow(t: Tree, i: nat, d: Del, x: Entry, h: nat, lo: Bound, hi: Bound)
    requires t.Node? && WF(t, h, lo, hi) && Shaped(t) && i < |t.kids| && Shaped(d.t) && !d.under
    requires x in Entries(t) && Above(Lo(t.keys, i, lo), x.key) && Below(x.key, Hi(t.keys, i, hi))
             && Find(d.t, x.key) == []
    ensures Above(lo, x.key) && Below(x.key, hi)
    ensures var r := NodeDel(t.pid, t.keys, t.kids, i, d);
            r.t.Node? && |r.t.kids| == |t.kids| && !r.under && Find(r.t, x.key) == []
  {
    EntriesSorted(t, h, lo, hi);
    WFsSorted(t.keys, t.kids, h - 1, lo, hi);
    TwoShaped(d.t, d.t);
    ShapedSplice(t.kids, i, 1, [d.t]);
    FindInRow(t.pid, t.keys, Splice(t.kids, i, 1, [d.t]), i, x.key);
  }

  /** Whenever the guard holds, some entry under another key becomes invisible. */
  lemma {:induction false} InternalBorrowLoses(t: Tree, e: Entry, c: Caps, root: bool, h: nat, lo: Bound, hi: Bound)
    returns (x: Entry)
    requires WF(t, h, lo, hi) && Shaped(t) && Above(lo, e.key) && Below(e.key, hi)
    requires Occ(t, root, c) && Roomy(c) && BorrowsInternally(t, e)
    ensures x in Entries(t) && x.key != e.key && Above(lo, x.key) && Below(x.key, hi)
    ensures var d := DelT(t, e);
            d.t.Node? && |d.t.kids| == |t.kids| && (!root ==> !d.under) && Find(d.t, x.key) == []
    decreases t
  {
    var keys, kids := t.keys, t.kids;
    var i := UpperBound(keys, e.key);
    ShapedAt(kids, i);
    UpperBoundIsChild(keys, e.key, lo, hi);
    WFsAt(keys, kids, h - 1, lo, hi, i);
    assert kids[i] in kids;
    var l, u := Lo(keys, i, lo), Hi(keys, i, hi);
    if BorrowsInternally(kids[i], e) {
      x := InternalBorrowLoses(kids[i], e, c, false, h - 1, l, u);
      KidEntry(kids, i, x);
      var d := DelT(kids[i], e);
      assert !d.under && DelT(t, e) == NodeDel(t.pid, keys, kids, i, d);
      LostBelow(t, i, d, x, h, lo, hi);
      hide DelT, BorrowsInternally, WF, Find, Shaped, Entries;
    } else {
      var _ := DelKeeps(kids[i], e, c, false, h - 1, l, u);
      var d := DelT(kids[i], e);
      assert BorrowsHere(kids, i, d) && DelT(t, e) == NodeDel(t.pid, keys, kids, i, d);
      x := BorrowHereLoses(t, e, i, d, c, root, h, lo, hi);
      hide DelT, BorrowsInternally, WF, Find, Shaped, Entries;
    }
  }

  /** Exactly when deletion leaves every other key findable. */
  lemma DeleteExact(t: Tree, e: Entry, c: Caps, h: nat)
    requires WF(t, h, None, None) && Shaped(t) && Occ(t, true, c) && Roomy(c)
    ensures Shaped(Delete(t, e))
    ensures (forall k :: k != e.key ==> Find(Delete(t, e), k) == Find(t, k)) <==> !BorrowsInternally(t, e)
  {
    if BorrowsInternally(t, e) {
      var x := InternalBorrowLoses(t, e, c, true, h, None, None);
      FindIsLookup(t, h, None, None, x.key);
      LookupHits(Entries(t), x);
      assert Find(Delete(t, e), x.key) != Find(t, x.key);
    } else {
      DeleteRefinesMap(t, e, c, h, 0);
      forall k | k != e.key ensures Find(Delete(t, e), k) == Find(t, k) {
        DeleteRefinesMap(t, e, c, h, k);
      }
    }
  }
}
