/** The B-tree as a value: nodes with their page numbers, the search-tree invariant, and what it
    means for the entries. Everything a node operation does to its children is a splice
    (some run of children and separators replaced by another), so one lemma per notion suffices. */
module BTree {
  import opened Common

  datatype Entry = Entry(key: int, rid: Rid)

  /** A leaf page: sorted entries and the page of the next leaf in scan order. */
  datatype LeafRec = LeafRec(pid: nat, es: seq<Entry>, next: Option<nat>)

  datatype Tree =
    | Leaf(l: LeafRec)
    | Node(pid: nat, keys: seq<int>, kids: seq<Tree>)

  function Pid(t: Tree): nat {
    match t case Leaf(l) => l.pid case Node(p, _, _) => p
  }

  // ----- order

  type Bound = Option<int>

  predicate Above(lo: Bound, k: int) { lo.Some? ==> lo.value <= k }
  predicate Below(k: int, hi: Bound) { hi.Some? ==> k < hi.value }
  predicate Leq(lo: Bound, hi: Bound) { lo.Some? && hi.Some? ==> lo.value <= hi.value }

  predicate Sorted(keys: seq<int>) {
    forall i, j :: 0 <= i < j < |keys| ==> keys[i] <= keys[j]
  }

  predicate Increasing(es: seq<Entry>) {
    forall i, j :: 0 <= i < j < |es| ==> es[i].key < es[j].key
  }

  predicate Between(es: seq<Entry>, lo: Bound, hi: Bound) {
    forall e <- es :: Above(lo, e.key) && Below(e.key, hi)
  }

  /** The number of leading keys <= k: the index `_upper_bound` returns on a sorted list. */
  function UpperBound(keys: seq<int>, k: int): (i: nat)
    ensures i <= |keys|
    ensures forall j :: 0 <= j < i ==> keys[j] <= k
    ensures i < |keys| ==> k < keys[i]
  {
    if keys == [] || k < keys[0] then 0 else 1 + UpperBound(keys[1..], k)
  }

  function LowerBound(keys: seq<int>, k: int): (i: nat)
    ensures i <= |keys|
    ensures forall j :: 0 <= j < i ==> keys[j] < k
    ensures i < |keys| ==> k <= keys[i]
  {
    if keys == [] || k <= keys[0] then 0 else 1 + LowerBound(keys[1..], k)
  }

  function Keys(es: seq<Entry>): (ks: seq<int>)
    ensures |ks| == |es| && forall i :: 0 <= i < |es| ==> ks[i] == es[i].key
  {
    seq(|es|, i requires 0 <= i < |es| => es[i].key)
  }

  // ----- the invariant: height h, every key in [lo, hi), children between their separators

  ghost predicate WF(t: Tree, h: nat, lo: Bound, hi: Bound)
    decreases t, 1
  {
    match t
    case Leaf(l) => h == 0 && Leq(lo, hi) && Increasing(l.es) && Between(l.es, lo, hi)
    case Node(_, keys, kids) => h > 0 && WFs(keys, kids, h - 1, lo, hi)
  }

  ghost predicate WFs(keys: seq<int>, kids: seq<Tree>, h: nat, lo: Bound, hi: Bound)
    decreases kids, 0
  {
    && |kids| == |keys| + 1
    && if keys == [] then WF(kids[0], h, lo, hi)
       else WF(kids[0], h, lo, Some(keys[0])) && WFs(keys[1..], kids[1..], h, Some(keys[0]), hi)
  }

  /** The bounds of child i. */
  function Lo(keys: seq<int>, i: nat, lo: Bound): Bound
    requires i <= |keys|
  {
    if i == 0 then lo else Some(keys[i - 1])
  }

  function Hi(keys: seq<int>, i: nat, hi: Bound): Bound
    requires i <= |keys|
  {
    if i == |keys| then hi else Some(keys[i])
  }

  lemma {:induction false} WFLeq(t: Tree, h: nat, lo: Bound, hi: Bound)
    requires WF(t, h, lo, hi)
    ensures Leq(lo, hi)
    decreases t, 1
  {
    if t.Node? {
      WFsSorted(t.keys, t.kids, h - 1, lo, hi);
    }
  }

  lemma {:induction false} WFsSorted(keys: seq<int>, kids: seq<Tree>, h: nat, lo: Bound, hi: Bound)
    requires WFs(keys, kids, h, lo, hi)
    ensures Leq(lo, hi) && Sorted(keys)
    ensures forall k <- keys :: Above(lo, k) && (hi.Some? ==> k <= hi.value)
    decreases kids, 0
  {
    if keys == [] {
      WFLeq(kids[0], h, lo, hi);
    } else {
      WFLeq(kids[0], h, lo, Some(keys[0]));
      WFsSorted(keys[1..], kids[1..], h, Some(keys[0]), hi);
      assert keys == [keys[0]] + keys[1..];
      forall i, j | 0 <= i < j < |keys| ensures keys[i] <= keys[j] {
        assert keys[j] == keys[1..][j - 1] && keys[j] in keys[1..];
        if i > 0 {
          assert keys[i] == keys[1..][i - 1];
        }
      }
    }
  }

  /** Two runs of children with a separator between them. */
  lemma {:induction false} WFsJoin(ka: seq<int>, a: seq<Tree>, s: int, kb: seq<int>, b: seq<Tree>, h: nat, lo: Bound,
                                   hi: Bound)
    requires |a| == |ka| + 1
    ensures WFs(ka + [s] + kb, a + b, h, lo, hi) <==> WFs(ka, a, h, lo, Some(s)) && WFs(kb, b, h, Some(s), hi)
  {
    var keys, kids := ka + [s] + kb, a + b;
    if ka == [] {
      assert keys[1..] == kb && kids[1..] == b;
    } else {
      WFsJoin(ka[1..], a[1..], s, kb, b, h, Some(ka[0]), hi);
      assert keys[1..] == ka[1..] + [s] + kb && kids[1..] == a[1..] + b;
    }
  }

  lemma {:induction false} WFsAt(keys: seq<int>, kids: seq<Tree>, h: nat, lo: Bound, hi: Bound, i: nat)
    requires WFs(keys, kids, h, lo, hi) && i < |kids|
    ensures WF(kids[i], h, Lo(keys, i, lo), Hi(keys, i, hi))
  {
    if i > 0 {
      WFsAt(keys[1..], kids[1..], h, Some(keys[0]), hi, i - 1);
    }
  }

  function Splice<T>(s: seq<T>, i: nat, n: nat, m: seq<T>): seq<T>
    requires i + n <= |s|
  {
    s[..i] + m + s[i + n..]
  }

  lemma TailSlice<T>(s: seq<T>, i: nat, j: nat)
    requires 0 < i <= j <= |s|
    ensures s[1..][i - 1..j - 1] == s[i..j]
  {
  }

  lemma TailSplice<T>(s: seq<T>, i: nat, n: nat, m: seq<T>)
    requires 0 < i && i + n <= |s|
    ensures |Splice(s, i, n, m)| == |s| - n + |m|
    ensures Splice(s, i, n, m)[0] == s[0] && Splice(s, i, n, m)[1..] == Splice(s[1..], i - 1, n, m)
  {
  }

  /** The run of n children from i on, with its separators, is itself well formed. */
  lemma {:induction false} WFsRun(keys: seq<int>, kids: seq<Tree>, h: nat, lo: Bound, hi: Bound, i: nat, n: nat)
    requires WFs(keys, kids, h, lo, hi) && n >= 1 && i + n <= |kids|
    ensures WFs(keys[i..i + n - 1], kids[i..i + n], h, Lo(keys, i, lo), Hi(keys, i + n - 1, hi))
  {
    WFsLength(keys, kids, h, lo, hi);
    hide WF, WFs;
    if i > 0 {
      WFsCons(keys, kids, h, lo, hi);
      WFsRun(keys[1..], kids[1..], h, Some(keys[0]), hi, i - 1, n);
      TailSlice(keys, i, i + n - 1);
      TailSlice(kids, i, i + n);
    } else if n < |kids| {
      assert keys == keys[..n - 1] + [keys[n - 1]] + keys[n..];
      assert kids == kids[..n] + kids[n..];
      WFsJoin(keys[..n - 1], kids[..n], keys[n - 1], keys[n..], kids[n..], h, lo, hi);
    } else {
      assert keys[0..n - 1] == keys && kids[0..n] == kids;
    }
  }

  /** Replace the run by another well-formed run within the same bounds. */
  lemma {:induction false} WFsSplice(keys: seq<int>, kids: seq<Tree>, h: nat, lo: Bound, hi: Bound, i: nat, n: nat,
                                     mk: seq<int>, mc: seq<Tree>)
    requires WFs(keys, kids, h, lo, hi) && n >= 1 && i + n <= |kids|
    requires WFs(mk, mc, h, Lo(keys, i, lo), Hi(keys, i + n - 1, hi))
    ensures WFs(Splice(keys, i, n - 1, mk), Splice(kids, i, n, mc), h, lo, hi)
  {
    WFsLength(keys, kids, h, lo, hi);
    hide WF, WFs;
    if i > 0 {
      var keys', kids' := Splice(keys, i, n - 1, mk), Splice(kids, i, n, mc);
      WFsCons(keys, kids, h, lo, hi);
      WFsLength(mk, mc, h, Lo(keys, i, lo), Hi(keys, i + n - 1, hi));
      WFsSplice(keys[1..], kids[1..], h, Some(keys[0]), hi, i - 1, n, mk, mc);
      TailSplice(keys, i, n - 1, mk);
      TailSplice(kids, i, n, mc);
      hide Splice, Lo, Hi;
      WFsCons(keys', kids', h, lo, hi);
    } else {
      SpliceFront(keys, kids, h, lo, hi, n, mk, mc);
    }
  }

  lemma WFsLength(keys: seq<int>, kids: seq<Tree>, h: nat, lo: Bound, hi: Bound)
    requires WFs(keys, kids, h, lo, hi)
    ensures |kids| == |keys| + 1
  {
  }

  lemma WFsCons(keys: seq<int>, kids: seq<Tree>, h: nat, lo: Bound, hi: Bound)
    requires keys != []
    ensures WFs(keys, kids, h, lo, hi) <==>
              && |kids| == |keys| + 1
              && WF(kids[0], h, lo, Some(keys[0])) && WFs(keys[1..], kids[1..], h, Some(keys[0]), hi)
  {
  }

  lemma SpliceFront(keys: seq<int>, kids: seq<Tree>, h: nat, lo: Bound, hi: Bound, n: nat, mk: seq<int>, mc: seq<Tree>)
    requires WFs(keys, kids, h, lo, hi) && 1 <= n <= |kids|
    requires WFs(mk, mc, h, lo, Hi(keys, n - 1, hi))
    ensures WFs(Splice(keys, 0, n - 1, mk), Splice(kids, 0, n, mc), h, lo, hi)
  {
    WFsLength(keys, kids, h, lo, hi);
    WFsLength(mk, mc, h, lo, Hi(keys, n - 1, hi));
    hide WF, WFs;
    if n < |kids| {
      var s, k', c' := keys[n - 1], keys[n..], kids[n..];
      assert keys == keys[..n - 1] + [s] + k' && kids == kids[..n] + c';
      WFsJoin(keys[..n - 1], kids[..n], s, k', c', h, lo, hi);
      WFsJoin(mk, mc, s, k', c', h, lo, hi);
      assert Splice(keys, 0, n - 1, mk) == mk + [s] + k' && Splice(kids, 0, n, mc) == mc + c';
    } else {
      assert Splice(keys, 0, n - 1, mk) == mk && Splice(kids, 0, n, mc) == mc;
    }
  }

  // ----- leaves and entries, left to right

  function Leaves(t: Tree): seq<LeafRec>
    decreases t, 1
  {
    match t
    case Leaf(l) => [l]
    case Node(_, _, kids) => LeavesAll(kids)
  }

  function LeavesAll(kids: seq<Tree>): seq<LeafRec>
    decreases kids, 0
  {
    if kids == [] then [] else Leaves(kids[0]) + LeavesAll(kids[1..])
  }

  function Cat(ls: seq<LeafRec>): seq<Entry> {
    if ls == [] then [] else ls[0].es + Cat(ls[1..])
  }

  function Entries(t: Tree): seq<Entry> {
    Cat(Leaves(t))
  }

  function EntriesAll(kids: seq<Tree>): seq<Entry> {
    Cat(LeavesAll(kids))
  }

  lemma {:induction false} LeavesAppend(a: seq<Tree>, b: seq<Tree>)
    ensures LeavesAll(a + b) == LeavesAll(a) + LeavesAll(b)
  {
    if a == [] {
      assert a + b == b;
    } else {
      calc {
        LeavesAll(a + b);
      ==  { assert (a + b)[1..] == a[1..] + b; }
        Leaves(a[0]) + LeavesAll(a[1..] + b);
      ==  { LeavesAppend(a[1..], b); }
        Leaves(a[0]) + (LeavesAll(a[1..]) + LeavesAll(b));
      ==
        LeavesAll(a) + LeavesAll(b);
      }
    }
  }

  lemma {:induction false} CatAppend(a: seq<LeafRec>, b: seq<LeafRec>)
    ensures Cat(a + b) == Cat(a) + Cat(b)
  {
    if a == [] {
      assert a + b == b;
    } else {
      calc {
        Cat(a + b);
      ==  { assert (a + b)[1..] == a[1..] + b; }
        a[0].es + Cat(a[1..] + b);
      ==  { CatAppend(a[1..], b); }
        a[0].es + (Cat(a[1..]) + Cat(b));
      ==  { assert Cat(a) == a[0].es + Cat(a[1..]); }
        Cat(a) + Cat(b);
      }
    }
  }

  lemma EntriesAppend(a: seq<Tree>, b: seq<Tree>)
    ensures EntriesAll(a + b) == EntriesAll(a) + EntriesAll(b)
  {
    LeavesAppend(a, b);
    CatAppend(LeavesAll(a), LeavesAll(b));
  }

  lemma OneKid(c: Tree)
    ensures LeavesAll([c]) == Leaves(c) && EntriesAll([c]) == Entries(c)
  {
    assert LeavesAll([c][1..]) == [];
  }

  lemma LeavesSplice(kids: seq<Tree>, i: nat, n: nat, mc: seq<Tree>)
    requires i + n <= |kids|
    ensures LeavesAll(kids) == LeavesAll(kids[..i]) + LeavesAll(kids[i..i + n]) + LeavesAll(kids[i + n..])
    ensures LeavesAll(Splice(kids, i, n, mc)) == LeavesAll(kids[..i]) + LeavesAll(mc) + LeavesAll(kids[i + n..])
  {
    LeavesAppend(kids[..i], kids[i..i + n]);
    LeavesAppend(kids[..i] + kids[i..i + n], kids[i + n..]);
    assert kids == kids[..i] + kids[i..i + n] + kids[i + n..];
    LeavesAppend(kids[..i], mc);
    LeavesAppend(kids[..i] + mc, kids[i + n..]);
  }

  lemma EntriesSplice(kids: seq<Tree>, i: nat, n: nat, mc: seq<Tree>)
    requires i + n <= |kids|
    ensures EntriesAll(kids) == EntriesAll(kids[..i]) + EntriesAll(kids[i..i + n]) + EntriesAll(kids[i + n..])
    ensures EntriesAll(Splice(kids, i, n, mc)) == EntriesAll(kids[..i]) + EntriesAll(mc) + EntriesAll(kids[i + n..])
  {
    EntriesAppend(kids[..i], kids[i..i + n]);
    EntriesAppend(kids[..i] + kids[i..i + n], kids[i + n..]);
    assert kids == kids[..i] + kids[i..i + n] + kids[i + n..];
    EntriesAppend(kids[..i], mc);
    EntriesAppend(kids[..i] + mc, kids[i + n..]);
  }

  /** The entries of a well-formed tree, left to right, are increasing and lie in its bounds. */
  lemma {:induction false} EntriesSorted(t: Tree, h: nat, lo: Bound, hi: Bound)
    requires WF(t, h, lo, hi)
    ensures Increasing(Entries(t)) && Between(Entries(t), lo, hi)
    decreases t, 1
  {
    match t
    case Leaf(l) => assert Cat([l]) == l.es + Cat([l][1..]) == l.es;
    case Node(_, keys, kids) => EntriesAllSorted(keys, kids, h - 1, lo, hi);
  }

  lemma {:induction false} EntriesAllSorted(keys: seq<int>, kids: seq<Tree>, h: nat, lo: Bound, hi: Bound)
    requires WFs(keys, kids, h, lo, hi)
    ensures Increasing(EntriesAll(kids)) && Between(EntriesAll(kids), lo, hi)
    decreases kids, 0
  {
    OneKid(kids[0]);
    if keys == [] {
      EntriesSorted(kids[0], h, lo, hi);
      assert kids == [kids[0]];
    } else {
      var s := Some(keys[0]);
      EntriesSorted(kids[0], h, lo, s);
      EntriesAllSorted(keys[1..], kids[1..], h, s, hi);
      WFsSorted(keys[1..], kids[1..], h, s, hi);
      WFLeq(kids[0], h, lo, s);
      EntriesAppend([kids[0]], kids[1..]);
      assert kids == [kids[0]] + kids[1..];
      JoinSorted(Entries(kids[0]), EntriesAll(kids[1..]), lo, keys[0], hi);
    }
  }

  lemma JoinSorted(a: seq<Entry>, b: seq<Entry>, lo: Bound, s: int, hi: Bound)
    requires Increasing(a) && Between(a, lo, Some(s)) && Increasing(b) && Between(b, Some(s), hi)
    requires Leq(lo, Some(s)) && Leq(Some(s), hi)
    ensures Increasing(a + b) && Between(a + b, lo, hi)
  {
    forall i, j | 0 <= i < j < |a + b| ensures (a + b)[i].key < (a + b)[j].key {
      if i < |a| <= j {
        assert a[i] in a && b[j - |a|] in b;
      }
    }
  }

  // ----- search

  /** The rids stored under k. */
  function Lookup(es: seq<Entry>, k: int): seq<Rid> {
    if es == [] then []
    else if es[0].key == k then [es[0].rid] + Lookup(es[1..], k)
    else Lookup(es[1..], k)
  }

  predicate Shaped(t: Tree)
    decreases t, 1
  {
    t.Leaf? || (|t.kids| == |t.keys| + 1 && ShapedAll(t.kids))
  }

  predicate ShapedAll(kids: seq<Tree>)
    decreases kids, 0
  {
    kids == [] || (Shaped(kids[0]) && ShapedAll(kids[1..]))
  }

  lemma {:induction false} ShapedAt(kids: seq<Tree>, i: nat)
    requires ShapedAll(kids) && i < |kids|
    ensures Shaped(kids[i])
  {
    if i > 0 {
      ShapedAt(kids[1..], i - 1);
    }
  }

  /** The descent of `search`, whatever the tree looks like. */
  function Find(t: Tree, k: int): seq<Rid>
    requires Shaped(t)
    decreases t
  {
    match t
    case Leaf(l) => Lookup(l.es, k)
    case Node(_, keys, kids) =>
      var i := UpperBound(keys, k);
      ShapedAt(kids, i);
      Find(kids[i], k)
  }

  lemma {:induction false} WFShaped(t: Tree, h: nat, lo: Bound, hi: Bound)
    requires WF(t, h, lo, hi)
    ensures Shaped(t)
    decreases t, 1
  {
    if t.Node? {
      WFsShaped(t.keys, t.kids, h - 1, lo, hi);
    }
  }

  lemma {:induction false} WFsShaped(keys: seq<int>, kids: seq<Tree>, h: nat, lo: Bound, hi: Bound)
    requires WFs(keys, kids, h, lo, hi)
    ensures ShapedAll(kids)
    decreases kids, 0
  {
    WFShaped(kids[0], h, lo, if keys == [] then hi else Some(keys[0]));
    if keys != [] {
      WFsShaped(keys[1..], kids[1..], h, Some(keys[0]), hi);
    }
  }

  lemma {:induction false} LookupAppend(a: seq<Entry>, b: seq<Entry>, k: int)
    ensures Lookup(a + b, k) == Lookup(a, k) + Lookup(b, k)
  {
    if a == [] {
      assert a + b == b;
    } else {
      LookupAppend(a[1..], b, k);
      assert (a + b)[1..] == a[1..] + b;
    }
  }

  lemma {:induction false} LookupMisses(es: seq<Entry>, k: int)
    requires forall e <- es :: e.key != k
    ensures Lookup(es, k) == []
  {
    if es != [] {
      LookupMisses(es[1..], k);
    }
  }

  /** The separators around the child that the descent takes. */
  lemma UpperBoundIsChild(keys: seq<int>, k: int, lo: Bound, hi: Bound)
    requires Above(lo, k) && Below(k, hi)
    ensures var i := UpperBound(keys, k); Above(Lo(keys, i, lo), k) && Below(k, Hi(keys, i, hi))
  {
  }

  /** A key inside the tree's bounds can only be in the child the descent takes. */
  lemma OnlyInChild(keys: seq<int>, kids: seq<Tree>, h: nat, lo: Bound, hi: Bound, k: int)
    requires WFs(keys, kids, h, lo, hi) && Above(lo, k) && Below(k, hi)
    ensures Lookup(EntriesAll(kids), k) == Lookup(Entries(kids[UpperBound(keys, k)]), k)
  {
    var i := UpperBound(keys, k);
    EntriesSplice(kids, i, 1, []);
    assert kids[i..i + 1] == [kids[i]];
    OneKid(kids[i]);
    var a, m, b := EntriesAll(kids[..i]), Entries(kids[i]), EntriesAll(kids[i + 1..]);
    LookupAppend(a, m, k);
    LookupAppend(a + m, b, k);
    NotBefore(keys, kids, h, lo, hi, i, k);
    NotAfter(keys, kids, h, lo, hi, i, k);
  }

  lemma NotBefore(keys: seq<int>, kids: seq<Tree>, h: nat, lo: Bound, hi: Bound, i: nat, k: int)
    requires WFs(keys, kids, h, lo, hi) && i < |kids| && (i > 0 ==> keys[i - 1] <= k)
    ensures Lookup(EntriesAll(kids[..i]), k) == []
  {
    if i > 0 {
      WFsRun(keys, kids, h, lo, hi, 0, i);
      assert kids[0..i] == kids[..i];
      EntriesAllSorted(keys[0..i - 1], kids[..i], h, lo, Some(keys[i - 1]));
      LookupMisses(EntriesAll(kids[..i]), k);
    }
  }

  lemma NotAfter(keys: seq<int>, kids: seq<Tree>, h: nat, lo: Bound, hi: Bound, i: nat, k: int)
    requires WFs(keys, kids, h, lo, hi) && i < |kids| && (i < |keys| ==> k < keys[i])
    ensures Lookup(EntriesAll(kids[i + 1..]), k) == []
  {
    if i < |keys| {
      WFsRun(keys, kids, h, lo, hi, i + 1, |kids| - i - 1);
      assert kids[i + 1..|kids|] == kids[i + 1..];
      EntriesAllSorted(keys[i + 1..|keys|], kids[i + 1..], h, Some(keys[i]), hi);
      LookupMisses(EntriesAll(kids[i + 1..]), k);
    } else {
      assert kids[i + 1..] == [];
    }
  }

  /** Search on a well-formed tree returns exactly what is stored under the key. */
  lemma {:induction false} FindIsLookup(t: Tree, h: nat, lo: Bound, hi: Bound, k: int)
    requires WF(t, h, lo, hi) && Above(lo, k) && Below(k, hi)
    ensures Shaped(t) && Find(t, k) == Lookup(Entries(t), k)
    decreases t
  {
    WFShaped(t, h, lo, hi);
    match t
    case Leaf(l) => assert Cat([l]) == l.es + Cat([l][1..]) == l.es;
    case Node(_, keys, kids) =>
      var i := UpperBound(keys, k);
      UpperBoundIsChild(keys, k, lo, hi);
      WFsAt(keys, kids, h - 1, lo, hi, i);
      FindIsLookup(kids[i], h - 1, Lo(keys, i, lo), Hi(keys, i, hi), k);
      OnlyInChild(keys, kids, h - 1, lo, hi, k);
  }
}
