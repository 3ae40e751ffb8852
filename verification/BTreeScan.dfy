/** What scans yield in every reachable index, abandoned leaf pages included: when nothing is lost, when
    the result is exact, and when rows go missing. */
module BTreeScan {
  import opened Common
  import opened BTree
  import opened BTreeInsert
  import opened BTreeChain
  import opened BTreeRep
  import opened BTreeWalk
  import opened BTreeOrphan
  import opened BTreeTrail

  // ----- the pages that the walk reads

  /** Up to the first page in which the walk ends. */
  ghost function Visited(path: seq<LeafRec>, b: Bounds): seq<LeafRec> {
    if path == [] then []
    else [path[0]] + if Stops(path[0].es, b) then [] else Visited(path[1..], b)
  }

  lemma {:induction false} WalkIsRange(path: seq<LeafRec>, b: Bounds)
    ensures WalkOf(path, b) == RangeOf(Cat(Visited(path, b)), b)
  {
    if path == [] {
      assert Cat([]) == [];
    } else {
      var l, rest := path[0], path[1..];
      var v := if Stops(l.es, b) then [] else Visited(rest, b);
      WalkIsRange(rest, b);
      assert path == [l] + rest;
      CatCons(l, v);
      RangeAppend(l.es, Cat(v), b);
      WalkCons(l, rest, b);
      hide RangeOf, Stops;
      NothingYields(b);
    }
  }

  lemma CatCons(l: LeafRec, rest: seq<LeafRec>)
    ensures Cat([l] + rest) == l.es + Cat(rest)
  {
    assert ([l] + rest)[1..] == rest;
  }

  lemma NothingYields(b: Bounds)
    ensures RangeOf(Cat([]), b) == []
  {
  }

  /** The visited pages are the first ones of the path; if they are not all, the walk ends in the last. */
  lemma {:induction false} VisitedIsFront(path: seq<LeafRec>, b: Bounds)
    ensures Visited(path, b) <= path && (path != [] ==> Visited(path, b) != [])
    ensures var v := Visited(path, b); v == path || (v != [] && Stops(v[|v| - 1].es, b))
  {
    if path != [] {
      VisitedIsFront(path[1..], b);
      assert path == [path[0]] + path[1..];
    }
  }

  // ----- a list inside another, in order

  predicate Within<T(==)>(a: seq<T>, b: seq<T>) {
    a == [] || (b != [] && ((a[0] == b[0] && Within(a[1..], b[1..])) || Within(a, b[1..])))
  }

  lemma {:induction false} WithinMore<T>(a: seq<T>, x: seq<T>, b: seq<T>)
    requires Within(a, b)
    ensures Within(a, x + b)
    decreases |x|
  {
    if x == [] {
      assert x + b == b;
    } else {
      assert (x + b)[1..] == x[1..] + b;
      WithinMore(a, x[1..], b);
    }
  }

  lemma {:induction false} WithinBoth<T>(x: seq<T>, a: seq<T>, b: seq<T>)
    requires Within(a, b)
    ensures Within(x + a, x + b)
    decreases |x|
  {
    if x == [] {
      assert x + a == a && x + b == b;
    } else {
      assert (x + a)[1..] == x[1..] + a && (x + b)[1..] == x[1..] + b;
      WithinBoth(x[1..], a, b);
    }
  }

  // ----- what the abandoned pages among them add

  /** No abandoned page among them has a key in bounds. */
  ghost predicate Quiet(path: seq<LeafRec>, own: set<nat>, b: Bounds) {
    forall i :: 0 <= i < |path| && path[i].pid !in own ==> RangeOf(path[i].es, b) == []
  }

  /** Reading more pages than the tree's own loses nothing and keeps the order; it adds nothing exactly
      when the others are quiet. */
  lemma {:induction false} MorePages(v: seq<LeafRec>, own: set<nat>, b: Bounds)
    ensures var mine, all := RangeOf(Cat(Kept(v, own)), b), RangeOf(Cat(v), b);
            Within(mine, all) && |mine| <= |all| && (mine == all <==> Quiet(v, own, b))
  {
    if v != [] {
      var l, rest := v[0], v[1..];
      MorePages(rest, own, b);
      assert v == [l] + rest;
      CatCons(l, rest);
      CatCons(l, Kept(rest, own));
      RangeAppend(l.es, Cat(rest), b);
      RangeAppend(l.es, Cat(Kept(rest, own)), b);
      QuietCons(l, rest, own, b);
      var x, mine, all := RangeOf(l.es, b), RangeOf(Cat(Kept(rest, own)), b), RangeOf(Cat(rest), b);
      hide RangeOf, Quiet, Cat;
      WithinBoth(x, mine, all);
      WithinMore(mine, x, all);
      assert x + mine == x + all ==> mine == all by { SameTails(x, mine, all); }
      if l.pid !in own {
        assert Kept(v, own) == Kept(rest, own);
        assert mine == x + all ==> x == [] && mine == all;
      } else {
        assert Kept(v, own) == [l] + Kept(rest, own);
      }
    }
  }

  lemma SameTails<T>(x: seq<T>, a: seq<T>, b: seq<T>)
    requires |a| <= |b|
    ensures x + a == x + b ==> a == b
  {
    if x + a == x + b {
      assert (x + a)[|x|..] == a && (x + b)[|x|..] == b;
    }
  }

  lemma QuietCons(l: LeafRec, rest: seq<LeafRec>, own: set<nat>, b: Bounds)
    ensures Quiet([l] + rest, own, b) <==> (l.pid !in own ==> RangeOf(l.es, b) == []) && Quiet(rest, own, b)
  {
    var v := [l] + rest;
    hide RangeOf;
    if Quiet(v, own, b) {
      assert v[0] == l;
      forall i | 0 <= i < |rest| && rest[i].pid !in own ensures RangeOf(rest[i].es, b) == [] {
        assert v[i + 1] == rest[i];
      }
    }
    if (l.pid !in own ==> RangeOf(l.es, b) == []) && Quiet(rest, own, b) {
      forall i | 0 <= i < |v| && v[i].pid !in own ensures RangeOf(v[i].es, b) == [] {
        assert i > 0 ==> v[i] == rest[i - 1];
      }
    }
  }

  // ----- the walk that ends on the tree's own pages

  /** The walk runs out of pages, or ends in a leaf of the tree. */
  ghost predicate EndsAtHome(path: seq<LeafRec>, own: set<nat>, b: Bounds) {
    var v := Visited(path, b);
    v == path || (v != [] && v[|v| - 1].pid in own)
  }

  /** Then it has read every leaf of the tree with a key in bounds. */
  lemma HomeSeesAll(path: seq<LeafRec>, own: set<nat>, b: Bounds)
    requires EndsAtHome(path, own, b) && Increasing(Cat(Kept(path, own)))
    ensures RangeOf(Cat(Kept(path, own)), b) == RangeOf(Cat(Kept(Visited(path, b), own)), b)
  {
    hide Cat, Kept, Visited, RangeOf, Stops, Increasing;
    var v := Visited(path, b);
    if v != path {
      VisitedIsFront(path, b);
      var w := path[|v|..];
      assert path == v + w;
      NothingBehind(v, w, own, b);
    }
  }

  lemma NothingBehind(v: seq<LeafRec>, w: seq<LeafRec>, own: set<nat>, b: Bounds)
    requires v != [] && v[|v| - 1].pid in own && Stops(v[|v| - 1].es, b)
    requires Increasing(Cat(Kept(v + w, own)))
    ensures RangeOf(Cat(Kept(v + w, own)), b) == RangeOf(Cat(Kept(v, own)), b)
  {
    hide *;
    var x, y := Cat(Kept(v, own)), Cat(Kept(w, own));
    LastStops(v, own, b);
    KeptAppend(v, w, own);
    CatAppend(Kept(v, own), Kept(w, own));
    SortedParts(x, y);
    NothingPast(x, y, b);
    RangeAppend(x, y, b);
  }

  lemma LastStops(v: seq<LeafRec>, own: set<nat>, b: Bounds)
    requires v != [] && v[|v| - 1].pid in own && Stops(v[|v| - 1].es, b)
    ensures Stops(Cat(Kept(v, own)), b)
  {
    var n := |v| - 1;
    assert v == v[..n] + [v[n]];
    KeptAppend(v[..n], [v[n]], own);
    assert Kept([v[n]], own) == [v[n]] by { assert [v[n]][1..] == []; }
    CatAppend(Kept(v[..n], own), [v[n]]);
    CatCons(v[n], []);
    StopsAppend(Cat(Kept(v[..n], own)), v[n].es, b);
  }

  /** In every reachable index: a scan that starts at the leaf owning its lower end and is not ended by an
      abandoned page yields every row in bounds, in key order; it yields exactly them if and only if no
      abandoned page that it reads has a key in bounds. */
  lemma ScanAtHome(ls: seq<LeafRec>, j: nat, path: seq<LeafRec>, b: Bounds)
    requires Increasing(Cat(ls)) && j <= |ls| && OnTrail(path, ls, j) && EndsAtHome(path, Own(ls), b)
    requires forall e <- Cat(ls[..j]) :: !PassesLo(e.key, b)
    ensures Within(RangeOf(Cat(ls), b), WalkOf(path, b))
    ensures WalkOf(path, b) == RangeOf(Cat(ls), b) <==> Quiet(Visited(path, b), Own(ls), b)
  {
    hide *;
    TailOf(ls, j, b);
    assert Kept(path, Own(ls)) == ls[j..] by { OnTrailIs(path, ls, j); }
    HomeSeesAll(path, Own(ls), b);
    WalkIsRange(path, b);
    MorePages(Visited(path, b), Own(ls), b);
  }

  lemma OnTrailIs(path: seq<LeafRec>, ls: seq<LeafRec>, j: nat)
    requires j <= |ls| && OnTrail(path, ls, j)
    ensures Kept(path, Own(ls)) == ls[j..]
    ensures forall i :: 0 <= i < |path| && path[i].pid !in Own(ls) ==> |path[i].es| >= MIN_LEAF - 1
  {
    forall i | 0 <= i < |path| && path[i].pid !in Own(ls) ensures |path[i].es| >= MIN_LEAF - 1 {
      assert path[i] in path;
    }
  }

  // ----- the walk that an abandoned page ends

  /** Otherwise an abandoned page ends the scan. If those before it are quiet, the scan has yielded the
      rows of the leaves it passed and what the page has in bounds; the leaves behind it are not read. So it
      is right if and only if the page has exactly the rows in bounds that those leaves have. */
  lemma ScanEndedAway(ls: seq<LeafRec>, j: nat, path: seq<LeafRec>, b: Bounds)
    requires Increasing(Cat(ls)) && j <= |ls| && OnTrail(path, ls, j) && !EndsAtHome(path, Own(ls), b)
    requires forall e <- Cat(ls[..j]) :: !PassesLo(e.key, b)
    ensures Visited(path, b) != []
    ensures var v, n := Visited(path, b), |Visited(path, b)| - 1;
            var k := |Kept(v[..n], Own(ls))|;
            && j + k <= |ls|
            && (Quiet(v[..n], Own(ls), b) ==>
                  && WalkOf(path, b) == RangeOf(Cat(ls[..j + k]), b) + RangeOf(v[n].es, b)
                  && (WalkOf(path, b) == RangeOf(Cat(ls), b) <==> RangeOf(v[n].es, b) == RangeOf(Cat(ls[j + k..]), b)))
  {
    hide *;
    var own, v := Own(ls), Visited(path, b);
    AwayIs(path, own, b);
    var n := |v| - 1;
    var front, k := v[..n], |Kept(v[..n], own)|;
    OnTrailIs(path, ls, j);
    KeptFront(path, own, n, ls, j);
    AwayYields(path, own, b);
    assert path[..n] == front;
    if Quiet(front, own, b) {
      LowPart(ls, j, j + k, b);
      SplitRange(ls, j + k, b);
      SameFront(RangeOf(Cat(ls[..j + k]), b), RangeOf(v[n].es, b), RangeOf(Cat(ls[j + k..]), b));
    }
  }

  lemma AwayIs(path: seq<LeafRec>, own: set<nat>, b: Bounds)
    requires !EndsAtHome(path, own, b)
    ensures var v := Visited(path, b); v != [] && |v| <= |path| && v == path[..|v|]
  {
    VisitedIsFront(path, b);
  }

  /** What the walk yields, when the abandoned pages before its last are quiet. */
  lemma AwayYields(path: seq<LeafRec>, own: set<nat>, b: Bounds)
    requires Visited(path, b) != []
    ensures var v := Visited(path, b);
            var n := |v| - 1;
            Quiet(v[..n], own, b) ==> WalkOf(path, b) == RangeOf(Cat(Kept(v[..n], own)), b) + RangeOf(v[n].es, b)
  {
    hide *;
    var v := Visited(path, b);
    var n := |v| - 1;
    assert v == v[..n] + [v[n]];
    WalkIsRange(path, b);
    CatAppend(v[..n], [v[n]]);
    LastOne(v[n]);
    RangeAppend(Cat(v[..n]), v[n].es, b);
    MorePages(v[..n], own, b);
  }

  lemma KeptFront(path: seq<LeafRec>, own: set<nat>, n: nat, ls: seq<LeafRec>, j: nat)
    requires n <= |path| && j <= |ls| && Kept(path, own) == ls[j..]
    ensures var k := |Kept(path[..n], own)|; j + k <= |ls| && Kept(path[..n], own) == ls[j..j + k]
  {
    assert path == path[..n] + path[n..];
    hide Kept;
    KeptAppend(path[..n], path[n..], own);
    var x, y := Kept(path[..n], own), Kept(path[n..], own);
    assert (x + y)[..|x|] == x;
  }

  lemma LastOne(o: LeafRec)
    ensures Cat([o]) == o.es
  {
    CatCons(o, []);
    assert [o] + [] == [o];
  }

  lemma SameFront<T>(x: seq<T>, a: seq<T>, b: seq<T>)
    ensures x + a == x + b <==> a == b
  {
    assert (x + a)[|x|..] == a && (x + b)[|x|..] == b;
  }

  /** Leaves before j have nothing in bounds. */
  lemma LowPart(ls: seq<LeafRec>, j: nat, m: nat, b: Bounds)
    requires j <= m <= |ls| && forall e <- Cat(ls[..j]) :: !PassesLo(e.key, b)
    ensures RangeOf(Cat(ls[..m]), b) == RangeOf(Cat(ls[j..m]), b)
  {
    assert ls[..m] == ls[..j] + ls[j..m];
    CatAppend(ls[..j], ls[j..m]);
    var u := Cat(ls[..j]);
    forall i | 0 <= i < |u| ensures !InBounds(u[i].key, b) {
      assert u[i] in u;
    }
    hide Cat;
    RangeNone(u, b);
    RangeAppend(u, Cat(ls[j..m]), b);
  }

  lemma SplitRange(ls: seq<LeafRec>, m: nat, b: Bounds)
    requires m <= |ls|
    ensures RangeOf(Cat(ls), b) == RangeOf(Cat(ls[..m]), b) + RangeOf(Cat(ls[m..]), b)
  {
    assert ls == ls[..m] + ls[m..];
    CatAppend(ls[..m], ls[m..]);
    hide Cat;
    RangeAppend(Cat(ls[..m]), Cat(ls[m..]), b);
  }

  // ----- scans of everything

  lemma {:induction false} NeverEnds(path: seq<LeafRec>)
    ensures Visited(path, ALL) == path
  {
    if path != [] {
      NeverEnds(path[1..]);
      RangeAll(path[0].es);
      assert path == [path[0]] + path[1..];
    }
  }

  /** In every reachable index a scan of everything yields every row, in key order, and besides them
      everything that is on the abandoned pages it passes, rows deleted since included. It is right if and
      only if it passes none. */
  lemma FullScan(ls: seq<LeafRec>, path: seq<LeafRec>)
    requires Increasing(Cat(ls)) && OnTrail(path, ls, 0)
    ensures WalkOf(path, ALL) == Rids(Cat(path)) && Within(Rids(Cat(ls)), Rids(Cat(path)))
    ensures WalkOf(path, ALL) == Rids(Cat(ls)) <==> path == ls
  {
    hide *;
    NeverEnds(path);
    WalkIsRange(path, ALL);
    RangeAll(Cat(path));
    RangeAll(Cat(ls));
    OnTrailIs(path, ls, 0);
    assert ls[0..] == ls;
    MorePages(path, Own(ls), ALL);
    NoneAbandoned(path, ls);
  }

  lemma NoneAbandoned(path: seq<LeafRec>, ls: seq<LeafRec>)
    requires Kept(path, Own(ls)) == ls
    requires forall i :: 0 <= i < |path| && path[i].pid !in Own(ls) ==> |path[i].es| >= MIN_LEAF - 1
    ensures Quiet(path, Own(ls), ALL) <==> path == ls
  {
    if Quiet(path, Own(ls), ALL) {
      forall i | 0 <= i < |path| ensures path[i].pid in Own(ls) {
        RangeAll(path[i].es);
        if path[i].pid !in Own(ls) {
          assert false;
        }
      }
      KeptAll(path, Own(ls));
    }
    if path == ls {
      forall i | 0 <= i < |path| ensures path[i].pid in Own(ls) {
        assert PidsOf(ls)[i] == path[i].pid;
      }
    }
  }

  lemma {:induction false} KeptAll(path: seq<LeafRec>, own: set<nat>)
    requires forall i :: 0 <= i < |path| ==> path[i].pid in own
    ensures Kept(path, own) == path
  {
    if path != [] {
      assert forall i :: 0 <= i < |path[1..]| ==> path[1..][i] == path[i + 1];
      KeptAll(path[1..], own);
      assert path == [path[0]] + path[1..];
    }
  }
}
