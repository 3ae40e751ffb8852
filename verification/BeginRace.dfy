/** `TransactionManager.begin` by several threads. The pre-flight check runs outside the write lock, so
    reading the id, looking at the active transaction, adding the edge, searching and removing the edge
    are separate steps, and other threads act in between. */
module BeginRace {
  import opened Common
  import opened Deadlock

  type Tid = int

  /** Where a thread is inside `begin` or at the end of its transaction. */
  datatype Phase =
    | Ready(id: int)      // has read the next id
    | Seen(id: int)       // has seen an active transaction
    | Added(id: int)      // has added its edge
    | Cleared(id: int)    // the search found nothing
    | Doomed(id: int)     // the search found a victim: DeadlockError
    | Entering            // at the write lock
    | Ending              // has dropped its edges, transaction still active

  /** `owner` holds the write lock; a thread without a phase is outside. */
  datatype State = State(waits: Graph, active: Option<int>, next: int, owner: Option<Tid>, at: map<Tid, Phase>)

  datatype Step =
    | Read(t: Tid) | Look(t: Tid) | Add(t: Tid) | Detect(t: Tid) | Drop(t: Tid) | Enter(t: Tid)
    | Forget(t: Tid) | Clear(t: Tid)

  function Start(): State {
    State(map[], None, 1, None, map[])
  }

  predicate Enabled(s: State, a: Step) {
    match a
    case Read(t) => t !in s.at
    case Look(t) => t in s.at && s.at[t].Ready?
    case Add(t) => t in s.at && s.at[t].Seen?
    case Detect(t) => t in s.at && s.at[t].Added?
    case Drop(t) => t in s.at && (s.at[t].Cleared? || s.at[t].Doomed?)
    case Enter(t) => t in s.at && s.at[t].Entering? && (s.owner == None || s.owner == Some(t))
    case Forget(t) => t !in s.at && s.owner == Some(t) && s.active.Some?
    case Clear(t) => t in s.at && s.at[t].Ending?
  }

  function Outside(s: State, t: Tid): State {
    s.(at := s.at - {t})
  }

  ghost function Next(s: State, a: Step): State
    requires Enabled(s, a)
  {
    match a
    case Read(t) => s.(at := s.at[t := Ready(s.next)])
    case Look(t) => s.(at := s.at[t := if s.active.Some? then Seen(s.at[t].id) else Entering])
    case Add(t) =>
      if s.active.None? then Outside(s, t)    // AttributeError: the transaction is gone
      else s.(waits := s.waits[s.at[t].id := s.active.value], at := s.at[t := Added(s.at[t].id)])
    case Detect(t) => s.(at := s.at[t := if Acyclic(s.waits) then Cleared(s.at[t].id) else Doomed(s.at[t].id)])
    case Drop(t) =>
      var s' := s.(waits := Without(s.waits, s.at[t].id));
      if s.at[t].Doomed? then Outside(s', t) else s'.(at := s.at[t := Entering])
    case Enter(t) =>
      if s.active.Some? then Outside(s, t)    // NestedTransactionError, its lock level given back
      else Outside(s.(active := Some(s.next), next := s.next + 1, owner := Some(t)), t)
    case Forget(t) => s.(waits := Without(s.waits, s.active.value), at := s.at[t := Ending])
    case Clear(t) => Outside(s.(active := None, owner := None), t)
  }

  ghost predicate Run(ss: seq<State>, steps: seq<Step>) {
    && |ss| == |steps| + 1 && ss[0] == Start()
    && forall i :: 0 <= i < |steps| ==> Enabled(ss[i], steps[i]) && ss[i + 1] == Next(ss[i], steps[i])
  }

  // ----- ids

  ghost predicate IdOk(p: Phase) {
    p.Ready? || p.Seen? || p.Added? || p.Cleared? || p.Doomed? ==> p.id > 0
  }

  /** Ids are positive, the active one has been given out, and it belongs to the lock's owner. */
  ghost predicate Inv(s: State) {
    && s.next > 0 && (s.active.Some? ==> 0 < s.active.value < s.next)
    && (s.active.Some? <==> s.owner.Some?)
    && (forall t | t in s.at && s.at[t].Ending? :: s.owner == Some(t))
    && (forall w | w in s.waits :: w > 0)
    && (forall t | t in s.at :: IdOk(s.at[t]))
  }

  lemma StepKeepsInv(s: State, a: Step)
    requires Inv(s) && Enabled(s, a)
    ensures Inv(Next(s, a))
  {
    var s' := Next(s, a);
    hide Acyclic;
    forall t | t in s'.at ensures IdOk(s'.at[t]) && (s'.at[t].Ending? ==> s'.owner == Some(t)) {
      if t != a.t {
        assert t in s.at && s.at[t] == s'.at[t];
      }
    }
    match a
    case Drop(t) => assert forall w | w in s'.waits :: w in s.waits;
    case Forget(t) => assert forall w | w in s'.waits :: w in s.waits;
    case _ =>
  }

  lemma {:induction false} RunKeepsInv(ss: seq<State>, steps: seq<Step>, i: nat)
    requires Run(ss, steps) && i < |ss|
    ensures Inv(ss[i])
    decreases i
  {
    if i > 0 {
      RunKeepsInv(ss, steps, i - 1);
      assert Enabled(ss[i - 1], steps[i - 1]) && ss[i] == Next(ss[i - 1], steps[i - 1]);
      hide Inv, Next, Enabled;
      StepKeepsInv(ss[i - 1], steps[i - 1]);
    }
  }

  /** In every run a transaction is ended by the thread that holds the lock for it, and begun only when
      nobody does. */
  lemma OwnersOnly(ss: seq<State>, steps: seq<Step>, i: nat)
    requires Run(ss, steps) && i < |steps|
    ensures steps[i].Forget? || steps[i].Clear? ==> ss[i].owner == Some(steps[i].t) && ss[i].active.Some?
    ensures ss[i + 1].active.Some? && ss[i + 1].active != ss[i].active ==>
              steps[i].Enter? && ss[i].owner == None && ss[i].active == None
              && ss[i + 1].active == Some(ss[i].next) && ss[i + 1].owner == Some(steps[i].t)
    // whoever adds its wait after the transaction ended is out with an AttributeError
    ensures steps[i].Add? && ss[i].active.None? ==> steps[i].t !in ss[i + 1].at && ss[i + 1].waits == ss[i].waits
  {
    RunKeepsInv(ss, steps, i);
    assert Enabled(ss[i], steps[i]) && ss[i + 1] == Next(ss[i], steps[i]);
    hide Acyclic;
  }

  /** What the search of the source answers is the `Detect` step: a victim exactly on a cyclic graph. */
  method Search(s: State) returns (doomed: bool)
    requires Inv(s)
    ensures doomed == !Acyclic(s.waits)
  {
    var d := new DeadlockDetector();
    d.waits := s.waits;
    var victim := d.DetectCycle();
    doomed := victim.Some?;
    forall v | OnCycle(s.waits, v) ensures v > 0 {
      OnlyWaiters(s.waits, v);
    }
  }

  // ----- when a cycle appears

  /** The step adds an edge whose holder already waits, through others or directly, for the waiter. */
  ghost predicate Closes(s: State, a: Step) {
    a.Add? && Enabled(s, a) && s.active.Some? && Reaches(s.waits, s.active.value, s.at[a.t].id)
  }

  lemma CycleAppearsExactly(s: State, a: Step)
    requires Enabled(s, a) && Acyclic(s.waits)
    ensures !Acyclic(Next(s, a).waits) <==> Closes(s, a)
  {
    if a.Add? && s.active.Some? {
      AddEdgeExact(s.waits, s.at[a.t].id, s.active.value);
    } else if a.Drop? {
      RemovalIsSafe(s.waits, s.at[a.t].id);
    } else if a.Forget? {
      RemovalIsSafe(s.waits, s.active.value);
    }
    hide Acyclic, Reaches;
  }

  /** `begin` by thread t raises DeadlockError: its search finds a victim. */
  ghost predicate Raises(ss: seq<State>, steps: seq<Step>, i: nat)
    requires Run(ss, steps)
  {
    i < |steps| && steps[i].Detect? && ss[i + 1].at[steps[i].t].Doomed?
  }

  /** The nodes of the loop that the step closes. */
  ghost function Closed(s: State, a: Step): set<int>
    requires Closes(s, a)
  {
    LoopOf(Next(s, a).waits, s.at[a.t].id)
  }

  /** The step removes the edges of one of these transactions, or gives one of them another edge. */
  predicate Touches(s: State, a: Step, c: set<int>)
    requires Enabled(s, a)
  {
    || (a.Drop? && s.at[a.t].id in c)
    || (a.Forget? && s.active.value in c)
    || (a.Add? && s.active.Some? && s.at[a.t].id in c)
  }

  /** Otherwise their edges stay. */
  lemma Untouched(s: State, a: Step, c: set<int>)
    requires Enabled(s, a) && !Touches(s, a, c)
    ensures SameInside(s.waits, s.waits, c) ==> SameInside(s.waits, Next(s, a).waits, c)
    ensures SameInside(Next(s, a).waits, Next(s, a).waits, c) ==> SameInside(Next(s, a).waits, s.waits, c)
  {
    hide Acyclic;
  }

  /** From step j on, the steps before i leave the loop alone that step j closed. */
  ghost predicate LeftAlone(ss: seq<State>, steps: seq<Step>, j: nat, i: nat)
    requires Run(ss, steps) && j < i <= |steps|
  {
    Closes(ss[j], steps[j]) && forall k :: j < k < i ==> !Touches(ss[k], steps[k], Closed(ss[j], steps[j]))
  }

  /** At once. */
  lemma LoopBegins(ss: seq<State>, steps: seq<Step>, j: nat)
    requires Run(ss, steps) && j < |steps| && Closes(ss[j], steps[j])
    ensures var g, w, c := ss[j + 1].waits, ss[j].at[steps[j].t].id, Closed(ss[j], steps[j]);
            OnCycle(g, w) && c == LoopOf(g, w) && w in c && SameInside(g, g, c)
  {
    assert ss[j + 1] == Next(ss[j], steps[j]);
    hide OnCycle, Reaches, Acyclic, LoopOf;
    ClosedByEdge(ss[j].waits, ss[j].at[steps[j].t].id, ss[j].active.value);
    LoopIsClosed(ss[j + 1].waits, ss[j].at[steps[j].t].id);
  }

  lemma OneStep(ss: seq<State>, steps: seq<Step>, i: nat)
    requires Run(ss, steps) && i < |steps|
    ensures Enabled(ss[i], steps[i]) && ss[i + 1] == Next(ss[i], steps[i])
  {
    hide Next, Enabled;
  }

  lemma {:induction false} EdgesLast(ss: seq<State>, steps: seq<Step>, j: nat, i: nat, c: set<int>)
    requires Run(ss, steps) && j < i <= |steps| && SameInside(ss[j + 1].waits, ss[j + 1].waits, c)
    requires forall k :: j < k < i ==> !Touches(ss[k], steps[k], c)
    ensures SameInside(ss[j + 1].waits, ss[i].waits, c)
    decreases i
  {
    if i > j + 1 {
      EdgesLast(ss, steps, j, i - 1, c);
      OneStep(ss, steps, i - 1);
      assert !Touches(ss[i - 1], steps[i - 1], c);
      hide Run, Next, Enabled, Touches;
      Untouched(ss[i - 1], steps[i - 1], c);
    }
  }

  lemma LoopLasts(ss: seq<State>, steps: seq<Step>, j: nat, i: nat)
    requires Run(ss, steps) && j < i <= |steps| && LeftAlone(ss, steps, j, i)
    ensures !Acyclic(ss[i].waits)
  {
    LoopBegins(ss, steps, j);
    hide Run, OnCycle, LoopOf, Closed, Closes, Touches;
    var w, c := ss[j].at[steps[j].t].id, Closed(ss[j], steps[j]);
    EdgesLast(ss, steps, j, i, c);
    SameLoop(ss[j + 1].waits, ss[i].waits, w, w);
  }

  /** Going back from a loop: the step that added the last of its edges. */
  lemma {:induction false} LastAdded(ss: seq<State>, steps: seq<Step>, i: nat, v: int) returns (j: nat)
    requires Run(ss, steps) && i < |ss| && OnCycle(ss[i].waits, v)
    ensures j < i && LeftAlone(ss, steps, j, i) && Closed(ss[j], steps[j]) == LoopOf(ss[i].waits, v)
    decreases i
  {
    var c := LoopOf(ss[i].waits, v);
    LoopIsClosed(ss[i].waits, v);
    assert i > 0;
    var s, a := ss[i - 1], steps[i - 1];
    assert Enabled(s, a) && ss[i] == Next(s, a);
    hide Acyclic, OnCycle, LoopOf, Reaches;
    if Touches(s, a, c) {
      j := i - 1;
      TouchIsAdd(s, a, c);
      SameLoop(ss[i].waits, ss[i].waits, v, s.at[a.t].id);
      LastEdge(s.waits, s.at[a.t].id, s.active.value);
    } else {
      Untouched(s, a, c);
      SameLoop(ss[i].waits, s.waits, v, v);
      j := LastAdded(ss, steps, i - 1, v);
    }
  }

  /** A step after which the loop is there did not remove one of its edges. */
  lemma TouchIsAdd(s: State, a: Step, c: set<int>)
    requires Enabled(s, a) && Touches(s, a, c) && SameInside(Next(s, a).waits, Next(s, a).waits, c)
    ensures a.Add? && s.active.Some? && s.at[a.t].id in c
  {
    hide Acyclic;
  }

  /** Over all runs of any threads: a search raises DeadlockError if and only if some earlier wait closed
      a loop, its holder already waiting for its waiter, and no step since then removed a transaction of
      that loop or gave one of them another edge. */
  lemma RaisedExactly(ss: seq<State>, steps: seq<Step>, i: nat)
    requires Run(ss, steps) && i < |steps| && steps[i].Detect?
    ensures Raises(ss, steps, i) <==> exists j: nat :: j < i && LeftAlone(ss, steps, j, i)
  {
    assert Enabled(ss[i], steps[i]) && ss[i + 1] == Next(ss[i], steps[i]);
    if !Acyclic(ss[i].waits) {
      var v :| OnCycle(ss[i].waits, v);
      var j := LastAdded(ss, steps, i, v);
    }
    forall j: nat | j < i && LeftAlone(ss, steps, j, i) ensures !Acyclic(ss[i].waits) {
      LoopLasts(ss, steps, j, i);
    }
  }

  // ----- runs without the race

  /** Every edge is added with the id that is still the next one: nobody began meanwhile. */
  ghost predicate NoStaleIds(ss: seq<State>, steps: seq<Step>)
    requires Run(ss, steps)
  {
    forall i :: 0 <= i < |steps| && steps[i].Add? ==> ss[i].at[steps[i].t].id == ss[i].next
  }

  ghost predicate Descending(g: Graph) {
    forall w | w in g :: g[w] < w
  }

  lemma {:induction false} WalksDown(g: Graph, v: int, k: nat)
    requires Descending(g) && Walk(g, v, k).Some? && k > 0
    ensures Walk(g, v, k).value < v
    decreases k
  {
    if k > 1 {
      WalksDown(g, g[v], k - 1);
    } else {
      assert Walk(g, g[v], 0) == Some(g[v]);
    }
  }

  lemma DescendingIsAcyclic(g: Graph)
    requires Descending(g)
    ensures Acyclic(g)
  {
    forall v ensures !OnCycle(g, v) {
      if OnCycle(g, v) {
        var k: nat :| k > 0 && Walk(g, v, k) == Some(v);
        WalksDown(g, v, k);
        assert false;
      }
    }
  }

  lemma {:induction false} FreshIdsDescend(ss: seq<State>, steps: seq<Step>, i: nat)
    requires Run(ss, steps) && NoStaleIds(ss, steps) && i < |ss|
    ensures Descending(ss[i].waits)
    decreases i
  {
    if i > 0 {
      FreshIdsDescend(ss, steps, i - 1);
      RunKeepsInv(ss, steps, i - 1);
      hide Acyclic;
      assert Enabled(ss[i - 1], steps[i - 1]) && ss[i] == Next(ss[i - 1], steps[i - 1]);
    }
  }

  /** Then no search ever raises. */
  lemma FreshIdsNeverRaise(ss: seq<State>, steps: seq<Step>, i: nat)
    requires Run(ss, steps) && NoStaleIds(ss, steps) && i < |steps|
    ensures !Raises(ss, steps, i)
  {
    FreshIdsDescend(ss, steps, i);
    DescendingIsAcyclic(ss[i].waits);
    assert Enabled(ss[i], steps[i]) && ss[i + 1] == Next(ss[i], steps[i]);
    hide Acyclic;
  }

  /** With one thread ids never go stale. */
  lemma {:induction false} AloneIsFresh(ss: seq<State>, steps: seq<Step>, t: Tid, i: nat)
    requires Run(ss, steps) && (forall k :: 0 <= k < |steps| ==> steps[k].t == t) && i < |ss|
    ensures forall u | u in ss[i].at :: u == t
    ensures t in ss[i].at && (ss[i].at[t].Ready? || ss[i].at[t].Seen?) ==> ss[i].at[t].id == ss[i].next
    decreases i
  {
    if i > 0 {
      AloneIsFresh(ss, steps, t, i - 1);
      hide Acyclic;
      assert Enabled(ss[i - 1], steps[i - 1]) && ss[i] == Next(ss[i - 1], steps[i - 1]) && steps[i - 1].t == t;
    }
  }

  /** A program with one thread never sees DeadlockError, however its calls nest. */
  lemma OneThreadNeverDeadlocks(ss: seq<State>, steps: seq<Step>, t: Tid, i: nat)
    requires Run(ss, steps) && (forall k :: 0 <= k < |steps| ==> steps[k].t == t) && i < |steps|
    ensures !Raises(ss, steps, i)
  {
    forall k | 0 <= k < |steps| && steps[k].Add? ensures ss[k].at[steps[k].t].id == ss[k].next {
      AloneIsFresh(ss, steps, t, k);
      assert Enabled(ss[k], steps[k]) && steps[k].t == t;
    }
    FreshIdsNeverRaise(ss, steps, i);
  }

  // ----- two runs

  lemma SelfLoop(g: Graph, v: int)
    requires v in g && g[v] == v
    ensures !Acyclic(g)
  {
    assert Walk(g, g[v], 0) == Some(v);
    assert Walk(g, v, 1) == Some(v);
    assert OnCycle(g, v);
  }

  /** The race: thread 2 reads id 2 while transaction 1 is active, thread 1 ends it and begins
      transaction 2, and thread 2 then waits for 2 as 2. */
  lemma RaceRaises() returns (ss: seq<State>, steps: seq<Step>, i: nat)
    ensures Run(ss, steps) && 0 < i < |steps| && Raises(ss, steps, i) && Closes(ss[i - 1], steps[i - 1])
  {
    hide Acyclic, Reaches, Run;
    ss, steps := Before();
    var r6 := State(map[], Some(2), 3, Some(1), map[2 := Seen(2)]);
    var r7 := State(map[2 := 2], Some(2), 3, Some(1), map[2 := Added(2)]);
    var r8 := r7.(at := map[2 := Doomed(2)]);
    SelfLoop(r7.waits, 2);
    ReachesItself(r6.waits, 2);
    ss, steps := Go(ss, steps, Add(2), r7);
    i := |steps|;
    ss, steps := Go(ss, steps, Detect(2), r8);
  }

  /** Up to the stale wait. */
  lemma Before() returns (ss: seq<State>, steps: seq<Step>)
    ensures Run(ss, steps) && |ss| == |steps| + 1 && ss[|steps|] == State(map[], Some(2), 3, Some(1), map[2 := Seen(2)])
  {
    assert Run([Start()], []);
    hide Acyclic, Run;
    ss, steps := Begins([Start()], [], 1);
    var r := State(map[], Some(1), 2, Some(1), map[]);
    assert ss[|steps|] == r;
    ss, steps := Go(ss, steps, Read(2), r.(at := map[2 := Ready(2)]));
    ss, steps := Go(ss, steps, Look(2), r.(at := map[2 := Seen(2)]));
    assert Without(map[], 1) == map[];
    ss, steps := Go(ss, steps, Forget(1), r.(at := map[2 := Seen(2), 1 := Ending]));
    assert map[2 := Seen(2), 1 := Ending] - {1} == map[2 := Seen(2)];
    ss, steps := Go(ss, steps, Clear(1), State(map[], None, 2, None, map[2 := Seen(2)]));
    ss, steps := Begins(ss, steps, 1);
  }

  lemma Go(ss: seq<State>, steps: seq<Step>, a: Step, s: State) returns (ss': seq<State>, steps': seq<Step>)
    requires Run(ss, steps) && |ss| == |steps| + 1 && Enabled(ss[|steps|], a) && Next(ss[|steps|], a) == s
    ensures ss' == ss + [s] && steps' == steps + [a] && Run(ss', steps') && |ss'| == |steps'| + 1
  {
    hide Next, Enabled;
    ss', steps' := ss + [s], steps + [a];
  }

  lemma ReachesItself(g: Graph, v: int)
    ensures Reaches(g, v, v)
  {
    assert Walk(g, v, 0) == Some(v);
  }

  /** A thread begins with nothing active. */
  lemma Begins(ss: seq<State>, steps: seq<Step>, t: Tid) returns (ss': seq<State>, steps': seq<Step>)
    requires Run(ss, steps) && |ss| == |steps| + 1
    requires var s := ss[|steps|]; s.active == None && s.owner == None && t !in s.at
    ensures Run(ss', steps') && |steps'| == |steps| + 3 && |ss'| == |steps'| + 1 && steps'[..|steps|] == steps
            && ss'[..|steps| + 1] == ss
    ensures var s := ss[|steps|]; ss'[|steps'|] == s.(active := Some(s.next), next := s.next + 1, owner := Some(t))
    ensures forall k :: |steps| <= k < |steps'| ==> steps'[k].t == t
  {
    hide Acyclic, Run;
    var s := ss[|steps|];
    var s1 := s.(at := s.at[t := Ready(s.next)]);
    var s2 := s.(at := s.at[t := Entering]);
    var s3 := s.(active := Some(s.next), next := s.next + 1, owner := Some(t));
    ss', steps' := Go(ss, steps, Read(t), s1);
    assert s1.at[t := Entering] == s2.at;
    ss', steps' := Go(ss', steps', Look(t), s2);
    assert s2.at - {t} == s.at;
    ss', steps' := Go(ss', steps', Enter(t), s3);
  }

  /** A thread inside its own transaction begins again: up to its edge. */
  lemma WaitsForItself(ss: seq<State>, steps: seq<Step>, t: Tid) returns (ss': seq<State>, steps': seq<Step>)
    requires Run(ss, steps) && |ss| == |steps| + 1
    requires var s := ss[|steps|]; s.active.Some? && t !in s.at
    ensures |steps'| == |steps| + 3 && |ss'| == |steps'| + 1 && Run(ss', steps')
    ensures var s := ss[|steps|];
            ss'[|steps'|] == s.(at := s.at[t := Added(s.next)], waits := s.waits[s.next := s.active.value])
    ensures ss <= ss' && steps' == steps + [Read(t), Look(t), Add(t)]
  {
    hide Acyclic, Run;
    var s := ss[|steps|];
    ss', steps' := Go(ss, steps, Read(t), s.(at := s.at[t := Ready(s.next)]));
    assert s.at[t := Ready(s.next)][t := Seen(s.next)] == s.at[t := Seen(s.next)];
    ss', steps' := Go(ss', steps', Look(t), s.(at := s.at[t := Seen(s.next)]));
    assert s.at[t := Seen(s.next)][t := Added(s.next)] == s.at[t := Added(s.next)];
    ss', steps' := Go(ss', steps', Add(t), s.(at := s.at[t := Added(s.next)],
                                              waits := s.waits[s.next := s.active.value]));
  }

  /** From the edge to the refusal. */
  lemma IsRefused(ss: seq<State>, steps: seq<Step>, s: State, t: Tid) returns (ss': seq<State>, steps': seq<Step>)
    requires Run(ss, steps) && |ss| == |steps| + 1 && s.active.Some? && s.active.value < s.next && s.owner == Some(t)
             && t !in s.at && s.waits == map[]
    requires ss[|steps|] == s.(at := s.at[t := Added(s.next)], waits := map[s.next := s.active.value])
    ensures Run(ss', steps') && |steps'| == |steps| + 3 && |ss'| == |steps'| + 1 && ss'[|steps'|] == s
    ensures ss <= ss' && steps' == steps + [Detect(t), Drop(t), Enter(t)]
  {
    var s0 := ss[|steps|];
    DescendingIsAcyclic(s0.waits);
    hide Acyclic, Run;
    assert s0.at[t := Cleared(s.next)] == s.at[t := Cleared(s.next)];
    ss', steps' := Go(ss, steps, Detect(t), s0.(at := s.at[t := Cleared(s.next)]));
    assert Without(s0.waits, s.next) == map[] && s.at[t := Cleared(s.next)][t := Entering] == s.at[t := Entering];
    ss', steps' := Go(ss', steps', Drop(t), s.(at := s.at[t := Entering]));
    assert s.at[t := Entering] - {t} == s.at;
    ss', steps' := Go(ss', steps', Enter(t), s);
  }

  /** The pre-flight check does run: one thread begins inside its own transaction, its edge is added,
      searched and removed, and the attempt is refused as nested. */
  lemma NestedBeginIsChecked() returns (ss: seq<State>, steps: seq<Step>)
    ensures Run(ss, steps) && |steps| == 9 && |ss| == 10 && (forall k :: 0 <= k < |steps| ==> steps[k].t == 1)
    ensures steps[5] == Add(1) && ss[6].waits == map[2 := 1] && ss[9] == ss[3]
  {
    assert Run([Start()], []);
    hide Acyclic, Run, Next, Enabled;
    var a, b := Begins([Start()], [], 1);
    var r := State(map[], Some(1), 2, Some(1), map[]);
    assert a[3] == r;
    var c, d := WaitsForItself(a, b, 1);
    assert c[3] == r && c[6].waits == map[2 := 1];
    ss, steps := IsRefused(c, d, r, 1);
  }
}
