/** The reentrant write guard over the reader/writer lock: per-thread depths, the lock taken on the
    first entry and given back on the last exit. The guard's own bookkeeping and the lock call are
    separate steps, so other threads may run in between. */
module LockGuard {
  import opened Common
  import opened RwLock

  datatype Transit = Entering | Leaving

  /** `depth` is the table of per-thread frames; `transit` says which threads are between a table
      update and the matching lock call; `got` and `gone` count acquires and releases that returned. */
  datatype Guard = Guard(rw: State, depth: map<Tid, nat>, transit: map<Tid, Transit>, got: multiset<Tid>,
                         gone: multiset<Tid>)

  datatype Move =
    | Enter(t: Tid)       // acquire, no frame yet: ask for the lock
    | Record(t: Tid)      // the lock was granted: first frame
    | Again(t: Tid)       // acquire by a thread that has a frame
    | Drop(t: Tid)        // release: one frame fewer
    | Leave(t: Tid)       // the last frame is gone: give the lock back
    | Other(step: Step)   // a lock step: looking again for the lock, or a reader

  function FreshGuard(prefer: bool): Guard {
    Guard(Fresh(prefer), map[], map[], multiset{}, multiset{})
  }

  /** Writers use the guard only, and it waits without a timeout. */
  predicate OtherStep(g: Guard, a: Step) {
    match a
    case Wake(_) => true
    case RecheckWrite(_, expired) => !expired
    case AcquireRead(t, _) => t !in g.transit
    case RecheckRead(t, _) => t !in g.transit
    case ReleaseRead(t) => t !in g.transit
    case _ => false
  }

  predicate CanMove(g: Guard, m: Move) {
    match m
    case Enter(t) => t !in g.depth && t !in g.transit && !Asleep(g.rw, t)
    case Record(t) => t in g.transit && g.transit[t] == Entering && !Asleep(g.rw, t)
    case Again(t) => t in g.depth && t !in g.transit && !Asleep(g.rw, t)
    case Drop(t) => t !in g.transit && !Asleep(g.rw, t)
    case Leave(t) => t in g.transit && g.transit[t] == Leaving && !Asleep(g.rw, t)
    case Other(a) => OtherStep(g, a) && Enabled(g.rw, a)
  }

  function After(g: Guard, m: Move): Guard
    requires CanMove(g, m)
  {
    match m
    case Enter(t) => g.(rw := Next(g.rw, AcquireWrite(t, false)), transit := g.transit[t := Entering])
    case Record(t) =>
      g.(depth := g.depth[t := if t in g.depth then g.depth[t] + 1 else 1], transit := g.transit - {t},
         got := g.got + multiset{t})
    case Again(t) => g.(depth := g.depth[t := g.depth[t] + 1], got := g.got + multiset{t})
    case Drop(t) =>
      if t !in g.depth then g    // RuntimeError
      else if g.depth[t] == 1 then g.(depth := g.depth - {t}, transit := g.transit[t := Leaving],
                                      gone := g.gone + multiset{t})
      else g.(depth := g.depth[t := if g.depth[t] > 0 then g.depth[t] - 1 else 0], gone := g.gone + multiset{t})
    case Leave(t) =>
      if g.rw.writer == Some(t) then g.(rw := Next(g.rw, ReleaseWrite(t)), transit := g.transit - {t})
      else g    // RuntimeError
    case Other(a) => g.(rw := Next(g.rw, a))
  }

  function DepthOf(g: Guard, t: Tid): nat {
    if t in g.depth then g.depth[t] else 0
  }

  /** Who the lock belongs to, as the guard sees it. */
  predicate Owner(g: Guard, t: Tid) {
    || t in g.depth
    || (t in g.transit && (g.transit[t] == Leaving || t !in g.rw.sleepW))
  }

  predicate Balanced(g: Guard, t: Tid) {
    g.gone[t] + DepthOf(g, t) == g.got[t]
  }

  predicate Agrees(g: Guard, t: Tid) {
    g.rw.writer == Some(t) <==> Owner(g, t)
  }

  ghost predicate GuardInv(g: Guard) {
    && Inv(g.rw)
    && (forall t | t in g.depth :: g.depth[t] >= 1 && t !in g.transit)
    && (forall t | t in g.rw.sleepW :: t in g.transit && g.transit[t] == Entering)
    && (forall t | t in g.rw.sleepR :: t !in g.transit)
    && (forall t :: Agrees(g, t))
    && (forall t :: Balanced(g, t))
  }

  /** Asking for the lock either gets it or leaves the thread asleep. */
  lemma Asked(s: State, t: Tid, a: Step)
    requires Enabled(s, a) && (a == AcquireWrite(t, false) || a == RecheckWrite(t, false))
    ensures var s' := Next(s, a);
            && (forall u :: u != t ==> (u in s'.sleepW <==> u in s.sleepW))
            && if WriteBlocked(s) then t in s'.sleepW && s'.writer == s.writer
               else t !in s'.sleepW && s'.writer == Some(t) && s.writer == None
    ensures Next(s, a).sleepR == s.sleepR
  {
  }

  lemma AskKeeps(g: Guard, t: Tid, a: Step)
    requires GuardInv(g) && Enabled(g.rw, a)
    requires || (a == AcquireWrite(t, false) && t !in g.depth && t !in g.transit)
             || (a == RecheckWrite(t, false) && t in g.rw.sleepW)
    requires t !in g.rw.sleepR
    ensures GuardInv(g.(rw := Next(g.rw, a), transit := g.transit[t := Entering]))
  {
    hide Inv, Next, Enabled;
    NextKeepsInv(g.rw, a);
    Asked(g.rw, t, a);
    var g' := g.(rw := Next(g.rw, a), transit := g.transit[t := Entering]);
    assert Agrees(g, t);
    forall u ensures Agrees(g', u) && Balanced(g', u) {
      assert Agrees(g, u) && Balanced(g, u);
    }
  }

  lemma WritersStay(s: State, a: Step)
    requires Enabled(s, a) && (a.Wake? || a.AcquireRead? || a.RecheckRead? || a.ReleaseRead?)
    ensures Next(s, a).writer == s.writer && forall t :: t in Next(s, a).sleepW <==> t in s.sleepW
    ensures forall t :: t in Next(s, a).sleepR ==> t in s.sleepR || (a.t == t && !a.Wake?)
  {
  }

  lemma ReadStepKeeps(g: Guard, a: Step)
    requires GuardInv(g) && Enabled(g.rw, a) && (a.Wake? || a.AcquireRead? || a.RecheckRead? || a.ReleaseRead?)
    requires OtherStep(g, a)
    ensures GuardInv(g.(rw := Next(g.rw, a)))
  {
    hide Inv, Next, Enabled;
    NextKeepsInv(g.rw, a);
    WritersStay(g.rw, a);
    var g' := g.(rw := Next(g.rw, a));
    forall u ensures Agrees(g', u) && Balanced(g', u) {
      assert Agrees(g, u) && Balanced(g, u);
    }
  }

  lemma LeaveKeeps(g: Guard, t: Tid)
    requires GuardInv(g) && CanMove(g, Leave(t))
    ensures g.rw.writer == Some(t) && GuardInv(After(g, Leave(t)))
  {
    assert Agrees(g, t) && Owner(g, t);
    NextKeepsInv(g.rw, ReleaseWrite(t));
    hide Inv;
    var g' := After(g, Leave(t));
    assert forall u :: u in g'.rw.sleepW <==> u in g.rw.sleepW;
    forall u ensures Agrees(g', u) && Balanced(g', u) {
      assert Agrees(g, u) && Balanced(g, u);
    }
  }

  /** The moves that only touch the guard's own table. */
  lemma TableKeeps(g: Guard, m: Move)
    requires GuardInv(g) && CanMove(g, m) && (m.Record? || m.Again? || m.Drop?)
    ensures GuardInv(After(g, m))
  {
    hide Inv;
    var t, g' := m.t, After(g, m);
    assert Agrees(g, t) && Balanced(g, t);
    forall u ensures Agrees(g', u) && Balanced(g', u) {
      assert Agrees(g, u) && Balanced(g, u);
    }
  }

  lemma MoveKeeps(g: Guard, m: Move)
    requires GuardInv(g) && CanMove(g, m)
    ensures GuardInv(After(g, m))
  {
    if m.Enter? {
      AskKeeps(g, m.t, AcquireWrite(m.t, false));
    } else if m.Leave? {
      LeaveKeeps(g, m.t);
    } else if m.Other? && m.step.RecheckWrite? {
      AskKeeps(g, m.step.t, m.step);
      assert g.transit[m.step.t := Entering] == g.transit;
    } else if m.Other? {
      ReadStepKeeps(g, m.step);
    } else {
      TableKeeps(g, m);
    }
    hide GuardInv, Next;
  }

  ghost predicate GuardRun(gs: seq<Guard>, ms: seq<Move>) {
    && |gs| == |ms| + 1 && (exists prefer :: gs[0] == FreshGuard(prefer))
    && forall i :: 0 <= i < |ms| ==> CanMove(gs[i], ms[i]) && gs[i + 1] == After(gs[i], ms[i])
  }

  lemma {:induction false} GuardRunIsSafe(gs: seq<Guard>, ms: seq<Move>, i: nat)
    requires GuardRun(gs, ms) && i < |gs|
    ensures GuardInv(gs[i])
    decreases i
  {
    if i == 0 {
      FreshInv(gs[0].rw.prefer);
    } else {
      GuardRunIsSafe(gs, ms, i - 1);
      MoveKeeps(gs[i - 1], ms[i - 1]);
    }
  }

  /** In every run, a thread outside the guard's code holds the write lock exactly while its acquires
      outnumber its releases; the lock call that ends a release never fails; and the release that
      brings the two counts together is the one that gives the lock back. */
  lemma FreedExactlyWhenBalanced(gs: seq<Guard>, ms: seq<Move>, i: nat, t: Tid)
    requires GuardRun(gs, ms) && i < |gs|
    ensures t !in gs[i].transit ==> (gs[i].rw.writer == Some(t) <==> gs[i].got[t] > gs[i].gone[t])
    ensures gs[i].got[t] >= gs[i].gone[t]
    ensures i < |ms| && ms[i] == Leave(t) ==>
              gs[i].rw.writer == Some(t) && gs[i + 1].rw.writer == None && gs[i + 1].got[t] == gs[i + 1].gone[t]
    ensures i < |ms| && ms[i] == Drop(t) && t in gs[i].depth ==>
              (t in gs[i + 1].transit <==> gs[i + 1].got[t] == gs[i + 1].gone[t])
  {
    GuardRunIsSafe(gs, ms, i);
    var g := gs[i];
    assert Agrees(g, t) && Balanced(g, t);
    if i < |ms| {
      GuardRunIsSafe(gs, ms, i + 1);
      var g' := gs[i + 1];
      assert Balanced(g', t);
      if ms[i] == Leave(t) {
        LeaveKeeps(g, t);
      }
    }
    hide Inv, Next;
  }

  /** Nobody is ever stuck: a thread between the table and the lock finishes as soon as it is awake, one that
      waits for the lock can be woken and looks again when it was, and any other can ask, go deeper or
      release. */
  lemma EverybodyCanMove(gs: seq<Guard>, ms: seq<Move>, i: nat, t: Tid)
    requires GuardRun(gs, ms) && i < |gs|
    ensures var g := gs[i];
            if Asleep(g.rw, t) then
              && CanMove(g, Other(Wake(t)))
              && (Woken(g.rw, t) ==>
                    CanMove(g, Other(RecheckWrite(t, false))) || CanMove(g, Other(RecheckRead(t, false))))
            else if t in g.transit then CanMove(g, if g.transit[t] == Entering then Record(t) else Leave(t))
            else if t in g.depth then CanMove(g, Again(t)) && CanMove(g, Drop(t))
            else CanMove(g, Enter(t)) && CanMove(g, Other(AcquireRead(t, false)))
  {
    GuardRunIsSafe(gs, ms, i);
  }

  /** Two threads never both have frames. */
  lemma OneOwner(gs: seq<Guard>, ms: seq<Move>, i: nat, t: Tid, u: Tid)
    requires GuardRun(gs, ms) && i < |gs| && t in gs[i].depth && u in gs[i].depth
    ensures t == u
  {
    GuardRunIsSafe(gs, ms, i);
    assert Agrees(gs[i], t) && Agrees(gs[i], u);
  }
}
