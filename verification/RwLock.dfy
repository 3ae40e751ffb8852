/** The writer-preferring reader/writer lock as a machine of atomic steps. A step is one stretch of
    code under the condition's mutex: from entry or wake-up to the next `wait` or return. */
module RwLock {
  import opened Common

  type Tid = int

  /** The lock's own fields, then who holds reads and who sleeps inside which call. The flag of a
      sleeper says that it has been woken and will look again. */
  datatype State = State(
    readers: int, writer: Option<Tid>, waiting: int, prefer: bool,
    holds: multiset<Tid>, sleepR: map<Tid, bool>, sleepW: map<Tid, bool>)

  /** `expired`: a timeout was given and has passed when the thread finds the lock unavailable. */
  datatype Step =
    | AcquireRead(t: Tid, expired: bool)
    | RecheckRead(t: Tid, expired: bool)
    | ReleaseRead(t: Tid)
    | AcquireWrite(t: Tid, expired: bool)
    | RecheckWrite(t: Tid, expired: bool)
    | ReleaseWrite(t: Tid)
    | Wake(t: Tid)    // a timeout ends a sleep, or the platform wakes a thread spuriously

  function Fresh(prefer: bool): State {
    State(0, None, 0, prefer, multiset{}, map[], map[])
  }

  predicate ReadBlocked(s: State) {
    s.writer.Some? || (s.prefer && s.waiting > 0)
  }

  predicate WriteBlocked(s: State) {
    s.readers > 0 || s.writer.Some?
  }

  predicate Asleep(s: State, t: Tid) {
    t in s.sleepR || t in s.sleepW
  }

  /** Which steps a thread can take: running threads call, woken sleepers look again. A release is
      only attempted by a thread whose acquire succeeded. */
  predicate Enabled(s: State, a: Step) {
    match a
    case AcquireRead(t, _) => !Asleep(s, t)
    case RecheckRead(t, _) => t in s.sleepR && s.sleepR[t]
    case ReleaseRead(t) => !Asleep(s, t) && t in s.holds
    case AcquireWrite(t, _) => !Asleep(s, t)
    case RecheckWrite(t, _) => t in s.sleepW && s.sleepW[t]
    case ReleaseWrite(t) => !Asleep(s, t) && s.writer == Some(t)
    case Wake(t) => Asleep(s, t)
  }

  function AllWoken(m: map<Tid, bool>): (r: map<Tid, bool>)
    ensures r.Keys == m.Keys && forall t | t in r :: r[t]
  {
    map t | t in m :: true
  }

  function NotifyAll(s: State): State {
    s.(sleepR := AllWoken(s.sleepR), sleepW := AllWoken(s.sleepW))
  }

  /** The body of the wait loop of `acquire_read`, thread t awake. */
  function TryRead(s: State, t: Tid, expired: bool): State {
    if !ReadBlocked(s) then s.(readers := s.readers + 1, holds := s.holds + multiset{t}, sleepR := s.sleepR - {t})
    else if expired then s.(sleepR := s.sleepR - {t})
    else s.(sleepR := s.sleepR[t := false])
  }

  /** The same for `acquire_write`, the thread already counted; `finally` uncounts it. */
  function TryWrite(s: State, t: Tid, expired: bool): State {
    if !WriteBlocked(s) then s.(writer := Some(t), waiting := s.waiting - 1, sleepW := s.sleepW - {t})
    else if expired then s.(waiting := s.waiting - 1, sleepW := s.sleepW - {t})
    else s.(sleepW := s.sleepW[t := false])
  }

  function Next(s: State, a: Step): State
    requires Enabled(s, a)
  {
    match a
    case AcquireRead(t, expired) => TryRead(s, t, expired)
    case RecheckRead(t, expired) => TryRead(s, t, expired)
    case ReleaseRead(t) =>
      if s.readers <= 0 || s.writer.Some? then s    // RuntimeError
      else
        var s' := s.(readers := s.readers - 1, holds := s.holds - multiset{t});
        if s'.readers == 0 then NotifyAll(s') else s'
    case AcquireWrite(t, expired) => TryWrite(s.(waiting := s.waiting + 1, sleepW := s.sleepW[t := true]), t, expired)
    case RecheckWrite(t, expired) => TryWrite(s, t, expired)
    case ReleaseWrite(t) => NotifyAll(s.(writer := None))
    case Wake(t) =>
      if t in s.sleepR then s.(sleepR := s.sleepR[t := true]) else s.(sleepW := s.sleepW[t := true])
  }

  // ----- the invariant

  predicate Held(s: State) {
    s.readers > 0 || s.writer.Some?
  }

  ghost predicate Unnotified(s: State) {
    || (exists t :: t in s.sleepR && !s.sleepR[t])
    || (exists t :: t in s.sleepW && !s.sleepW[t])
  }

  ghost predicate AwakeWriter(s: State) {
    exists t :: t in s.sleepW && s.sleepW[t]
  }

  /** The counters are exact, readers and a writer never coexist, and no wake-up is lost: whoever
      sleeps without having been notified has a holder, or an awake writer, to wait for. */
  ghost predicate Inv(s: State) {
    && s.readers == |s.holds| && s.waiting == |s.sleepW|
    && !(s.readers > 0 && s.writer.Some?)
    && s.sleepR.Keys !! s.sleepW.Keys
    && (Unnotified(s) ==> Held(s) || AwakeWriter(s))
  }

  lemma FreshInv(prefer: bool)
    ensures Inv(Fresh(prefer))
  {
  }

  lemma TryReadKeeps(s: State, t: Tid, expired: bool)
    requires Inv(s) && t !in s.sleepW
    ensures Inv(TryRead(s, t, expired))
  {
    var s' := TryRead(s, t, expired);
    if ReadBlocked(s) && !s.writer.Some? && !AwakeWriter(s) && s'.sleepR == s.sleepR[t := false] {
      var w := SomeKey(s.sleepW);
      assert !s.sleepW[w];
    }
  }

  lemma TryWriteKeeps(s: State, t: Tid, expired: bool)
    requires Inv(s) && t in s.sleepW && s.sleepW[t]
    ensures Inv(TryWrite(s, t, expired))
  {
    assert (s.sleepW - {t}).Keys == s.sleepW.Keys - {t};
    assert |s.sleepW - {t}| == |s.sleepW| - 1 by { RemoveOne(s.sleepW, t); }
    assert |s.sleepW[t := false]| == |s.sleepW| by
           { assert s.sleepW[t := false].Keys == s.sleepW.Keys; SameSize(s.sleepW, s.sleepW[t := false]); }
  }

  lemma SomeKey(m: map<Tid, bool>) returns (t: Tid)
    requires m != map[]
    ensures t in m
  {
    assert m.Keys != {};
    t := Member(m.Keys);
  }

  lemma SameSize(a: map<Tid, bool>, b: map<Tid, bool>)
    requires a.Keys == b.Keys
    ensures |a| == |b|
  {
    assert |a| == |a.Keys| && |b| == |b.Keys|;
  }

  lemma RemoveOne(m: map<Tid, bool>, t: Tid)
    requires t in m
    ensures |m - {t}| == |m| - 1
  {
    assert (m - {t}).Keys == m.Keys - {t};
    assert |m - {t}| == |(m - {t}).Keys| && |m| == |m.Keys|;
  }

  lemma AddOne(m: map<Tid, bool>, t: Tid, b: bool)
    requires t !in m
    ensures |m[t := b]| == |m| + 1
  {
    assert m[t := b].Keys == m.Keys + {t};
    assert |m[t := b]| == |m[t := b].Keys| && |m| == |m.Keys|;
  }

  /** After a broadcast nobody is un-notified. */
  lemma NotifyKeeps(s: State)
    requires s.readers == |s.holds| && s.waiting == |s.sleepW| && !(s.readers > 0 && s.writer.Some?)
             && s.sleepR.Keys !! s.sleepW.Keys
    ensures Inv(NotifyAll(s)) && !Unnotified(NotifyAll(s))
  {
    SameSize(s.sleepW, AllWoken(s.sleepW));
  }

  lemma CountedKeeps(s: State, t: Tid)
    requires Inv(s) && !Asleep(s, t)
    ensures Inv(s.(waiting := s.waiting + 1, sleepW := s.sleepW[t := true]))
  {
    AddOne(s.sleepW, t, true);
    var m := s.(waiting := s.waiting + 1, sleepW := s.sleepW[t := true]);
    assert t in m.sleepW && m.sleepW[t];
  }

  lemma WakeKeeps(s: State, t: Tid)
    requires Inv(s) && Asleep(s, t)
    ensures Inv(Next(s, Wake(t)))
  {
    var s' := Next(s, Wake(t));
    if t in s.sleepR {
      if Unnotified(s') {
        assert Unnotified(s);
      }
    } else {
      SameSize(s.sleepW, s.sleepW[t := true]);
      assert t in s'.sleepW && s'.sleepW[t];
    }
  }

  lemma NextKeepsInv(s: State, a: Step)
    requires Inv(s) && Enabled(s, a)
    ensures Inv(Next(s, a))
  {
    match a
    case AcquireRead(t, expired) => TryReadKeeps(s, t, expired);
    case RecheckRead(t, expired) => TryReadKeeps(s, t, expired);
    case ReleaseRead(t) =>
      var s' := s.(readers := s.readers - 1, holds := s.holds - multiset{t});
      if s'.readers == 0 {
        NotifyKeeps(s');
      }
    case AcquireWrite(t, expired) =>
      CountedKeeps(s, t);
      TryWriteKeeps(s.(waiting := s.waiting + 1, sleepW := s.sleepW[t := true]), t, expired);
    case RecheckWrite(t, expired) => TryWriteKeeps(s, t, expired);
    case ReleaseWrite(t) => NotifyKeeps(s.(writer := None));
    case Wake(t) => WakeKeeps(s, t);
  }

  // ----- runs

  ghost predicate Run(ss: seq<State>, steps: seq<Step>) {
    && |ss| == |steps| + 1 && (exists prefer :: ss[0] == Fresh(prefer))
    && forall i :: 0 <= i < |steps| ==> Enabled(ss[i], steps[i]) && ss[i + 1] == Next(ss[i], steps[i])
  }

  /** In every state of every run, for any number of threads and timeouts, the invariant holds. */
  lemma {:induction false} EveryStateIsSafe(ss: seq<State>, steps: seq<Step>, i: nat)
    requires Run(ss, steps) && i < |ss|
    ensures Inv(ss[i])
    decreases i
  {
    if i > 0 {
      EveryStateIsSafe(ss, steps, i - 1);
      NextKeepsInv(ss[i - 1], steps[i - 1]);
    }
  }

  /** A reader gets in exactly when no writer holds the lock and, with writer preference, none is
      inside `acquire_write`; a writer exactly when nobody holds it. */
  lemma EntryIsExclusive(ss: seq<State>, steps: seq<Step>, i: nat)
    requires Run(ss, steps) && i < |steps|
    ensures ss[i + 1].readers > ss[i].readers ==>
              ss[i].writer.None? && ss[i + 1].writer.None? && (ss[i].prefer ==> ss[i].sleepW == map[])
    ensures ss[i + 1].writer.Some? && ss[i + 1].writer != ss[i].writer ==>
              ss[i].writer.None? && ss[i + 1].holds == multiset{}
  {
    EveryStateIsSafe(ss, steps, i);
    EveryStateIsSafe(ss, steps, i + 1);
    var s := ss[i];
    assert ss[i + 1] == Next(s, steps[i]);
  }

  /** Progress from a free lock: if anyone sleeps, someone is awake. An awake writer takes the lock
      at its next look; when no writer is inside, every sleeper is an awake reader and gets in. */
  lemma FreeLockIsTaken(ss: seq<State>, steps: seq<Step>, i: nat, t: Tid)
    requires Run(ss, steps) && i < |ss| && !Held(ss[i]) && Asleep(ss[i], t)
    ensures AwakeWriter(ss[i]) || (ss[i].sleepW == map[] && t in ss[i].sleepR && ss[i].sleepR[t])
    ensures forall w, expired | w in ss[i].sleepW && ss[i].sleepW[w] ::
              Next(ss[i], RecheckWrite(w, expired)).writer == Some(w)
    ensures forall expired :: ss[i].sleepW == map[] && t in ss[i].sleepR && ss[i].sleepR[t] ==>
              t in Next(ss[i], RecheckRead(t, expired)).holds
  {
    EveryStateIsSafe(ss, steps, i);
    if ss[i].sleepW != map[] {
      var w := SomeKey(ss[i].sleepW);
    }
  }

  // ----- sleepers look again only when woken

  predicate Woken(s: State, t: Tid) {
    (t in s.sleepR && s.sleepR[t]) || (t in s.sleepW && s.sleepW[t])
  }

  /** The step frees the lock and notifies everybody. */
  predicate Notifies(s: State, a: Step) {
    a.ReleaseWrite? || (a.ReleaseRead? && s.readers == 1)
  }

  /** A thread that goes to sleep is not woken; from then on freeing the lock or its own wake-up does it. */
  lemma WokenExactly(s: State, a: Step, t: Tid)
    requires Inv(s) && Enabled(s, a) && Asleep(Next(s, a), t)
    ensures Woken(Next(s, a), t) <==> Notifies(s, a) || a == Wake(t) || (Woken(s, t) && a.t != t)
  {
    assert a.ReleaseRead? ==> a.t in s.holds && s.readers > 0 && s.writer.None?;
    assert a.AcquireWrite? || a.RecheckWrite? ==> a.t !in s.sleepR;
    assert a.AcquireRead? || a.RecheckRead? ==> a.t !in s.sleepW;
    hide Inv, Woken, Asleep, TryRead, TryWrite;
    match a
    case AcquireRead(u, expired) => ReadTried(s, u, expired, t);
    case RecheckRead(u, expired) => ReadTried(s, u, expired, t);
    case AcquireWrite(u, expired) => WriteAsked(s, u, expired, t);
    case RecheckWrite(u, expired) => WriteTried(s, u, expired, t);
    case ReleaseRead(_) => Released(s, a, t);
    case ReleaseWrite(_) => Released(s, a, t);
    case Wake(u) => WokenUp(s, u, t);
  }

  lemma ReadTried(s: State, u: Tid, expired: bool, t: Tid)
    requires u !in s.sleepW
    ensures var s' := TryRead(s, u, expired); Asleep(s', t) ==> (Woken(s', t) <==> Woken(s, t) && u != t)
  {
  }

  lemma WriteTried(s: State, u: Tid, expired: bool, t: Tid)
    requires u !in s.sleepR
    ensures var s' := TryWrite(s, u, expired); Asleep(s', t) ==> (Woken(s', t) <==> Woken(s, t) && u != t)
  {
  }

  lemma WriteAsked(s: State, u: Tid, expired: bool, t: Tid)
    requires u !in s.sleepR
    ensures var s' := TryWrite(s.(waiting := s.waiting + 1, sleepW := s.sleepW[u := true]), u, expired);
            Asleep(s', t) ==> (Woken(s', t) <==> Woken(s, t) && u != t)
  {
    WriteTried(s.(waiting := s.waiting + 1, sleepW := s.sleepW[u := true]), u, expired, t);
    hide TryWrite;
  }

  lemma Released(s: State, a: Step, t: Tid)
    requires Enabled(s, a) && (a.ReleaseRead? || a.ReleaseWrite?)
    requires a.ReleaseRead? ==> s.readers > 0 && s.writer.None?
    ensures var s' := Next(s, a); Asleep(s', t) ==> (Woken(s', t) <==> Notifies(s, a) || Woken(s, t))
    ensures !Woken(s, a.t)
  {
  }

  lemma WokenUp(s: State, u: Tid, t: Tid)
    requires Asleep(s, u)
    ensures var s' := Next(s, Wake(u)); Asleep(s', t) ==> (Woken(s', t) <==> u == t || Woken(s, t))
  {
  }

  lemma WokenSleeps(s: State, t: Tid)
    requires Woken(s, t)
    ensures Asleep(s, t)
  {
  }

  lemma StartsAwake(ss: seq<State>, steps: seq<Step>, t: Tid)
    requires Run(ss, steps)
    ensures |ss| == |steps| + 1 && !Woken(ss[0], t)
  {
  }

  lemma TakesStep(ss: seq<State>, steps: seq<Step>, i: nat)
    requires Run(ss, steps) && i < |steps|
    ensures Enabled(ss[i], steps[i]) && ss[i + 1] == Next(ss[i], steps[i])
  {
  }

  /** In every run, behind every second look there is a step that woke the thread, and it did nothing since. */
  lemma {:induction false} WokenBefore(ss: seq<State>, steps: seq<Step>, i: nat, t: Tid) returns (j: nat)
    requires Run(ss, steps) && i < |ss| && Woken(ss[i], t)
    ensures j < i && (Notifies(ss[j], steps[j]) || steps[j] == Wake(t)) && forall k :: j < k < i ==> steps[k].t != t
    decreases i
  {
    hide *;
    StartsAwake(ss, steps, t);
    var s, a := ss[i - 1], steps[i - 1];
    EveryStateIsSafe(ss, steps, i - 1);
    TakesStep(ss, steps, i - 1);
    WokenSleeps(ss[i], t);
    WokenExactly(s, a, t);
    if Notifies(s, a) || a == Wake(t) {
      j := i - 1;
    } else {
      j := WokenBefore(ss, steps, i - 1, t);
    }
  }

  // ----- what the code does not give: a writer that times out notifies nobody

  /** Reader t sleeps and has not been notified. */
  predicate Sleeping(s: State, t: Tid) {
    t in s.sleepR && !s.sleepR[t]
  }

  /** It does so although nothing blocks it. */
  predicate Oversleeps(s: State, t: Tid) {
    !ReadBlocked(s) && Sleeping(s, t)
  }

  /** The last writer inside gives up while readers hold the lock and t, which it kept out, sleeps. */
  predicate GivesUp(s: State, a: Step, t: Tid) {
    && a.RecheckWrite? && a.expired && WriteBlocked(s) && s.prefer && s.writer.None? && s.waiting == 1
    && Sleeping(s, t)
  }

  /** t's sleep ends, the last reader leaves and notifies everybody, or a writer comes to wait for. */
  predicate Relieves(s: State, a: Step, t: Tid) {
    a == Wake(t) || (a.ReleaseRead? && s.readers == 1) || (a.AcquireWrite? && !a.expired)
  }

  /** Oversleeping begins exactly when a writer gives up that way. */
  lemma OversleepingBegins(s: State, a: Step, t: Tid)
    requires Inv(s) && Enabled(s, a) && !Oversleeps(s, t)
    ensures Oversleeps(Next(s, a), t) <==> GivesUp(s, a, t)
  {
    assert s.waiting >= 0;
    hide Inv;
    match a
    case AcquireRead(u, expired) => TryReadNever(s, u, expired, t);
    case RecheckRead(u, expired) => TryReadNever(s, u, expired, t);
    case AcquireWrite(u, expired) => TryWriteWhen(s.(waiting := s.waiting + 1, sleepW := s.sleepW[u := true]), u,
                                                  expired, t);
    case RecheckWrite(u, expired) => TryWriteWhen(s, u, expired, t);
    case ReleaseRead(_) => hide ReadBlocked;
    case ReleaseWrite(_) =>
    case Wake(_) =>
  }

  lemma TryReadNever(s: State, u: Tid, expired: bool, t: Tid)
    requires !Oversleeps(s, t)
    ensures !Oversleeps(TryRead(s, u, expired), t)
  {
  }

  lemma TryWriteWhen(s: State, u: Tid, expired: bool, t: Tid)
    ensures Oversleeps(TryWrite(s, u, expired), t) <==>
              && Sleeping(s, t) && WriteBlocked(s) && s.writer.None?
              && (s.prefer ==> s.waiting - (if expired then 1 else 0) <= 0)
  {
  }

  /** And it ends exactly when one of those three things happens. */
  lemma OversleepingEnds(s: State, a: Step, t: Tid)
    requires Inv(s) && Enabled(s, a) && Oversleeps(s, t) && s.prefer
    ensures !Oversleeps(Next(s, a), t) <==> Relieves(s, a, t)
  {
    assert s.sleepW == map[] && s.readers > 0 by {
      if s.sleepW != map[] {
        var w := SomeKey(s.sleepW);
        assert false;
      }
    }
    assert a.ReleaseRead? ==> a.t in s.holds;
    hide Inv;
  }

  lemma {:induction false} SamePreference(ss: seq<State>, steps: seq<Step>, i: nat)
    requires Run(ss, steps) && i < |ss|
    ensures ss[i].prefer == ss[0].prefer
    decreases i
  {
    if i > 0 {
      SamePreference(ss, steps, i - 1);
      assert Enabled(ss[i - 1], steps[i - 1]) && ss[i] == Next(ss[i - 1], steps[i - 1]);
    }
  }

  ghost predicate LeftSleeping(ss: seq<State>, steps: seq<Step>, j: nat, i: nat, t: Tid)
    requires |ss| == |steps| + 1 && j < i <= |steps|
  {
    GivesUp(ss[j], steps[j], t) && forall k :: j < k < i ==> !Relieves(ss[k], steps[k], t)
  }

  /** Over all runs: reader t oversleeps if and only if an earlier writer gave up that way and since then
      t was not woken, the last reader did not leave, and no writer came to wait. */
  lemma {:induction false} OversleepsExactly(ss: seq<State>, steps: seq<Step>, i: nat, t: Tid)
    requires Run(ss, steps) && i < |ss|
    ensures Oversleeps(ss[i], t) <==> exists j: nat :: j < i && LeftSleeping(ss, steps, j, i, t)
    decreases i
  {
    if i > 0 {
      var s, a := ss[i - 1], steps[i - 1];
      OversleepsExactly(ss, steps, i - 1, t);
      EveryStateIsSafe(ss, steps, i - 1);
      assert Enabled(s, a) && ss[i] == Next(s, a);
      if Oversleeps(s, t) {
        var j: nat :| j < i - 1 && LeftSleeping(ss, steps, j, i - 1, t);
        SamePreference(ss, steps, j);
        SamePreference(ss, steps, i - 1);
        OversleepingEnds(s, a, t);
        OneStepMore(ss, steps, j, i, t);
      } else {
        OversleepingBegins(s, a, t);
        if GivesUp(s, a, t) {
          assert LeftSleeping(ss, steps, i - 1, i, t);
        }
        forall j: nat | j < i && LeftSleeping(ss, steps, j, i, t) ensures j == i - 1 {
          assert j < i - 1 ==> LeftSleeping(ss, steps, j, i - 1, t);
        }
      }
      hide Oversleeps, GivesUp, Next, Enabled, Relieves;
    } else {
      StartRested(ss, steps, t);
    }
  }

  lemma StartRested(ss: seq<State>, steps: seq<Step>, t: Tid)
    requires Run(ss, steps)
    ensures !Oversleeps(ss[0], t)
  {
  }

  lemma OneStepMore(ss: seq<State>, steps: seq<Step>, j: nat, i: nat, t: Tid)
    requires |ss| == |steps| + 1 && j + 1 < i <= |steps| && LeftSleeping(ss, steps, j, i - 1, t)
    ensures LeftSleeping(ss, steps, j, i, t) <==> !Relieves(ss[i - 1], steps[i - 1], t)
  {
    hide GivesUp, Relieves;
  }

  /** Without writer timeouts no reader ever oversleeps. */
  lemma NoTimeoutNoOversleeping(ss: seq<State>, steps: seq<Step>, i: nat, t: Tid)
    requires Run(ss, steps) && i < |ss|
    requires forall j :: 0 <= j < |steps| ==> !(steps[j].RecheckWrite? && steps[j].expired)
    ensures !Oversleeps(ss[i], t)
  {
    OversleepsExactly(ss, steps, i, t);
  }

  /** It does happen. */
  lemma ReaderOversleeps() returns (ss: seq<State>, steps: seq<Step>)
    ensures Run(ss, steps)
    ensures Oversleeps(ss[|ss| - 1], 3) && Held(ss[|ss| - 1])
  {
    steps := [AcquireRead(1, false), AcquireWrite(2, false), AcquireRead(3, false), Wake(2), RecheckWrite(2, true)];
    var s0 := Fresh(true);
    var s1 := Next(s0, steps[0]);
    var s2 := Next(s1, steps[1]);
    var s3 := Next(s2, steps[2]);
    var s4 := Next(s3, steps[3]);
    var s5 := Next(s4, steps[4]);
    ss := [s0, s1, s2, s3, s4, s5];
    assert 3 in s5.sleepR && !s5.sleepR[3];
  }
}
