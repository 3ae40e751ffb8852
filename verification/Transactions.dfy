/** The transaction manager and the logged page write, as atomic steps between which the process
    may die, and crash safety over every run of them. */
module Transactions {
  import opened Common
  import opened Bytes
  import opened Recovery
  import opened RecoveryExact

  datatype Phase =
    | Idle
    | Logged(pid: nat, after: Page)   // the record is in the log, the page is not written yet
    | Undoing                         // ROLLBACK is in the log, before-images are being written back

  /** Disk and log survive a crash; the rest is the manager's memory. */
  datatype Sys = Sys(disk: Disk, log: Log, active: Option<nat>, nextTx: nat,
                     touched: seq<(nat, Page)>, phase: Phase)

  datatype Step =
    | DoBegin | DoLog(pid: nat, after: Page) | DoWrite | DoCommit | DoRollback | DoUndo | DoCheckpoint

  function Start(disk: Disk): Sys {
    Sys(disk, [], None, 1, [], Idle)
  }

  /** One atomic step; a call that raises changes nothing. */
  function Next(s: Sys, step: Step): Sys {
    match step
    case DoBegin =>
      if s.phase != Idle || s.active.Some? then s
      else s.(log := s.log + [Begin(s.nextTx)], active := Some(s.nextTx), nextTx := s.nextTx + 1, touched := [])
    case DoLog(p, a) =>
      if s.phase != Idle || p !in s.disk then s
      else
        var tx := match s.active case Some(t) => t case None => 0;
        s.(log := s.log + [Write(tx, p, s.disk[p], a)], touched := s.touched + [(p, s.disk[p])], phase := Logged(p, a))
    case DoWrite =>
      if !s.phase.Logged? then s else s.(disk := s.disk[s.phase.pid := s.phase.after], phase := Idle)
    case DoCommit =>
      if s.phase != Idle || s.active.None? then s
      else s.(log := s.log + [Commit(s.active.value)], active := None, touched := [])
    case DoRollback =>
      if s.phase != Idle || s.active.None? then s
      else s.(log := s.log + [Rollback(s.active.value)], phase := Undoing)
    case DoUndo =>
      if s.phase != Undoing then s
      else if s.touched == [] then s.(active := None, phase := Idle)
      else
        var (p, b) := s.touched[|s.touched| - 1];
        s.(disk := s.disk[p := b], touched := s.touched[..|s.touched| - 1])
    case DoCheckpoint =>
      if s.phase != Idle then s else s.(log := s.log + [Other])
  }

  function Run(s: Sys, steps: seq<Step>): Sys {
    if steps == [] then s else Next(Run(s, steps[..|steps| - 1]), steps[|steps| - 1])
  }

  /** Write the before-images back, latest first. */
  function Restore(disk: Disk, touched: seq<(nat, Page)>): Disk
    decreases |touched|
  {
    if touched == [] then disk
    else Restore(disk[touched[|touched| - 1].0 := touched[|touched| - 1].1], touched[..|touched| - 1])
  }

  // ----- what every step keeps

  ghost predicate Ids(s: Sys) {
    && s.nextTx >= 1
    && (forall e <- s.log :: e.Other? || e.tx < s.nextTx)
    && (match s.active
        case None => s.phase != Undoing
        case Some(t) =>
          && 0 < t < s.nextTx
          && StatusOf(s.log, t) == (if s.phase == Undoing then RolledBack else Unknown)
          && Tail(s.log, t))
  }

  ghost predicate FirstImages(start: Disk, s: Sys) {
    && s.disk.Keys == start.Keys
    && (forall p <- start ::
          match FirstOn(s.log, p) case Some(f) => f.before == start[p] case None => s.disk[p] == start[p])
    && (forall e <- s.log :: e.Write? ==> e.pid in start)
    && (forall t <- s.touched :: t.0 in start && FirstOn(s.log, t.0).Some?)
    && (s.phase.Logged? ==> s.phase.pid in start && FirstOn(s.log, s.phase.pid).Some?)
  }

  /** The running process itself is atomic: between transactions the disk is what the committed
      ones left; inside one, undoing its touches gives that disk and committing would give this one. */
  ghost predicate Online(start: Disk, s: Sys) {
    && (s.phase.Logged? ==>
          && s.touched != [] && s.phase.pid in s.disk
          && s.touched[|s.touched| - 1] == (s.phase.pid, s.disk[s.phase.pid]))
    && var now := if s.phase.Logged? then s.disk[s.phase.pid := s.phase.after] else s.disk;
    match s.active
    case None => now == CommittedOnly(start, s.log, s.log)
    case Some(t) =>
      && Restore(s.disk, s.touched) == CommittedOnly(start, s.log, s.log)
      && (s.phase != Undoing ==> now == CommittedOnly(start, s.log, s.log + [Commit(t)]))
  }

  ghost predicate Inv(start: Disk, s: Sys) {
    Ids(s) && Serial(s.log) && FirstImages(start, s) && Online(start, s)
  }

  // ----- preservation, one ingredient at a time

  lemma SerialStep(log: Log, e: Entry)
    requires Serial(log)
    requires e.Write? && e.tx != 0 ==> Tail(log, e.tx)
    ensures Serial(log + [e])
  {
    assert (log + [e])[..|log|] == log;
  }

  lemma FirstOnStep(log: Log, e: Entry, p: nat)
    ensures FirstOn(log + [e], p) ==
              if FirstOn(log, p).Some? then FirstOn(log, p) else if WritesTo(e, p) then Some(e) else None
  {
    assert (log + [e])[..|log|] == log;
  }

  lemma CommittedOnlyStep(disk: Disk, log: Log, e: Entry, full: Log)
    ensures CommittedOnly(disk, log + [e], full) ==
              var d := CommittedOnly(disk, log, full);
              if e.Write? && Wins(full, e.tx) then d[e.pid := e.after] else d
  {
    assert (log + [e])[..|log|] == log;
  }

  lemma {:induction false} CommittedOnlyCong(disk: Disk, log: Log, f: Log, g: Log)
    requires forall e <- log :: e.Write? ==> (Wins(f, e.tx) <==> Wins(g, e.tx))
    ensures CommittedOnly(disk, log, f) == CommittedOnly(disk, log, g)
  {
    if log != [] {
      CommittedOnlyCong(disk, log[..|log| - 1], f, g);
    }
  }

  lemma IdsKept(s: Sys, step: Step)
    requires Ids(s)
    ensures Ids(Next(s, step))
  {
    var s' := Next(s, step);
    if s'.log != s.log {
      var e := s'.log[|s.log|];
      assert s'.log == s.log + [e];
      hide StatusOf;
      StatusStep(s.log, e);
      match step
      case DoBegin => NoStatusYet(s.log, s.nextTx);
      case DoLog(_, _) => assert s.active.Some? ==> e.tx == s.active.value;
      case _ =>
    }
  }

  lemma {:induction false} NoStatusYet(log: Log, tx: nat)
    requires forall e <- log :: e.Other? || e.tx < tx
    ensures StatusOf(log, tx) == Unknown
  {
    if log != [] {
      NoStatusYet(log[..|log| - 1], tx);
    }
  }

  lemma SerialKept(s: Sys, step: Step)
    requires Ids(s) && Serial(s.log)
    ensures Serial(Next(s, step).log)
  {
    var s' := Next(s, step);
    if s'.log != s.log {
      SerialStep(s.log, s'.log[|s.log|]);
    }
  }

  lemma FirstImagesKept(start: Disk, s: Sys, step: Step)
    requires FirstImages(start, s)
    ensures FirstImages(start, Next(s, step))
  {
    hide FirstOn;
    var s' := Next(s, step);
    if s'.log != s.log {
      forall p { FirstOnStep(s.log, s'.log[|s.log|], p); }
    }
    match step
    case DoLog(p, a) =>
    case DoUndo => assert s.touched != [] ==> s.touched[|s.touched| - 1] in s.touched;
    case _ =>
  }

  lemma OnlineKept(start: Disk, s: Sys, step: Step)
    requires Ids(s) && Online(start, s) && Ids(Next(s, step))
    ensures Online(start, Next(s, step))
  {
    match step
    case DoBegin => OnlineBegin(start, s);
    case DoLog(p, a) => OnlineLog(start, s, p, a);
    case DoWrite => OnlineWrite(start, s);
    case DoCommit => OnlineCommit(start, s);
    case DoRollback => OnlineRollback(start, s);
    case DoUndo =>
    case DoCheckpoint => OnlineCheckpoint(start, s);
  }

  /** Appending an entry that settles no transaction leaves every verdict alone. */
  lemma SameWinners(log: Log, e: Entry, rest: Log)
    requires !e.Commit? && !e.Rollback?
    requires rest == [] || exists c :: rest == [c]
    ensures forall tx :: Wins(log + [e] + rest, tx) <==> Wins(log + rest, tx)
  {
    StatusStep(log, e);
    if rest == [] {
      assert log + [e] + rest == log + [e] && log + rest == log;
    } else {
      StatusStep(log + [e], rest[0]);
      StatusStep(log, rest[0]);
      assert rest == [rest[0]];
    }
  }

  lemma OnlineBegin(start: Disk, s: Sys)
    requires Ids(s) && Online(start, s)
    ensures Online(start, Next(s, DoBegin))
  {
    if s.phase == Idle && s.active.None? {
      var t, e := s.nextTx, Begin(s.nextTx);
      var log := s.log + [e];
      CommittedOnlyStep(start, s.log, e, log);
      CommittedOnlyStep(start, s.log, e, log + [Commit(t)]);
      SameWinners(s.log, e, []);
      assert s.log + [e] + [] == log && s.log + [] == s.log;
      CommittedOnlyCong(start, s.log, log, s.log);
      StatusStep(log, Commit(t));
      CommittedOnlyCong(start, s.log, log + [Commit(t)], s.log);
    }
  }

  lemma OnlineLog(start: Disk, s: Sys, p: nat, a: Page)
    requires Ids(s) && Online(start, s)
    ensures Online(start, Next(s, DoLog(p, a)))
  {
    if s.phase == Idle && p in s.disk {
      var tx := match s.active case Some(t) => t case None => 0;
      var e := Write(tx, p, s.disk[p], a);
      var log := s.log + [e];
      CommittedOnlyStep(start, s.log, e, log);
      SameWinners(s.log, e, []);
      assert s.log + [e] + [] == log && s.log + [] == s.log;
      CommittedOnlyCong(start, s.log, log, s.log);
      if s.active.Some? {
        var c := [Commit(tx)];
        CommittedOnlyStep(start, s.log, e, log + c);
        SameWinners(s.log, e, c);
        CommittedOnlyCong(start, s.log, log + c, s.log + c);
        StatusStep(log, Commit(tx));
        RestoreNothing(s.disk, s.touched, p);
      }
    }
  }

  lemma RestoreNothing(disk: Disk, touched: seq<(nat, Page)>, p: nat)
    requires p in disk
    ensures Restore(disk, touched + [(p, disk[p])]) == Restore(disk, touched)
  {
    assert (touched + [(p, disk[p])])[..|touched|] == touched;
    assert disk[p := disk[p]] == disk;
  }

  lemma OnlineWrite(start: Disk, s: Sys)
    requires Ids(s) && Online(start, s)
    ensures Online(start, Next(s, DoWrite))
  {
    if s.phase.Logged? && s.active.Some? {
      var p, a, ts := s.phase.pid, s.phase.after, s.touched;
      assert s.disk[p := a][p := s.disk[p]] == s.disk == s.disk[p := s.disk[p]];
      assert Restore(s.disk[p := a], ts) == Restore(s.disk, ts);
    }
  }

  lemma OnlineCommit(start: Disk, s: Sys)
    requires Ids(s) && Online(start, s)
    ensures Online(start, Next(s, DoCommit))
  {
    if s.phase == Idle && s.active.Some? {
      CommittedOnlyStep(start, s.log, Commit(s.active.value), s.log + [Commit(s.active.value)]);
    }
  }

  lemma OnlineRollback(start: Disk, s: Sys)
    requires Ids(s) && Online(start, s)
    ensures Online(start, Next(s, DoRollback))
  {
    if s.phase == Idle && s.active.Some? {
      var e := Rollback(s.active.value);
      CommittedOnlyStep(start, s.log, e, s.log + [e]);
      StatusStep(s.log, e);
      CommittedOnlyCong(start, s.log, s.log + [e], s.log);
    }
  }

  lemma OnlineCheckpoint(start: Disk, s: Sys)
    requires Ids(s) && Online(start, s)
    ensures Online(start, Next(s, DoCheckpoint))
  {
    if s.phase == Idle {
      var log := s.log + [Other];
      CommittedOnlyStep(start, s.log, Other, log);
      SameWinners(s.log, Other, []);
      assert s.log + [Other] + [] == log && s.log + [] == s.log;
      CommittedOnlyCong(start, s.log, log, s.log);
      if s.active.Some? {
        var c := [Commit(s.active.value)];
        CommittedOnlyStep(start, s.log, Other, log + c);
        SameWinners(s.log, Other, c);
        CommittedOnlyCong(start, s.log, log + c, s.log + c);
      }
    }
  }

  lemma {:induction false} RunKeepsInv(start: Disk, steps: seq<Step>)
    ensures Inv(start, Run(Start(start), steps))
  {
    if steps != [] {
      var s, step := Run(Start(start), steps[..|steps| - 1]), steps[|steps| - 1];
      RunKeepsInv(start, steps[..|steps| - 1]);
      hide *;
      InvKept(start, s, step);
      RunUnfolds(Start(start), steps);
    }
  }

  lemma RunUnfolds(s: Sys, steps: seq<Step>)
    requires steps != []
    ensures Run(s, steps) == Next(Run(s, steps[..|steps| - 1]), steps[|steps| - 1])
  {
  }

  lemma InvKept(start: Disk, s: Sys, step: Step)
    requires Inv(start, s)
    ensures Inv(start, Next(s, step))
  {
    IdsKept(s, step);
    SerialKept(s, step);
    FirstImagesKept(start, s, step);
    OnlineKept(start, s, step);
    hide Next, Ids, FirstImages, Online, Serial;
  }

  // ----- main results

  /** In every run, whenever no transaction is open and no write is half done, the disk is exactly
      what the committed transactions alone would have left; rolled-back ones leave no trace,
      however often they touched a page. */
  lemma RunningProcessIsAtomic(start: Disk, steps: seq<Step>)
    ensures var s := Run(Start(start), steps);
            s.active.None? && s.phase == Idle ==> s.disk == CommittedOnly(start, s.log, s.log)
  {
    RunKeepsInv(start, steps);
  }

  /** Crash safety, exactly: the process dies after any steps of any run, and every page of the
      database is replayed to what the committed transactions left there if and only if the
      surviving log is recoverable at that page. */
  lemma CrashSafety(start: Disk, steps: seq<Step>, p: nat)
    requires p in start
    ensures var s := Run(Start(start), steps);
            && p in Replay(s.disk, s.log) && p in CommittedOnly(start, s.log, s.log)
            && (Replay(s.disk, s.log)[p] == CommittedOnly(start, s.log, s.log)[p] <==> Recoverable(s.log, p))
  {
    var s := Run(Start(start), steps);
    RunKeepsInv(start, steps);
    hide Run, Next, Serial, FirstOn, Replay, CommittedOnly, Recoverable;
    ReplayExact(start, s.disk, s.log, p);
  }

  lemma {:induction false} SamePages(start: Disk, log: Log, full: Log)
    requires forall e <- log :: e.Write? ==> e.pid in start
    ensures CommittedOnly(start, log, full).Keys == start.Keys
  {
    if log != [] {
      SamePages(start, log[..|log| - 1], full);
      assert log[|log| - 1] in log;
    }
  }

  lemma {:induction false} ImagesArePages(log: Log, ks: seq<Key>, pages: set<nat>)
    requires forall k <- ks :: k in Touches(log) && k.1 in pages
    ensures RedoImages(log, ks).Keys <= pages && UndoImages(log, ks).Keys <= pages
  {
    if ks != [] {
      ImagesArePages(log, ks[..|ks| - 1], pages);
      assert ks[|ks| - 1] in ks;
      hide Touches, LastTouch, Wins;
    }
  }

  /** Two disciplines a caller can keep make the whole database recoverable: use explicit
      transactions, and let those that do not commit touch each page at most once. */
  lemma DisciplinedRunsRecover(start: Disk, steps: seq<Step>)
    requires var s := Run(Start(start), steps); ExplicitOnly(s.log) && LosersTouchOnce(s.log)
    ensures var s := Run(Start(start), steps);
            Replay(s.disk, s.log) == CommittedOnly(start, s.log, s.log)
  {
    var s := Run(Start(start), steps);
    RunKeepsInv(start, steps);
    hide Run, Next, Online, Ids, Serial;
    SamePages(start, s.log, s.log);
    forall k | k in Touches(s.log) ensures k.1 in start.Keys {
      assert LastTouch(s.log, k) in s.log;
    }
    ImagesArePages(s.log, Touches(s.log), start.Keys);
    assert Replay(s.disk, s.log).Keys == start.Keys;
    forall p | p in start
      ensures Replay(s.disk, s.log)[p] == CommittedOnly(start, s.log, s.log)[p]
    {
      DisciplinedIsRecoverable(s.log, p);
      CrashSafety(start, steps, p);
    }
  }

  // ----- and what happens without them

  lemma LogSnoc(log: Log, e: Entry, full: Log, p: nat)
    ensures LastWin(log + [e], full, p) == if WritesTo(e, p) && Wins(full, e.tx) then Some(e) else LastWin(log, full, p)
    ensures LastExplicit(log + [e], full, p) ==
              if WritesTo(e, p) && e.tx != 0 && Wins(full, e.tx) then Some(e) else LastExplicit(log, full, p)
    ensures Interrupted(log + [e], full, p) <==>
              || Interrupted(log, full, p)
              || (WritesTo(e, p) && e.tx != 0 && Wins(full, e.tx) && (0, p) in Touches(log))
    ensures forall k :: k in Touches(log + [e]) <==> k in Touches(log) || (e.Write? && k == (e.tx, e.pid))
  {
    assert (log + [e])[..|log|] == log;
  }

  lemma RunSnoc(s: Sys, steps: seq<Step>, step: Step)
    ensures Run(s, steps + [step]) == Next(Run(s, steps), step)
  {
    assert (steps + [step])[..|steps|] == steps;
  }

  /** In any run, an open transaction writes a page nobody had touched, and writes it again. If the
      process dies then, replay brings back its first write instead of the page's old content. */
  lemma TouchedTwiceIsNotUndone(start: Disk, steps: seq<Step>, p: nat, b: Page, c: Page)
    requires var s := Run(Start(start), steps);
             s.active.Some? && s.phase == Idle && p in start && FirstOn(s.log, p).None?
    ensures var s := Run(Start(start), steps + [DoLog(p, b)] + [DoWrite] + [DoLog(p, c)]);
            && p in Replay(s.disk, s.log) && Replay(s.disk, s.log)[p] == b
            && p in CommittedOnly(start, s.log, s.log) && CommittedOnly(start, s.log, s.log)[p] == start[p]
  {
    var s0 := Run(Start(start), steps);
    var s := Run(Start(start), steps + [DoLog(p, b)] + [DoWrite] + [DoLog(p, c)]);
    RunSnoc(Start(start), steps, DoLog(p, b));
    RunSnoc(Start(start), steps + [DoLog(p, b)], DoWrite);
    RunSnoc(Start(start), steps + [DoLog(p, b)] + [DoWrite], DoLog(p, c));
    RunKeepsInv(start, steps);
    RunKeepsInv(start, steps + [DoLog(p, b)] + [DoWrite] + [DoLog(p, c)]);
    var t := s0.active.value;
    assert s.log == s0.log + [Write(t, p, start[p], b)] + [Write(t, p, b, c)] && p in s.disk;
    hide Run, Next, Online, FirstImages, Serial;
    TwiceLog(s0.log, t, p, start[p], b, c);
    ReplayAt(s.disk, s.log, p);
    CommittedOnlyAt(start, s.log, s.log, p);
  }

  lemma TwiceLog(log: Log, t: nat, p: nat, a: Page, b: Page, c: Page)
    requires t != 0 && StatusOf(log, t) == Unknown && FirstOn(log, p).None?
    ensures var e, f := Write(t, p, a, b), Write(t, p, b, c);
            var full := log + [e] + [f];
            && LastWin(full, full, p) == None
            && FirstOn(full, p) == Some(e)
            && (t, p) in Touches(full) && LastTouch(full, (t, p)) == f
  {
    var e, f := Write(t, p, a, b), Write(t, p, b, c);
    var full := log + [e] + [f];
    StatusStep(log, e);
    StatusStep(log + [e], f);
    LogSnoc(log, e, full, p);
    LogSnoc(log + [e], f, full, p);
    FirstOnStep(log, e, p);
    FirstOnStep(log + [e], f, p);
    UntouchedHasNoWinner(log, p);
    TouchStep(log + [e], f);
    hide LastWin, FirstOn, Touches, StatusOf, LastTouch;
  }

  /** In any run, between transactions: autocommit writes a page, a transaction writes it and
      commits, autocommit writes it again. Replay brings back the transaction's image. */
  lemma ResumedAutocommitIsLost(start: Disk, steps: seq<Step>, p: nat, b: Page, c: Page, d: Page)
    requires var s := Run(Start(start), steps); s.active.None? && s.phase == Idle && p in start
    ensures var s := Run(Start(start), steps + [DoLog(p, b)] + [DoWrite] + [DoBegin] + [DoLog(p, c)] + [DoWrite]
                                             + [DoCommit] + [DoLog(p, d)] + [DoWrite]);
            && p in Replay(s.disk, s.log) && Replay(s.disk, s.log)[p] == c
            && p in CommittedOnly(start, s.log, s.log) && CommittedOnly(start, s.log, s.log)[p] == d
  {
    var s0 := Run(Start(start), steps);
    assert p in s0.disk by { RunKeepsInv(start, steps); }
    ResumedRun(start, steps, p, b, c, d);
    var steps' := steps + [DoLog(p, b)] + [DoWrite] + [DoBegin] + [DoLog(p, c)] + [DoWrite]
                        + [DoCommit] + [DoLog(p, d)] + [DoWrite];
    var s := Run(Start(start), steps');
    RunKeepsInv(start, steps);
    RunKeepsInv(start, steps');
    hide Run, Next, Online, Serial, FirstOn, Replay, CommittedOnly, LastWin, LastExplicit, Interrupted;
    ResumedLog(s0.log, s0.disk[p], s0.nextTx, p, b, c, d);
    ReplayAt(s.disk, s.log, p);
    CommittedOnlyAt(start, s.log, s.log, p);
  }

  lemma ResumedRun(start: Disk, steps: seq<Step>, p: nat, b: Page, c: Page, d: Page)
    requires var s := Run(Start(start), steps); s.active.None? && s.phase == Idle && p in s.disk
    ensures var s0 := Run(Start(start), steps);
            var s := Run(Start(start), steps + [DoLog(p, b)] + [DoWrite] + [DoBegin] + [DoLog(p, c)] + [DoWrite]
                                             + [DoCommit] + [DoLog(p, d)] + [DoWrite]);
            s.log == s0.log + [Write(0, p, s0.disk[p], b)] + [Begin(s0.nextTx)] + [Write(s0.nextTx, p, b, c)]
                            + [Commit(s0.nextTx)] + [Write(0, p, c, d)]
  {
    hide Run;
    var s0 := Run(Start(start), steps);
    var st1 := steps + [DoLog(p, b)] + [DoWrite];
    var st3 := st1 + [DoBegin] + [DoLog(p, c)] + [DoWrite];
    RunWrite(start, steps, p, b);
    RunSnoc(Start(start), st1, DoBegin);
    RunWrite(start, st1 + [DoBegin], p, c);
    RunSnoc(Start(start), st3, DoCommit);
    RunWrite(start, st3 + [DoCommit], p, d);
  }

  lemma RunWrite(start: Disk, steps: seq<Step>, p: nat, a: Page)
    requires var s := Run(Start(start), steps); s.phase == Idle && p in s.disk
    ensures var s := Run(Start(start), steps);
            var tx := match s.active case Some(t) => t case None => 0;
            Run(Start(start), steps + [DoLog(p, a)] + [DoWrite]) ==
              s.(disk := s.disk[p := a], log := s.log + [Write(tx, p, s.disk[p], a)], touched := s.touched
                 + [(p, s.disk[p])])
  {
    RunSnoc(Start(start), steps, DoLog(p, a));
    RunSnoc(Start(start), steps + [DoLog(p, a)], DoWrite);
    hide Run;
  }

  lemma ResumedLog(log: Log, a: Page, t: nat, p: nat, b: Page, c: Page, d: Page)
    requires t != 0
    ensures var full := log + [Write(0, p, a, b)] + [Begin(t)] + [Write(t, p, b, c)] + [Commit(t)]
            + [Write(0, p, c, d)];
            && LastWin(full, full, p) == Some(Write(0, p, c, d))
            && LastExplicit(full, full, p) == Some(Write(t, p, b, c))
            && Interrupted(full, full, p)
  {
    var l1 := log + [Write(0, p, a, b)];
    var l2 := l1 + [Begin(t)];
    var l3 := l2 + [Write(t, p, b, c)];
    var l4 := l3 + [Commit(t)];
    var full := l4 + [Write(0, p, c, d)];
    StatusStep(l3, Commit(t));
    StatusStep(l4, Write(0, p, c, d));
    assert Wins(full, t);
    LogSnoc(log, Write(0, p, a, b), full, p);
    LogSnoc(l1, Begin(t), full, p);
    LogSnoc(l2, Write(t, p, b, c), full, p);
    LogSnoc(l3, Commit(t), full, p);
    LogSnoc(l4, Write(0, p, c, d), full, p);
    hide LastWin, LastExplicit, Interrupted, Touches, StatusOf;
  }

  // ----- the manager's calls are runs of these steps

  function Undos(n: nat): seq<Step> {
    seq(n, _ => DoUndo)
  }

  datatype BeginResult = Began(tx: nat) | NestedTransactionError

  class TransactionManager {
    var disk: Disk
    var log: Log
    var active: Option<nat>
    var nextTx: nat
    var touched: seq<(nat, Page)>

    ghost function Abs(): Sys
      reads this
    {
      Sys(disk, log, active, nextTx, touched, Idle)
    }

    constructor (disk: Disk)
      ensures Abs() == Start(disk)
    {
      this.disk, log, active, nextTx, touched := disk, [], None, 1, [];
    }

    method Begin() returns (r: BeginResult)
      modifies this
      ensures Abs() == Next(old(Abs()), DoBegin)
      ensures r == if old(active).Some? then NestedTransactionError else Began(old(nextTx))
    {
      if active.Some? {
        return NestedTransactionError;
      }
      r := Began(nextTx);
      log := log + [Recovery.Begin(nextTx)];
      active := Some(nextTx);
      nextTx := nextTx + 1;
      touched := [];
    }

    /** The heap's logged page write with `log_page_write` as its callback: log first, then write.
        Reading a page that does not exist raises before anything is logged. */
    method WritePageLogged(pid: nat, after: Page) returns (ok: bool)
      modifies this
      ensures ok <==> pid in old(disk)
      ensures Abs() == Run(old(Abs()), [DoLog(pid, after), DoWrite])
    {
      ghost var s := Abs();
      assert Run(s, [DoLog(pid, after), DoWrite]) == Next(Next(s, DoLog(pid, after)), DoWrite) by {
        var l := DoLog(pid, after);
        RunSnoc(s, [], l);
        RunSnoc(s, [l], DoWrite);
        assert [] + [l] == [l] && [l] + [DoWrite] == [l, DoWrite];
      }
      ok := pid in disk;
      if ok {
        var before := disk[pid];
        log := log + [Write(match active case Some(t) => t case None => 0, pid, before, after)];
        touched := touched + [(pid, before)];
        disk := disk[pid := after];
      }
    }

    method Commit(tx: nat) returns (ok: bool)
      modifies this
      ensures ok <==> old(active) == Some(tx)
      ensures Abs() == if ok then Next(old(Abs()), DoCommit) else old(Abs())
    {
      ok := active == Some(tx);
      if ok {
        log := log + [Recovery.Commit(tx)];
        touched := [];
        active := None;
      }
    }

    /** Writes the before-images back in reverse, so a page touched often gets its oldest image. */
    method Rollback(tx: nat) returns (ok: bool)
      modifies this
      ensures ok <==> old(active) == Some(tx)
      ensures ok ==> Abs() == Run(Next(old(Abs()), DoRollback), Undos(|old(touched)| + 1))
      ensures ok ==> disk == Restore(old(disk), old(touched))
      ensures !ok ==> Abs() == old(Abs())
    {
      ok := active == Some(tx);
      if !ok {
        return;
      }
      ghost var s := Next(Abs(), DoRollback);
      log := log + [Recovery.Rollback(tx)];
      var i := |touched|;
      ghost var n := i;
      assert touched[..n] == touched;
      while i > 0
        invariant 0 <= i <= n == |touched|
        invariant touched == old(touched) && active == old(active) && log == s.log && nextTx == old(nextTx)
        invariant Sys(disk, log, active, nextTx, touched[..i], Undoing) == Run(s, Undos(n - i))
        invariant Restore(disk, touched[..i]) == Restore(old(disk), old(touched))
      {
        i := i - 1;
        assert touched[..i + 1][..i] == touched[..i];
        assert Undos(n - i)[..n - i - 1] == Undos(n - i - 1);
        disk := disk[touched[i].0 := touched[i].1];
      }
      assert Undos(n + 1)[..n] == Undos(n);
      assert touched[..0] == [];
      touched := [];
      active := None;
    }
  }
}
