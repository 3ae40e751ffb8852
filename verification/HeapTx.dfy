/** Heap operations inside transactions: the heap's traced page writes as steps of the transaction
    manager, and what a crash leaves of the heap's table. */
module HeapTx {
  import opened Common
  import opened Bytes
  import opened Paging
  import opened Recovery
  import opened RecoveryExact
  import opened Transactions
  import HeapPage
  import Heap

  // ----- traced writes as steps

  /** Each write is logged, then done. */
  function StepsOf(ws: seq<Heap.Write>): seq<Step> {
    if ws == [] then [] else [DoLog(ws[0].pid, ws[0].after), DoWrite] + StepsOf(ws[1..])
  }

  function Logged(tx: nat, ws: seq<Heap.Write>): (log: Log)
    ensures |log| == |ws| && forall i :: 0 <= i < |ws| ==> log[i] == Write(tx, ws[i].pid, ws[i].before, ws[i].after)
  {
    seq(|ws|, i requires 0 <= i < |ws| => Write(tx, ws[i].pid, ws[i].before, ws[i].after))
  }

  function TxOf(s: Sys): nat {
    match s.active case Some(t) => t case None => 0
  }

  lemma {:induction false} RunAppend(s: Sys, a: seq<Step>, b: seq<Step>)
    ensures Run(s, a + b) == Run(Run(s, a), b)
    decreases |b|
  {
    if b == [] {
      assert a + b == a;
    } else {
      var n := |b| - 1;
      RunAppend(s, a, b[..n]);
      assert (a + b)[..|a + b| - 1] == a + b[..n];
      hide Next;
    }
  }

  lemma OneWrite(s: Sys, w: Heap.Write)
    requires s.phase == Idle && w.pid in s.disk && s.disk[w.pid] == w.before
    ensures var s' := Run(s, [DoLog(w.pid, w.after), DoWrite]);
            && s'.disk == s.disk[w.pid := w.after] && s'.log == s.log + [Write(TxOf(s), w.pid, w.before, w.after)]
            && s'.phase == Idle && s'.active == s.active && s'.nextTx == s.nextTx
  {
    var l := DoLog(w.pid, w.after);
    assert [l, DoWrite][..1] == [l] && [l][..0] == [];
    assert Run(s, [l]) == Next(Run(s, []), l);
    assert Run(s, [l, DoWrite]) == Next(Run(s, [l]), DoWrite);
  }

  /** The heap's trace is a run of the manager: the same pages, every write logged with its exact images. */
  lemma {:induction false} HeapRuns(s: Sys, pages: Heap.Pages, ws: seq<Heap.Write>, pages': Heap.Pages)
    requires s.phase == Idle && s.disk == pages && Heap.Traced(pages, ws, pages')
    ensures var s' := Run(s, StepsOf(ws));
            && s'.disk == pages' && s'.log == s.log + Logged(TxOf(s), ws)
            && s'.phase == Idle && s'.active == s.active && s'.nextTx == s.nextTx
    decreases |ws|
  {
    hide Run, Next;
    if ws == [] {
      NoSteps(s);
      assert s.log + Logged(TxOf(s), ws) == s.log;
    } else {
      var w, rest, tx := ws[0], ws[1..], TxOf(s);
      var first, x := [DoLog(w.pid, w.after), DoWrite], Write(tx, w.pid, w.before, w.after);
      OneWrite(s, w);
      RunAppend(s, first, StepsOf(rest));
      HeapRuns(Run(s, first), pages[w.pid := w.after], rest, pages');
      assert TxOf(Run(s, first)) == tx;
      LoggedCons(s.log, tx, ws);
    }
  }

  lemma NoSteps(s: Sys)
    ensures Run(s, []) == s
  {
  }

  lemma LoggedCons(log: Log, tx: nat, ws: seq<Heap.Write>)
    requires ws != []
    ensures (log + [Write(tx, ws[0].pid, ws[0].before, ws[0].after)]) + Logged(tx, ws[1..]) == log + Logged(tx, ws)
  {
    assert Logged(tx, ws) == [Write(tx, ws[0].pid, ws[0].before, ws[0].after)] + Logged(tx, ws[1..]);
  }

  // ----- the log around one transaction

  /** The log after `log`, a transaction t that made these writes, and its commit if it came to that. */
  function LogWith(log: Log, t: nat, ws: seq<Heap.Write>, done: bool): Log {
    (log + ([Begin(t)] + Logged(t, ws))) + if done then [Commit(t)] else []
  }

  predicate Settles(e: Entry, tx: nat) {
    e == Commit(tx) || e == Rollback(tx)
  }

  lemma {:induction false} StatusAppend(log: Log, ext: Log, tx: nat)
    requires forall e <- ext :: !Settles(e, tx)
    ensures StatusOf(log + ext, tx) == StatusOf(log, tx)
    decreases |ext|
  {
    if ext == [] {
      assert log + ext == log;
    } else {
      var n := |ext| - 1;
      StatusAppend(log, ext[..n], tx);
      assert (log + ext)[..|log + ext| - 1] == log + ext[..n];
      assert ext[n] in ext;
    }
  }

  /** What the rest of the log says about other transactions, and about this one. */
  lemma WinsWith(log: Log, t: nat, ws: seq<Heap.Write>, done: bool, tx: nat)
    requires tx != t
    ensures Wins(LogWith(log, t, ws, done), tx) <==> Wins(log, tx)
  {
    var a, b := [Begin(t)] + Logged(t, ws), if done then [Commit(t)] else [];
    StatusAppend(log, a, tx);
    StatusAppend(log + a, b, tx);
  }

  lemma WinsItself(log: Log, t: nat, ws: seq<Heap.Write>, done: bool)
    requires t != 0 && StatusOf(log, t) == Unknown
    ensures Wins(LogWith(log, t, ws, done), t) <==> done
  {
    var a := [Begin(t)] + Logged(t, ws);
    StatusAppend(log, a, t);
    var full := LogWith(log, t, ws, done);
    if done {
      assert full[|full| - 1] == Commit(t);
    } else {
      assert full == log + a;
    }
  }

  /** Where an entry of that log is. */
  lemma EntryOf(log: Log, t: nat, ws: seq<Heap.Write>, done: bool, i: nat)
    requires i < |LogWith(log, t, ws, done)|
    ensures var e := LogWith(log, t, ws, done)[i];
            && (i < |log| ==> e == log[i])
            && (i >= |log| && e.Write? ==> |log| < i <= |log| + |ws| && e.tx == t && e.pid == ws[i - |log| - 1].pid)
  {
  }

  lemma KeepsDiscipline(log: Log, t: nat, ws: seq<Heap.Write>, done: bool, p: nat)
    requires DisciplinedOn(log, p) && t != 0 && StatusOf(log, t) == Unknown
    requires (forall e <- log :: e.Other? || e.tx < t) && (done || Heap.OnceOn(ws, p))
    ensures DisciplinedOn(LogWith(log, t, ws, done), p)
  {
    var full := LogWith(log, t, ws, done);
    WinsItself(log, t, ws, done);
    hide LogWith, StatusOf, Wins;
    forall e | e in full && WritesTo(e, p) ensures e.tx != 0 {
      var i :| 0 <= i < |full| && full[i] == e;
      EntryOf(log, t, ws, done, i);
      assert i < |log| ==> log[i] in log;
    }
    forall i, j | 0 <= i < j < |full| && WritesTo(full[i], p) && WritesTo(full[j], p) && full[i].tx == full[j].tx
      ensures Wins(full, full[i].tx)
    {
      EntryOf(log, t, ws, done, i);
      EntryOf(log, t, ws, done, j);
      assert i < |log| ==> log[i] in log;
      if j < |log| {
        WinsWith(log, t, ws, done, log[i].tx);
      }
    }
  }

  /** An open transaction's writes do not count. */
  lemma {:induction false} LoserAdds(disk: Disk, log: Log, ext: Log, full: Log)
    requires forall e <- ext :: e.Write? ==> !Wins(full, e.tx)
    ensures CommittedOnly(disk, log + ext, full) == CommittedOnly(disk, log, full)
    decreases |ext|
  {
    if ext == [] {
      assert log + ext == log;
    } else {
      var n := |ext| - 1;
      LoserAdds(disk, log, ext[..n], full);
      assert (log + ext)[..|log + ext| - 1] == log + ext[..n];
      assert ext[n] in ext;
    }
  }

  lemma OpenCounts(disk: Disk, log: Log, t: nat, ws: seq<Heap.Write>)
    requires t != 0 && StatusOf(log, t) == Unknown && forall e <- log :: e.Other? || e.tx < t
    ensures var full := LogWith(log, t, ws, false); CommittedOnly(disk, full, full) == CommittedOnly(disk, log, log)
  {
    var full, ext := LogWith(log, t, ws, false), [Begin(t)] + Logged(t, ws);
    assert full == log + ext;
    WinsItself(log, t, ws, false);
    LoserAdds(disk, log, ext, full);
    forall e | e in log && e.Write? ensures Wins(full, e.tx) <==> Wins(log, e.tx) {
      WinsWith(log, t, ws, false, e.tx);
    }
    hide Wins, LogWith;
    CommittedOnlyCong(disk, log, full, log);
  }

  // ----- the runs

  /** The manager's steps for one heap operation in its own transaction, committed or not. */
  function Around(ws: seq<Heap.Write>, done: bool): seq<Step> {
    ([DoBegin] + StepsOf(ws)) + if done then [DoCommit] else []
  }

  /** Between transactions, with the heap's pages on the disk. */
  ghost predicate Ready(start: Disk, steps: seq<Step>, pages: Heap.Pages) {
    var s := Run(Start(start), steps);
    s.active.None? && s.phase == Idle && s.disk == pages
  }

  lemma AroundRuns(start: Disk, steps: seq<Step>, pages: Heap.Pages, ws: seq<Heap.Write>, pages': Heap.Pages,
                   done: bool)
    requires Ready(start, steps, pages) && Heap.Traced(pages, ws, pages')
    ensures var s, s' := Run(Start(start), steps), Run(Start(start), steps + Around(ws, done));
            && s'.disk == pages' && s'.log == LogWith(s.log, s.nextTx, ws, done) && s'.phase == Idle
            && s'.active == if done then None else Some(s.nextTx)
  {
    hide Run, Heap.Traced;
    var s, last := Run(Start(start), steps), if done then [DoCommit] else [];
    var s1 := Next(s, DoBegin);
    hide Next;
    Began(s);
    HeapRuns(s1, pages, ws, pages');
    var s2 := Run(s1, StepsOf(ws));
    RunAppend(Start(start), steps, Around(ws, done));
    RunAppend(s, [DoBegin] + StepsOf(ws), last);
    Opening(s, ws);
    Closing(s2, done);
    Ended(s2);
    assert (s.log + [Begin(s.nextTx)]) + Logged(s.nextTx, ws) == s.log + ([Begin(s.nextTx)] + Logged(s.nextTx, ws));
    assert s2.log + [] == s2.log;
  }

  lemma Began(s: Sys)
    requires s.active.None? && s.phase == Idle
    ensures var s' := Next(s, DoBegin);
            s'.disk == s.disk && s'.log == s.log + [Begin(s.nextTx)] && s'.active == Some(s.nextTx) && s'.phase == Idle
  {
  }

  lemma Ended(s: Sys)
    requires s.active.Some? && s.phase == Idle
    ensures var s' := Next(s, DoCommit);
            s'.disk == s.disk && s'.log == s.log + [Commit(s.active.value)] && s'.active == None && s'.phase == Idle
  {
  }

  lemma Opening(s: Sys, ws: seq<Heap.Write>)
    ensures Run(s, [DoBegin] + StepsOf(ws)) == Run(Next(s, DoBegin), StepsOf(ws))
  {
    RunAppend(s, [DoBegin], StepsOf(ws));
    assert [DoBegin][..0] == [];
    assert Run(s, [DoBegin]) == Next(Run(s, []), DoBegin);
  }

  lemma Closing(s: Sys, done: bool)
    ensures Run(s, if done then [DoCommit] else []) == if done then Next(s, DoCommit) else s
  {
    assert [DoCommit][..0] == [];
    assert Run(s, [DoCommit]) == Next(Run(s, []), DoCommit);
  }

  lemma FreshId(start: Disk, steps: seq<Step>)
    ensures var s := Run(Start(start), steps);
            && s.nextTx != 0 && StatusOf(s.log, s.nextTx) == Unknown && forall e <- s.log :: e.Other? || e.tx < s.nextTx
  {
    var s := Run(Start(start), steps);
    RunKeepsInv(start, steps);
    hide Run, Online, FirstImages, Serial;
    NeverNamed(s.log, s.nextTx);
  }

  lemma {:induction false} NeverNamed(log: Log, t: nat)
    requires forall e <- log :: e.Other? || e.tx < t
    ensures StatusOf(log, t) == Unknown
    decreases |log|
  {
    if log != [] {
      assert log[|log| - 1] in log;
      NeverNamed(log[..|log| - 1], t);
    }
  }

  /** A heap operation in a committed transaction survives a crash: replay leaves each page as the operation
      left it, if the page was disciplined before. */
  lemma CommittedSurvives(start: Disk, steps: seq<Step>, pages: Heap.Pages, ws: seq<Heap.Write>, pages': Heap.Pages,
                          p: nat)
    requires Ready(start, steps, pages) && Heap.Traced(pages, ws, pages') && p in pages'
    requires DisciplinedOn(Run(Start(start), steps).log, p)
    ensures var s := Run(Start(start), steps + Around(ws, true));
            p in Replay(s.disk, s.log) && Replay(s.disk, s.log)[p] == pages'[p]
  {
    var s, steps' := Run(Start(start), steps), steps + Around(ws, true);
    AroundRuns(start, steps, pages, ws, pages', true);
    FreshId(start, steps);
    OnStart(start, steps', p);
    hide Run, Heap.Traced, StatusOf, LogWith, DisciplinedOn, Recoverable;
    KeepsDiscipline(s.log, s.nextTx, ws, true, p);
    DisciplinedPage(Run(Start(start), steps').log, p);
    CrashSafety(start, steps', p);
    RunningProcessIsAtomic(start, steps');
  }

  lemma OnStart(start: Disk, steps: seq<Step>, p: nat)
    ensures p in Run(Start(start), steps).disk <==> p in start
  {
    RunKeepsInv(start, steps);
  }

  /** The steps up to a crash after k writes of an open transaction, the next one perhaps only logged. */
  function Partly(ws: seq<Heap.Write>, k: nat, half: bool): seq<Step>
    requires if half then k < |ws| else k <= |ws|
  {
    Around(ws[..k], false) + if half then [DoLog(ws[k].pid, ws[k].after)] else []
  }

  /** The process dies there. A page that the operation writes at most once is as it was before. */
  lemma OpenIsUndone(start: Disk, steps: seq<Step>, pages: Heap.Pages, ws: seq<Heap.Write>, pages': Heap.Pages, k: nat,
                     half: bool, p: nat)
    requires Ready(start, steps, pages) && Heap.Traced(pages, ws, pages') && p in pages && Heap.OnceOn(ws, p)
    requires DisciplinedOn(Run(Start(start), steps).log, p) && if half then k < |ws| else k <= |ws|
    ensures var s := Run(Start(start), steps + Partly(ws, k, half));
            p in Replay(s.disk, s.log) && Replay(s.disk, s.log)[p] == pages[p]
  {
    var s, ws', steps' := Run(Start(start), steps), ws[..if half then k + 1 else k], steps + Partly(ws, k, half);
    PartRuns(start, steps, pages, ws, pages', k, half);
    FreshId(start, steps);
    OnceFront(ws, |ws'|, p);
    OnStart(start, steps, p);
    hide Run, Heap.Traced, StatusOf, DisciplinedOn, LogWith, Recoverable, Partly;
    KeepsDiscipline(s.log, s.nextTx, ws', false, p);
    DisciplinedPage(Run(Start(start), steps').log, p);
    CrashSafety(start, steps', p);
    OpenCounts(start, s.log, s.nextTx, ws');
    RunningProcessIsAtomic(start, steps);
  }

  lemma OnceFront(ws: seq<Heap.Write>, k: nat, p: nat)
    requires Heap.OnceOn(ws, p) && k <= |ws|
    ensures Heap.OnceOn(ws[..k], p)
  {
  }

  lemma {:induction false} TracedFront(pages: Heap.Pages, ws: seq<Heap.Write>, pages': Heap.Pages, k: nat)
    returns (mid: Heap.Pages)
    requires Heap.Traced(pages, ws, pages') && k <= |ws|
    ensures Heap.Traced(pages, ws[..k], mid)
    ensures k < |ws| ==> ws[k].pid in mid && mid[ws[k].pid] == ws[k].before
    decreases k
  {
    if k == 0 {
      mid := pages;
    } else {
      mid := TracedFront(pages[ws[0].pid := ws[0].after], ws[1..], pages', k - 1);
      assert ws[..k][1..] == ws[1..][..k - 1];
    }
  }

  lemma PartRuns(start: Disk, steps: seq<Step>, pages: Heap.Pages, ws: seq<Heap.Write>, pages': Heap.Pages, k: nat,
                 half: bool)
    requires Ready(start, steps, pages) && Heap.Traced(pages, ws, pages')
    requires if half then k < |ws| else k <= |ws|
    ensures var s, s' := Run(Start(start), steps), Run(Start(start), steps + Partly(ws, k, half));
            s'.log == LogWith(s.log, s.nextTx, ws[..if half then k + 1 else k], false)
  {
    var s := Run(Start(start), steps);
    var mid := TracedFront(pages, ws, pages', k);
    AroundRuns(start, steps, pages, ws[..k], mid, false);
    var to := steps + Around(ws[..k], false);
    if half {
      assert steps + Partly(ws, k, true) == to + [DoLog(ws[k].pid, ws[k].after)];
      RunSnoc(Start(start), to, DoLog(ws[k].pid, ws[k].after));
      hide Run, Heap.Traced;
      LogOneMore(s.log, s.nextTx, ws, k);
    } else {
      assert steps + Partly(ws, k, false) == to;
    }
  }

  lemma LogOneMore(log: Log, t: nat, ws: seq<Heap.Write>, k: nat)
    requires k < |ws|
    ensures LogWith(log, t, ws[..k], false) + [Write(t, ws[k].pid, ws[k].before, ws[k].after)]
            == LogWith(log, t, ws[..k + 1], false)
  {
    assert Logged(t, ws[..k + 1]) == Logged(t, ws[..k]) + [Write(t, ws[k].pid, ws[k].before, ws[k].after)];
  }

  /** Without that, replay takes back only the last: in any run, an open transaction puts two records on a
      page nobody had touched, and the process dies. Replay leaves the first record on the page. */
  lemma FirstRecordStays(start: Disk, steps: seq<Step>, p: nat, a: seq<byte>, b: seq<byte>)
    requires var s := Run(Start(start), steps);
             && s.active.Some? && s.phase == Idle && p in start && p in s.disk && FirstOn(s.log, p).None?
             && |s.disk[p]| == PAGE_SIZE && HeapPage.PageOk(s.disk[p])
             && HeapPage.SLOT_SIZE + |a| <= HeapPage.FreeBytes(s.disk[p])
             && HeapPage.SlotOffset(HeapPage.SlotCount(s.disk[p])) >= 0
             && HeapPage.DataEnd(s.disk[p]) + |a| <= PAGE_SIZE
    requires var q := HeapPage.Put(Run(Start(start), steps).disk[p], a);
             HeapPage.SlotOffset(HeapPage.SlotCount(q)) >= 0 && HeapPage.DataEnd(q) + |b| <= PAGE_SIZE
    ensures var page: Paging.Page := Run(Start(start), steps).disk[p];
            var q: Paging.Page := HeapPage.Put(page, a);
            var s := Run(Start(start), steps + [DoLog(p, q)] + [DoWrite] + [DoLog(p, HeapPage.Put(q, b))]);
            && p in Replay(s.disk, s.log) && Replay(s.disk, s.log)[p] == q
            && HeapPage.Record(q, HeapPage.SlotCount(page)) == HeapPage.Used(a)
            && p in CommittedOnly(start, s.log, s.log) && CommittedOnly(start, s.log, s.log)[p] == start[p]
  {
    var page: Paging.Page := Run(Start(start), steps).disk[p];
    var q: Paging.Page := HeapPage.Put(page, a);
    HeapPage.PutOk(page, a);
    hide Run, HeapPage.Put, HeapPage.PageOk, Replay, CommittedOnly;
    TouchedTwiceIsNotUndone(start, steps, p, q, HeapPage.Put(q, b));
  }

  // ----- an insertion

  lemma {:induction false} TracedBeside(pages: Heap.Pages, ws: seq<Heap.Write>, pages': Heap.Pages, n: nat,
                                        z: Paging.Page)
    requires Heap.Traced(pages, ws, pages') && forall w <- ws :: w.pid != n
    ensures Heap.Traced(pages[n := z], ws, pages'[n := z])
    decreases |ws|
  {
    if ws != [] {
      var w := ws[0];
      TracedBeside(pages[w.pid := w.after], ws[1..], pages', n, z);
      assert w in ws;
      assert pages[n := z][w.pid := w.after] == pages[w.pid := w.after][n := z];
    }
  }

  /** After a crash, the pages stand for this table. */
  ghost predicate Recovers(s: Sys, head: nat, chain: seq<nat>, table: Heap.Table) {
    exists pages: Heap.Pages ::
      && (forall c | c in chain :: c in Replay(s.disk, s.log) && c in pages && Replay(s.disk, s.log)[c] == pages[c])
      && Heap.ChainOn(pages, head, chain) && Heap.TableOn(pages, chain, table)
  }

  lemma Committed(start: Disk, steps: seq<Step>, base: Heap.Pages, ws: seq<Heap.Write>, after: Heap.Pages,
                  head: nat, chain: seq<nat>, table: Heap.Table)
    requires Ready(start, steps, base) && Heap.Traced(base, ws, after)
    requires forall p | p in chain :: DisciplinedOn(Run(Start(start), steps).log, p)
    requires Heap.ChainOn(after, head, chain) && Heap.TableOn(after, chain, table)
    ensures Recovers(Run(Start(start), steps + Around(ws, true)), head, chain, table)
  {
    Heap.ChainPages(after, head, chain);
    hide Run, Around, Heap.Traced, Heap.ChainOn, Heap.TableOn, DisciplinedOn, Ready, Replay;
    forall c | c in chain
      ensures var s := Run(Start(start), steps + Around(ws, true));
              c in Replay(s.disk, s.log)
              && Replay(s.disk, s.log)[c] == after[c]
    {
      CommittedSurvives(start, steps, base, ws, after, c);
    }
  }

  lemma Undone(start: Disk, steps: seq<Step>, base: Heap.Pages, ws: seq<Heap.Write>, after: Heap.Pages, k: nat,
               half: bool,
               head: nat, chain: seq<nat>, table: Heap.Table)
    requires Ready(start, steps, base) && Heap.Traced(base, ws, after) && if half then k < |ws| else k <= |ws|
    requires forall p | p in chain :: DisciplinedOn(Run(Start(start), steps).log, p) && Heap.OnceOn(ws, p)
    requires Heap.ChainOn(base, head, chain) && Heap.TableOn(base, chain, table)
    ensures Recovers(Run(Start(start), steps + Partly(ws, k, half)), head, chain, table)
  {
    Heap.ChainPages(base, head, chain);
    hide Run, Partly, Heap.Traced, Heap.ChainOn, Heap.TableOn, DisciplinedOn, Ready, Replay, Heap.OnceOn;
    forall c | c in chain
      ensures var s := Run(Start(start), steps + Partly(ws, k, half));
              c in Replay(s.disk, s.log)
              && Replay(s.disk, s.log)[c] == base[c]
    {
      OpenIsUndone(start, steps, base, ws, after, k, half, c);
    }
  }

  /** With the zeroed page on the disk from the start, taking it is no step of its own. */
  lemma Settled(pages: Heap.Pages, n: nat, z: Paging.Page, ws: seq<Heap.Write>, pages': Heap.Pages, grown: bool,
                head: nat, chain: seq<nat>, table: Heap.Table) returns (after: Heap.Pages)
    requires Heap.Traced(if grown then pages[n := z] else pages, ws, pages')
    requires Heap.ChainOn(pages', head, chain) && Heap.TableOn(pages', chain, table)
    requires !grown ==> n !in chain && forall w <- ws :: w.pid in chain
    ensures Heap.Traced(pages[n := z], ws, after)
    ensures Heap.ChainOn(after, head, chain) && Heap.TableOn(after, chain, table)
  {
    hide Heap.Traced, Heap.ChainOn, Heap.TableOn;
    if grown {
      after := pages';
    } else {
      after := pages'[n := z];
      TracedBeside(pages, ws, pages', n, z);
      Heap.OtherPage(pages', head, chain, table, n, z);
    }
  }

  /** What an insertion reports about itself is enough for both. */
  lemma InsertRecovers(start: Disk, steps: seq<Step>, pages: Heap.Pages, n: nat, z: Paging.Page, ws: seq<Heap.Write>,
                       pages': Heap.Pages,
                       grown: bool, head: nat, chain: seq<nat>, table: Heap.Table, table': Heap.Table)
    requires Heap.ChainOn(pages, head, chain) && Heap.TableOn(pages, chain, table) && forall p | p in pages :: p < n
    requires Ready(start, steps, pages[n := z])
    requires forall p | p in chain || p == n :: DisciplinedOn(Run(Start(start), steps).log, p)
    requires Heap.Traced(if grown then pages[n := z] else pages, ws, pages')
    requires var chain' := if grown then chain + [n] else chain;
             && Heap.ChainOn(pages', head, chain') && Heap.TableOn(pages', chain', table')
             && (forall w <- ws :: w.pid in chain') && (forall c | c in chain :: Heap.OnceOn(ws, c))
    ensures var chain' := if grown then chain + [n] else chain;
            Recovers(Run(Start(start), steps + Around(ws, true)), head, chain', table')
    ensures forall k: nat, half | if half then k < |ws| else k <= |ws| ::
              Recovers(Run(Start(start), steps + Partly(ws, k, half)), head, chain, table)
  {
    hide Run, Around, Partly, Heap.Traced, Heap.ChainOn, Heap.TableOn, DisciplinedOn, Ready, Heap.OnceOn, Recovers;
    var chain' := if grown then chain + [n] else chain;
    Heap.ChainBelow(pages, head, chain, n);
    Heap.OtherPage(pages, head, chain, table, n, z);
    var base: Heap.Pages := pages[n := z];
    var after := Settled(pages, n, z, ws, pages', grown, head, chain', table');
    Committed(start, steps, base, ws, after, head, chain', table');
    forall k: nat, half | if half then k < |ws| else k <= |ws|
      ensures Recovers(Run(Start(start), steps + Partly(ws, k, half)), head, chain, table)
    {
      Undone(start, steps, base, ws, after, k, half, head, chain, table);
    }
  }

  /** A record inserted in a transaction of its own. Once the transaction has committed, a crash leaves the
      table with the record; at any moment before, it leaves the table without it. The disk already has the
      zeroed page that the insertion may take. */
  method InsertInTransaction(heap: Heap.HeapFile, e: seq<byte>, ghost start: Disk, ghost steps: seq<Step>)
    returns (r: Rid, ghost ws: seq<Heap.Write>)
    requires heap.Valid() && heap.numPages < HeapPage.NO_NEXT && |e| <= Heap.MAX_RECORD
    requires Ready(start, steps, heap.pages[heap.numPages := Zeros(PAGE_SIZE)])
    requires forall p | p in heap.chain || p == heap.numPages :: DisciplinedOn(Run(Start(start), steps).log, p)
    modifies heap
    ensures heap.Valid() && r !in old(heap.table) && heap.table == old(heap.table)[r := HeapPage.Used(e)]
    ensures Recovers(Run(Start(start), steps + Around(ws, true)), heap.headPid, heap.chain, heap.table)
    ensures forall k: nat, half | if half then k < |ws| else k <= |ws| ::
              Recovers(Run(Start(start), steps + Partly(ws, k, half)), old(heap.headPid), old(heap.chain),
                       old(heap.table))
  {
    hide Run, Around, Partly, Heap.Traced, Heap.ChainOn, Heap.TableOn, DisciplinedOn, Ready, Heap.OnceOn, Recovers,
        Zeros;
    ghost var pages0, chain0, table0, n := heap.pages, heap.chain, heap.table, heap.numPages;
    var o;
    ghost var grown;
    o, ws, grown := heap.Insert(e);
    r := o.value;
    InsertRecovers(start, steps, pages0, n, Zeros(PAGE_SIZE), ws, heap.pages, grown, heap.headPid, chain0, table0,
                   heap.table);
  }
}
