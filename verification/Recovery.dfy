/** Crash recovery: the ANALYSIS, REDO and UNDO passes over a decoded log, and the reference they
    are measured against, the disk that the committed transactions alone would have left. */
module Recovery {
  import opened Common
  import opened Bytes

  type Page = seq<byte>
  type Disk = map<nat, Page>

  /** One log record. Transaction 0 is the autocommit marker: it needs no BEGIN and no COMMIT. */
  datatype Entry =
    | Begin(tx: nat)
    | Commit(tx: nat)
    | Rollback(tx: nat)
    | Write(tx: nat, pid: nat, before: Page, after: Page)
    | Other

  type Log = seq<Entry>

  // ----- what a log says about its transactions

  datatype Status = Unknown | Committed | RolledBack

  function StatusOf(log: Log, tx: nat): Status {
    if log == [] then Unknown
    else
      var e, rest := log[|log| - 1], log[..|log| - 1];
      if e == Commit(tx) then Committed
      else if e == Rollback(tx) then RolledBack
      else StatusOf(rest, tx)
  }

  /** The transactions whose writes count. */
  predicate Wins(log: Log, tx: nat) {
    tx == 0 || StatusOf(log, tx) == Committed
  }

  predicate WritesTo(e: Entry, pid: nat) {
    e.Write? && e.pid == pid
  }

  // ----- the reference

  /** `disk` after the writes of `log`, in order, by the transactions that win in `full`. */
  function CommittedOnly(disk: Disk, log: Log, full: Log): Disk {
    if log == [] then disk
    else
      var e, d := log[|log| - 1], CommittedOnly(disk, log[..|log| - 1], full);
      if e.Write? && Wins(full, e.tx) then d[e.pid := e.after] else d
  }

  // ----- the algorithm's tables

  type Key = (nat, nat)   // transaction, page

  /** The keys of `page_touches` in insertion order; a later touch keeps its key's position. */
  function Touches(log: Log): seq<Key> {
    if log == [] then []
    else
      var e, ks := log[|log| - 1], Touches(log[..|log| - 1]);
      if e.Write? && (e.tx, e.pid) !in ks then ks + [(e.tx, e.pid)] else ks
  }

  /** The touch that `page_touches` holds for a key: the latest one. */
  function LastTouch(log: Log, k: Key): (e: Entry)
    requires k in Touches(log)
    ensures e.Write? && e.tx == k.0 && e.pid == k.1 && e in log
  {
    var e := log[|log| - 1];
    if e.Write? && (e.tx, e.pid) == k then e else LastTouch(log[..|log| - 1], k)
  }

  /** `committed_after`: later keys overwrite earlier ones. */
  function RedoImages(log: Log, ks: seq<Key>): (m: Disk)
    requires forall k <- ks :: k in Touches(log)
  {
    if ks == [] then map[]
    else
      var k, m := ks[|ks| - 1], RedoImages(log, ks[..|ks| - 1]);
      if Wins(log, k.0) then m[k.1 := LastTouch(log, k).after] else m
  }

  /** `unknown_before`: the first key of a page stays. */
  function UndoImages(log: Log, ks: seq<Key>): (m: Disk)
    requires forall k <- ks :: k in Touches(log)
  {
    if ks == [] then map[]
    else
      var k, m := ks[|ks| - 1], UndoImages(log, ks[..|ks| - 1]);
      if Wins(log, k.0) || k.1 in m then m else m[k.1 := LastTouch(log, k).before]
  }

  /** The pages that replay writes, with the image each one gets. */
  function Images(log: Log): Disk {
    Over(UndoImages(log, Touches(log)), RedoImages(log, Touches(log)))
  }

  /** `under` with the pages of `top` written over it. */
  function Over(under: Disk, top: Disk): Disk {
    map p | p in under.Keys + top.Keys :: if p in top then top[p] else under[p]
  }

  function Replay(disk: Disk, log: Log): Disk {
    Over(disk, Images(log))
  }

  // ----- the three passes as the code runs them

  function Put<K, V>(order: seq<K>, m: map<K, V>, k: K, v: V): (seq<K>, map<K, V>) {
    (if k in m then order else order + [k], m[k := v])
  }

  /** What ANALYSIS has built after `log`. */
  ghost predicate Analysed(log: Log, order: seq<Key>, touch: map<Key, Entry>, state: map<nat, Status>) {
    && order == Touches(log)
    && (forall k :: k in touch <==> k in order)
    && (forall k :: k in touch ==> touch[k] == LastTouch(log, k))
    && (forall tx :: (if tx in state then state[tx] else Unknown) == StatusOf(log, tx))
  }

  lemma AnalyseStep(log: Log, e: Entry, order: seq<Key>, touch: map<Key, Entry>, state: map<nat, Status>)
    requires Analysed(log, order, touch, state)
    ensures var k := if e.Write? then (e.tx, e.pid) else (0, 0);
            Analysed(log + [e],
              if e.Write? then Put(order, touch, k, e).0 else order,
              if e.Write? then Put(order, touch, k, e).1 else touch,
              match e
              case Begin(tx) => if tx in state then state else state[tx := Unknown]
              case Commit(tx) => state[tx := Committed]
              case Rollback(tx) => state[tx := RolledBack]
              case _ => state)
  {
    StatusStep(log, e);
    TouchStep(log, e);
    hide StatusOf, Touches, LastTouch;
  }

  lemma StatusStep(log: Log, e: Entry)
    ensures forall tx :: StatusOf(log + [e], tx) ==
              if e == Commit(tx) then Committed else if e == Rollback(tx) then RolledBack else StatusOf(log, tx)
  {
    assert (log + [e])[..|log|] == log;
  }

  lemma TouchStep(log: Log, e: Entry)
    ensures Touches(log + [e]) ==
              if e.Write? && (e.tx, e.pid) !in Touches(log) then Touches(log) + [(e.tx, e.pid)] else Touches(log)
    ensures forall k <- Touches(log + [e]) :: LastTouch(log + [e], k) ==
              if e.Write? && (e.tx, e.pid) == k then e else LastTouch(log, k)
  {
    assert (log + [e])[..|log|] == log;
  }

  class Recoverer {
    var disk: Disk

    constructor (disk: Disk)
      ensures this.disk == disk
    {
      this.disk := disk;
    }

    /** `Recovery.replay`. The pages of each pass are written in an arbitrary order. */
    method Run(log: Log)
      modifies this
      ensures disk == Replay(old(disk), log)
    {
      var order, touch, state := Analyse(log);
      var after, before := Split(log, order, touch, state);
      WriteAll(after, after.Keys);
      WriteAll(before, before.Keys - after.Keys);
      TwoPasses(old(disk), after, before);
    }

    /** The scan of the log. */
    method Analyse(log: Log) returns (order: seq<Key>, touch: map<Key, Entry>, state: map<nat, Status>)
      ensures Analysed(log, order, touch, state)
    {
      order, touch, state := [], map[], map[];
      for i := 0 to |log|
        invariant Analysed(log[..i], order, touch, state)
      {
        var e := log[i];
        AnalyseStep(log[..i], e, order, touch, state);
        assert log[..i + 1] == log[..i] + [e];
        hide Analysed;
        match e
        case Begin(tx) => if tx !in state { state := state[tx := Unknown]; }
        case Commit(tx) => state := state[tx := Committed];
        case Rollback(tx) => state := state[tx := RolledBack];
        case Write(tx, pid, _, _) =>
          var (o, t) := Put(order, touch, (tx, pid), e);
          order, touch := o, t;
        case Other =>
      }
      assert log[..|log|] == log;
    }

    /** The loop that sorts touches into REDO and UNDO images. */
    method Split(log: Log, order: seq<Key>, touch: map<Key, Entry>, state: map<nat, Status>)
      returns (after: Disk, before: Disk)
      requires Analysed(log, order, touch, state)
      ensures after == RedoImages(log, order) && before == UndoImages(log, order)
    {
      after, before := map[], map[];
      for i := 0 to |order|
        invariant after == RedoImages(log, order[..i]) && before == UndoImages(log, order[..i])
      {
        var k := order[i];
        assert k in order;
        assert order[..i + 1][..i] == order[..i];
        var st := if k.0 in state then state[k.0] else Unknown;
        if st == Committed || k.0 == 0 {
          after := after[k.1 := touch[k].after];
        } else if k.1 !in before {
          before := before[k.1 := touch[k].before];
        }
      }
      assert order[..|order|] == order;
    }

    method WriteAll(images: Disk, pages: set<nat>)
      requires pages <= images.Keys
      modifies this
      ensures disk == Over(old(disk), Restrict(images, pages))
    {
      var left := pages;
      while left != {}
        invariant left <= pages
        invariant disk == Over(old(disk), Restrict(images, pages - left))
        decreases left
      {
        var p :| p in left;
        assert pages - (left - {p}) == pages - left + {p};
        RestrictAdd(old(disk), images, pages - left, p);
        disk := disk[p := images[p]];
        left := left - {p};
      }
      assert pages - left == pages;
    }
  }

  function Restrict(m: Disk, s: set<nat>): Disk {
    map p | p in s && p in m :: m[p]
  }

  lemma RestrictAdd(disk: Disk, m: Disk, s: set<nat>, p: nat)
    requires p in m
    ensures Over(disk, Restrict(m, s + {p})) == Over(disk, Restrict(m, s))[p := m[p]]
  {
  }

  lemma TwoPasses(disk: Disk, after: Disk, before: Disk)
    ensures Over(Over(disk, Restrict(after, after.Keys)), Restrict(before, before.Keys - after.Keys))
         == Over(disk, Over(before, after))
  {
    var first := Over(disk, Restrict(after, after.Keys));
    assert forall p :: p in first <==> p in disk || p in after;
    assert forall p :: p in first ==> first[p] == if p in after then after[p] else disk[p];
  }

  lemma OverAgain(disk: Disk, m: Disk, s: set<nat>)
    ensures Over(Over(disk, Restrict(m, s)), m) == Over(disk, m)
  {
    var first := Over(disk, Restrict(m, s));
    assert forall p :: p in first ==> p in disk || p in m;
  }

  // ----- replay can be repeated, and restarted after any of its writes

  function ApplyWrites(disk: Disk, ws: seq<(nat, Page)>): Disk {
    if ws == [] then disk else ApplyWrites(disk, ws[..|ws| - 1])[ws[|ws| - 1].0 := ws[|ws| - 1].1]
  }

  function PagesOf(ws: seq<(nat, Page)>): set<nat> {
    set w <- ws :: w.0
  }

  lemma {:induction false} ApplySome(disk: Disk, ws: seq<(nat, Page)>, images: Disk)
    requires forall w <- ws :: w.0 in images && images[w.0] == w.1
    ensures ApplyWrites(disk, ws) == Over(disk, Restrict(images, PagesOf(ws)))
  {
    if ws != [] {
      var w, rest := ws[|ws| - 1], ws[..|ws| - 1];
      assert ws == rest + [w] && w in ws;
      assert PagesOf(ws) == PagesOf(rest) + {w.0};
      ApplySome(disk, rest, images);
      RestrictAdd(disk, images, PagesOf(rest), w.0);
    }
  }

  /** For every log and every disk: stop replay after any prefix of its writes and run it again,
      and the disk is what one uninterrupted replay leaves. */
  lemma ReplayRestarts(disk: Disk, log: Log, ws: seq<(nat, Page)>, k: nat)
    requires forall w <- ws :: w.0 in Images(log) && Images(log)[w.0] == w.1
    requires k <= |ws|
    ensures Replay(ApplyWrites(disk, ws[..k]), log) == Replay(disk, log)
  {
    ApplySome(disk, ws[..k], Images(log));
    OverAgain(disk, Images(log), PagesOf(ws[..k]));
  }

  lemma ReplayTwice(disk: Disk, log: Log)
    ensures Replay(Replay(disk, log), log) == Replay(disk, log)
  {
    OverAgain(disk, Images(log), Images(log).Keys);
  }
}
