/** Exactly when replay restores a page: for every serial log, the image it chooses for a page,
    the image the committed transactions left there, and the condition under which they agree. */
module RecoveryExact {
  import opened Common
  import opened Recovery

  /** Once `tx` has written, nobody else writes. */
  predicate Tail(log: Log, tx: nat) {
    forall i, j :: 0 <= i < j < |log| && log[i].Write? && log[j].Write? && log[i].tx == tx ==> log[j].tx == tx
  }

  /** Explicit transactions do not interleave: each one's writes are contiguous among all writes. */
  predicate Serial(log: Log) {
    log == [] ||
    var e, rest := log[|log| - 1], log[..|log| - 1];
    Serial(rest) && (e.Write? && e.tx != 0 ==> Tail(rest, e.tx))
  }

  // ----- what the log says about one page

  function LastWin(log: Log, full: Log, p: nat): (r: Option<Entry>)
    ensures r.Some? ==> WritesTo(r.value, p) && Wins(full, r.value.tx)
  {
    if log == [] then None
    else
      var e := log[|log| - 1];
      if WritesTo(e, p) && Wins(full, e.tx) then Some(e) else LastWin(log[..|log| - 1], full, p)
  }

  /** The last winning write by an explicit transaction. */
  function LastExplicit(log: Log, full: Log, p: nat): (r: Option<Entry>)
    ensures r.Some? ==> WritesTo(r.value, p) && r.value.tx != 0 && Wins(full, r.value.tx)
  {
    if log == [] then None
    else
      var e := log[|log| - 1];
      if WritesTo(e, p) && e.tx != 0 && Wins(full, e.tx) then Some(e) else LastExplicit(log[..|log| - 1], full, p)
  }

  function FirstOn(log: Log, p: nat): (r: Option<Entry>)
    ensures r.Some? ==> WritesTo(r.value, p)
  {
    if log == [] then None
    else
      var e, r := log[|log| - 1], FirstOn(log[..|log| - 1], p);
      if r.None? && WritesTo(e, p) then Some(e) else r
  }

  /** A winning explicit transaction wrote the page after an autocommit write to it. */
  predicate Interrupted(log: Log, full: Log, p: nat) {
    log != [] &&
    var e, rest := log[|log| - 1], log[..|log| - 1];
    || Interrupted(rest, full, p)
    || (WritesTo(e, p) && e.tx != 0 && Wins(full, e.tx) && (0, p) in Touches(rest))
  }

  // ----- which touch the tables pick

  function RedoTx(full: Log, ks: seq<Key>, p: nat): Option<nat> {
    if ks == [] then None
    else
      var k := ks[|ks| - 1];
      if k.1 == p && Wins(full, k.0) then Some(k.0) else RedoTx(full, ks[..|ks| - 1], p)
  }

  function UndoTx(full: Log, ks: seq<Key>, p: nat): Option<nat> {
    if ks == [] then None
    else
      var k, r := ks[|ks| - 1], UndoTx(full, ks[..|ks| - 1], p);
      if r.None? && k.1 == p && !Wins(full, k.0) then Some(k.0) else r
  }

  lemma {:induction false} RedoPicks(log: Log, ks: seq<Key>, p: nat)
    requires forall k <- ks :: k in Touches(log)
    ensures var r := RedoTx(log, ks, p);
            && (p in RedoImages(log, ks) <==> r.Some?)
            && (r.Some? ==> (r.value, p) in ks && RedoImages(log, ks)[p] == LastTouch(log, (r.value, p)).after)
  {
    if ks != [] {
      RedoPicks(log, ks[..|ks| - 1], p);
      assert ks[|ks| - 1] in ks;
      hide Touches, LastTouch, Wins;
    }
  }

  lemma {:induction false} UndoPicks(log: Log, ks: seq<Key>, p: nat)
    requires forall k <- ks :: k in Touches(log)
    ensures var r := UndoTx(log, ks, p);
            && (p in UndoImages(log, ks) <==> r.Some?)
            && (r.Some? ==> (r.value, p) in ks && UndoImages(log, ks)[p] == LastTouch(log, (r.value, p)).before)
  {
    if ks != [] {
      UndoPicks(log, ks[..|ks| - 1], p);
      assert ks[|ks| - 1] in ks;
      hide Touches, LastTouch, Wins;
    }
  }

  // ----- a page some winner wrote

  lemma {:induction false} TailWritesLast(log: Log, full: Log, tx: nat, p: nat)
    requires Tail(log, tx) && tx != 0 && Wins(full, tx)
    requires (tx, p) in Touches(log)
    ensures LastWin(log, full, p).Some? && LastWin(log, full, p).value.tx == tx
  {
    var e, rest := log[|log| - 1], log[..|log| - 1];
    if (tx, p) in Touches(rest) {
      TailWritesLast(rest, full, tx, p);
      var w := LastTouch(rest, (tx, p));
      assert w in rest;
      assert WritesTo(e, p) ==> e.tx == tx;
    }
  }

  lemma TouchesGrow(log: Log)
    requires log != []
    ensures var e, rest := log[|log| - 1], log[..|log| - 1];
            && (forall k :: k in Touches(log) <==> k in Touches(rest) || (e.Write? && k == (e.tx, e.pid)))
            && (Touches(log) != Touches(rest) ==>
                  && e.Write? && (e.tx, e.pid) !in Touches(rest)
                  && Touches(log) == Touches(rest) + [(e.tx, e.pid)])
  {
  }

  ghost predicate ChoiceIs(log: Log, full: Log, p: nat) {
    var r, e, x := RedoTx(full, Touches(log), p), LastWin(log, full, p), LastExplicit(log, full, p);
    && (r.None? <==> e.None?)
    && (e.Some? && e.value.tx != 0 ==> r == Some(e.value.tx))
    && (r == Some(0) ==> !Interrupted(log, full, p))
    && (r.Some? && r != Some(0) ==> x.Some? && r == Some(x.value.tx))
    && (r.Some? && r != Some(0) && (0, p) in Touches(log) ==> Interrupted(log, full, p))
    && (Interrupted(log, full, p) ==> x.Some? && (0, p) in Touches(log))
    && (forall tx :: (tx, p) in Touches(log) && Wins(full, tx) ==> e.Some?)
    && (e.Some? ==> (e.value.tx, p) in Touches(log))
    && (x.Some? ==> (x.value.tx, p) in Touches(log))
  }

  lemma {:induction false} RedoChoice(log: Log, full: Log, p: nat)
    requires Serial(log)
    ensures ChoiceIs(log, full, p)
  {
    if log != [] {
      var e, rest := log[|log| - 1], log[..|log| - 1];
      RedoChoice(rest, full, p);
      hide ChoiceIs;
      if Touches(log) != Touches(rest) {
        FreshTouch(log, full, p);
      } else {
        OldTouch(log, full, p);
      }
    }
  }

  lemma FreshTouch(log: Log, full: Log, p: nat)
    requires log != [] && Serial(log) && Touches(log) != Touches(log[..|log| - 1])
    requires ChoiceIs(log[..|log| - 1], full, p)
    ensures ChoiceIs(log, full, p)
  {
    var e, rest := log[|log| - 1], log[..|log| - 1];
    hide Touches, StatusOf, Serial, RedoTx;
    TouchesGrow(log);
    FreshRedo(full, Touches(rest), (e.tx, e.pid), p);
    if WritesTo(e, p) && Wins(full, e.tx) {
      assert LastWin(log, full, p) == Some(e) && (e.tx, p) in Touches(log);
    } else {
      assert LastWin(log, full, p) == LastWin(rest, full, p);
      assert (0, p) in Touches(log) ==> (0, p) in Touches(rest);
    }
  }

  lemma FreshRedo(full: Log, ks: seq<Key>, k: Key, p: nat)
    ensures RedoTx(full, ks + [k], p) == if k.1 == p && Wins(full, k.0) then Some(k.0) else RedoTx(full, ks, p)
  {
    assert (ks + [k])[..|ks|] == ks;
  }

  lemma OldTouch(log: Log, full: Log, p: nat)
    requires log != [] && Serial(log) && Touches(log) == Touches(log[..|log| - 1])
    requires ChoiceIs(log[..|log| - 1], full, p)
    ensures ChoiceIs(log, full, p)
  {
    var e, rest := log[|log| - 1], log[..|log| - 1];
    hide Touches, StatusOf, RedoTx;
    TouchesGrow(log);
    if WritesTo(e, p) && Wins(full, e.tx) && e.tx != 0 {
      TailWritesLast(rest, full, e.tx, p);
    }
  }

  lemma {:induction false} LastTouchOfLast(log: Log, full: Log, p: nat)
    ensures var e := LastWin(log, full, p);
            e.Some? ==> (e.value.tx, p) in Touches(log) && LastTouch(log, (e.value.tx, p)) == e.value
    ensures var x := LastExplicit(log, full, p);
            x.Some? ==> (x.value.tx, p) in Touches(log) && LastTouch(log, (x.value.tx, p)) == x.value
  {
    if log != [] {
      LastTouchOfLast(log[..|log| - 1], full, p);
      TouchesGrow(log);
    }
  }

  // ----- a page no winner wrote

  lemma {:induction false} UndoChoice(log: Log, full: Log, p: nat)
    requires LastWin(log, full, p).None?
    ensures UndoTx(full, Touches(log), p) == match FirstOn(log, p) case None => None case Some(f) => Some(f.tx)
    ensures RedoTx(full, Touches(log), p).None?
    ensures FirstOn(log, p).Some? ==> (FirstOn(log, p).value.tx, p) in Touches(log)
    ensures forall tx :: (tx, p) in Touches(log) ==> FirstOn(log, p).Some?
  {
    if log != [] {
      var e, rest := log[|log| - 1], log[..|log| - 1];
      UndoChoice(rest, full, p);
      TouchesGrow(log);
      if Touches(log) != Touches(rest) {
        assert Touches(log)[..|Touches(rest)|] == Touches(rest);
      }
    }
  }

  // ----- the reference, page by page

  lemma {:induction false} CommittedOnlyAt(disk: Disk, log: Log, full: Log, p: nat)
    requires p in disk
    ensures p in CommittedOnly(disk, log, full)
    ensures CommittedOnly(disk, log, full)[p] ==
              match LastWin(log, full, p) case Some(e) => e.after case None => disk[p]
  {
    if log != [] {
      CommittedOnlyAt(disk, log[..|log| - 1], full, p);
    }
  }

  /** The condition, read off the log alone. A page that some winner wrote is recovered unless an
      autocommit write resumed after an explicit winner had taken over, and then only if both left
      the same image. A page that no winner wrote is recovered exactly when the first transaction
      to touch it logged the same before-image in its last touch as in its first. */
  predicate Recoverable(log: Log, p: nat) {
    match LastWin(log, log, p)
    case Some(e) =>
      e.tx == 0 && Interrupted(log, log, p) && LastExplicit(log, log, p).Some? ==>
        LastExplicit(log, log, p).value.after == e.after
    case None =>
      match FirstOn(log, p)
      case None => true
      case Some(f) => (f.tx, p) in Touches(log) ==> LastTouch(log, (f.tx, p)).before == f.before
  }

  /** What replay leaves on a page, in the three cases. */
  lemma ReplayAt(disk: Disk, log: Log, p: nat)
    requires Serial(log)
    requires p in disk
    ensures p in Replay(disk, log)
    ensures var e, f := LastWin(log, log, p), FirstOn(log, p);
            && (e.Some? && e.value.tx == 0 && Interrupted(log, log, p) ==>
                  && LastExplicit(log, log, p).Some?
                  && Replay(disk, log)[p] == LastExplicit(log, log, p).value.after)
            && (e.Some? && !(e.value.tx == 0 && Interrupted(log, log, p)) ==> Replay(disk, log)[p] == e.value.after)
            && (e.None? && f.Some? ==>
                  && (f.value.tx, p) in Touches(log)
                  && Replay(disk, log)[p] == LastTouch(log, (f.value.tx, p)).before)
            && (e.None? && f.None? ==> Replay(disk, log)[p] == disk[p])
  {
    var ks := Touches(log);
    RedoPicks(log, ks, p);
    UndoPicks(log, ks, p);
    RedoChoice(log, log, p);
    LastTouchOfLast(log, log, p);
    if LastWin(log, log, p).None? {
      UndoChoice(log, log, p);
    }
    hide Touches, LastTouch, RedoImages, UndoImages, RedoTx, UndoTx, Interrupted, LastWin, LastExplicit, FirstOn,
        Serial;
  }

  /** Main result about the algorithm: on a serial log whose first before-image of `p` is what the
      page held at the start, replay agrees with the committed transactions if and only if the log
      is recoverable at `p`. What the crashed disk held does not matter. */
  lemma ReplayExact(start: Disk, disk: Disk, log: Log, p: nat)
    requires Serial(log)
    requires p in start && p in disk
    requires match FirstOn(log, p) case Some(f) => f.before == start[p] case None => disk[p] == start[p]
    ensures p in Replay(disk, log) && p in CommittedOnly(start, log, log)
    ensures Replay(disk, log)[p] == CommittedOnly(start, log, log)[p] <==> Recoverable(log, p)
  {
    ReplayAt(disk, log, p);
    CommittedOnlyAt(start, log, log, p);
    UntouchedHasNoWinner(log, p);
    hide Touches, LastTouch, Interrupted, LastWin, LastExplicit, FirstOn, Serial, Replay, CommittedOnly;
  }

  lemma {:induction false} UntouchedHasNoWinner(log: Log, p: nat)
    ensures forall full :: LastWin(log, full, p).Some? ==> FirstOn(log, p).Some?
  {
    if log != [] {
      UntouchedHasNoWinner(log[..|log| - 1], p);
    }
  }

  // ----- two ways a caller can make sure of it

  /** No autocommit write. */
  predicate ExplicitOnly(log: Log) {
    forall e <- log :: e.Write? ==> e.tx != 0
  }

  /** Transactions that do not win touch each page at most once. */
  predicate LosersTouchOnce(log: Log) {
    forall i, j | 0 <= i < j < |log| && log[i].Write? && log[j].Write? ::
      log[i].tx == log[j].tx && log[i].pid == log[j].pid ==> Wins(log, log[i].tx)
  }

  lemma {:induction false} FirstIsInLog(log: Log, p: nat)
    ensures FirstOn(log, p).Some? ==> FirstOn(log, p).value in log
  {
    if log != [] {
      FirstIsInLog(log[..|log| - 1], p);
    }
  }

  lemma {:induction false} LastWinIsInLog(log: Log, full: Log, p: nat)
    ensures LastWin(log, full, p).Some? ==> LastWin(log, full, p).value in log
    ensures LastWin(log, full, p).None? ==> forall e <- log :: WritesTo(e, p) ==> !Wins(full, e.tx)
  {
    if log != [] {
      LastWinIsInLog(log[..|log| - 1], full, p);
      assert log == log[..|log| - 1] + [log[|log| - 1]];
    }
  }

  /** The same two, for one page. */
  predicate DisciplinedOn(log: Log, p: nat) {
    && (forall e <- log :: WritesTo(e, p) ==> e.tx != 0)
    && (forall i, j | 0 <= i < j < |log| && WritesTo(log[i], p) && WritesTo(log[j], p) ::
          log[i].tx == log[j].tx ==> Wins(log, log[i].tx))
  }

  lemma DisciplinedPage(log: Log, p: nat)
    requires DisciplinedOn(log, p)
    ensures Recoverable(log, p)
  {
    LastWinIsInLog(log, log, p);
    FirstIsInLog(log, p);
    if LastWin(log, log, p).None? && FirstOn(log, p).Some? {
      var f := FirstOn(log, p).value;
      if (f.tx, p) in Touches(log) {
        var l := LastTouch(log, (f.tx, p));
        var i :| 0 <= i < |log| && log[i] == f;
        var j :| 0 <= j < |log| && log[j] == l;
        assert i == j;
      }
    }
  }

  lemma DisciplinedIsRecoverable(log: Log, p: nat)
    requires ExplicitOnly(log) && LosersTouchOnce(log)
    ensures Recoverable(log, p)
  {
    hide Wins, Recoverable;
    DisciplinedPage(log, p);
  }
}
