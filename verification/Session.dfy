/** Server sessions sharing one transaction manager on the server's single thread. */
module Session {
  import opened Common

  /** A decoded frame, as far as the session distinguishes it. `Sql` is any statement that is not one of
      the three transaction words. */
  datatype Message = Ping | Hello(wellFormed: bool) | Quit | Begin | Commit | Rollback | Sql | Unhandled

  /** `Raised` ends the connection. */
  datatype Reply = Pong | Err | Ok | Done | ResultError | Result | Raised

  datatype Session = Session(shaken: bool, tx: Option<nat>)

  /** The manager's side: the active transaction, the next id, and how often the server's thread holds
      the reentrant write lock. */
  datatype Manager = Manager(active: Option<nat>, next: nat, depth: nat)

  /** A session that holds a transaction holds the active one, and no other session does; the active one
      is some session's; the write lock is held exactly once for it. */
  ghost predicate Inv(sessions: map<nat, Session>, m: Manager) {
    && (forall s | s in sessions && sessions[s].tx.Some? :: sessions[s].shaken && sessions[s].tx == m.active)
    && (forall s, t | s in sessions && t in sessions && sessions[s].tx.Some? && sessions[t].tx.Some? :: s == t)
    && (m.active.Some? ==> m.active.value < m.next && exists s :: Holds(sessions, s))
    && m.depth == if m.active.Some? then 1 else 0
  }

  predicate Holds(sessions: map<nat, Session>, s: nat) {
    s in sessions && sessions[s].tx.Some?
  }

  // ----- the same as a machine, for whole runs

  datatype State = State(sessions: map<nat, Session>, m: Manager)

  /** What reaches the server. */
  datatype Event = Joined(s: nat) | Sent(s: nat, msg: Message) | Left(s: nat)

  /** What it does to transactions. */
  datatype Outcome = Granted(s: nat, id: nat) | Ended(s: nat, id: nat) | Neither

  predicate Possible(st: State, e: Event) {
    e.s in st.sessions <==> !e.Joined?
  }

  predicate EndsOwn(st: State, e: Event)
    requires Possible(st, e)
  {
    && !e.Joined? && st.sessions[e.s].tx.Some?
    && (e.Left? || (st.sessions[e.s].shaken && e.msg in {Commit, Rollback, Quit}))
  }

  predicate Begins(st: State, e: Event)
    requires Possible(st, e)
  {
    e.Sent? && e.msg == Begin && st.sessions[e.s].shaken && st.m.active.None?
  }

  function Step(st: State, e: Event): State
    requires Possible(st, e)
  {
    var m := if Begins(st, e) then Manager(Some(st.m.next), st.m.next + 1, 1)
             else if EndsOwn(st, e) then Manager(None, st.m.next, 0)
             else st.m;
    match e
    case Joined(s) => State(st.sessions[s := Session(false, None)], m)
    case Left(s) => State(st.sessions - {s}, m)
    case Sent(s, msg) =>
      var own := st.sessions[s];
      var own' := if !own.shaken then own.(shaken := msg == Hello(true))
                  else if Begins(st, e) then own.(tx := Some(st.m.next))
                  else if EndsOwn(st, e) then own.(tx := None)
                  else own;
      State(st.sessions[s := own'], m)
  }

  function OutcomeOf(st: State, e: Event): Outcome
    requires Possible(st, e)
  {
    if Begins(st, e) then Granted(e.s, st.m.next)
    else if EndsOwn(st, e) then Ended(e.s, st.sessions[e.s].tx.value)
    else Neither
  }

  /** A run of the server from its start: the events, what they did, and where it ends. */
  ghost predicate Runs(es: seq<Event>, os: seq<Outcome>, st: State)
    decreases |es|
  {
    if es == [] then os == [] && st == State(map[], Manager(None, 1, 0))
    else
      var n := |es| - 1;
      |os| == |es| && exists before ::
        Runs(es[..n], os[..n], before) && Possible(before, es[n]) && st == Step(before, es[n])
            && os[n] == OutcomeOf(before, es[n])
  }

  class Server {
    var sessions: map<nat, Session>
    var m: Manager
    var dispatched: seq<nat>    // whose statements reached the database, in order

    ghost predicate Valid()
      reads this
    {
      Inv(sessions, m)
    }

    ghost function Now(): State
      reads this
    {
      State(sessions, m)
    }

    constructor ()
      ensures Valid() && sessions == map[] && m == Manager(None, 1, 0) && dispatched == []
    {
      sessions, m, dispatched := map[], Manager(None, 1, 0), [];
    }

    method Connect(s: nat)
      requires Valid() && s !in sessions
      modifies this`sessions
      ensures Valid() && Now() == Step(old(Now()), Joined(s)) && sessions == old(sessions)[s := Session(false, None)]
    {
      sessions := sessions[s := Session(false, None)];
      if m.active.Some? {
        ghost var h :| Holds(old(sessions), h);
        assert Holds(sessions, h);
      }
    }

    /** `TransactionManager.begin` on the thread that may already hold the lock: the acquire never
        blocks, and a nested attempt gives its level back. None stands for NestedTransactionError. */
    method ManagerBegin() returns (tx: Option<nat>)
      modifies this`m
      ensures old(m.active).Some? ==> tx == None && m == old(m)
      ensures old(m.active).None? ==> tx == Some(old(m.next)) && m == Manager(tx, old(m.next) + 1, old(m.depth) + 1)
    {
      m := m.(depth := m.depth + 1);
      if m.active.Some? {
        m := m.(depth := m.depth - 1);
        return None;
      }
      tx := Some(m.next);
      m := m.(active := tx, next := m.next + 1);
    }

    /** `commit` and `rollback`: false stands for the ValueError on a transaction that is not active. */
    method ManagerEnd(tx: nat) returns (ok: bool)
      requires m.active.Some? ==> m.depth > 0
      modifies this`m
      ensures ok == (old(m.active) == Some(tx))
      ensures m == if ok then old(m).(active := None, depth := old(m.depth) - 1) else old(m)
    {
      ok := m.active == Some(tx);
      if ok {
        m := m.(active := None, depth := m.depth - 1);
      }
    }

    /** End the session's transaction, if it has one: what COMMIT, ROLLBACK, QUIT and a lost connection
        share. */
    method EndOwn(s: nat) returns (had: bool)
      requires Valid() && s in sessions
      modifies this`sessions, this`m
      ensures Valid() && had == old(sessions)[s].tx.Some?
      ensures sessions == old(sessions)[s := old(sessions)[s].(tx := None)]
      ensures m == if had then Manager(None, old(m.next), 0) else old(m)
    {
      had := sessions[s].tx.Some?;
      var tx := sessions[s].tx;
      sessions := sessions[s := sessions[s].(tx := None)];
      if had {
        assert Holds(old(sessions), s);
        var ok := ManagerEnd(tx.value);
        assert ok;
      } else if m.active.Some? {
        ghost var h :| Holds(old(sessions), h);
        assert Holds(sessions, h);
      }
    }

    /** `_handle_frame`. */
    method Handle(s: nat, msg: Message) returns (r: Reply)
      requires Valid() && s in sessions
      modifies this
      ensures Valid() && Now() == Step(old(Now()), Sent(s, msg)) && sessions.Keys == old(sessions).Keys
      ensures forall t | t in sessions && t != s :: sessions[t] == old(sessions)[t]
      // nothing before HELLO but HELLO itself and PING
      ensures !old(sessions)[s].shaken ==>
                && m == old(m) && dispatched == old(dispatched)
                && sessions == (if msg == Hello(true) then old(sessions)[s := old(sessions)[s].(shaken := true)]
                                else old(sessions))
                && r == (match msg case Ping => Pong case Hello(good) => if good then Ok else Err case _ => Err)
      // a statement is dispatched, once, only after HELLO
      ensures dispatched == if old(sessions)[s].shaken && msg == Sql then old(dispatched) + [s] else old(dispatched)
      // BEGIN: granted exactly when nobody has a transaction, else refused and nothing changes
      ensures old(sessions)[s].shaken && msg == Begin ==>
                if old(m.active).None? then
                  && r == Done && sessions[s].tx == Some(old(m.next))
                     && m == Manager(Some(old(m.next)), old(m.next) + 1, 1)
                else r == ResultError && sessions == old(sessions) && m == old(m)
      // COMMIT and ROLLBACK end one's own transaction and no other
      ensures old(sessions)[s].shaken && msg in {Commit, Rollback} ==>
                if old(sessions)[s].tx.Some? then r == Done && sessions[s].tx == None
                    && m == Manager(None, old(m.next), 0)
                else r == ResultError && sessions == old(sessions) && m == old(m)
      ensures old(sessions)[s].shaken && msg == Quit ==>
                r == Ok && sessions[s].tx == None && m == if old(sessions)[s].tx.Some?
                    then Manager(None, old(m.next), 0) else old(m)
      ensures msg !in {Begin, Commit, Rollback, Quit} ==> m == old(m) && sessions[s].tx == old(sessions)[s].tx
      // PING is answered in every state, and nothing else with PONG; a statement by its result; what no
      // handler takes ends the connection
      ensures r == Pong <==> msg == Ping
      ensures r == Result <==> old(sessions)[s].shaken && msg == Sql
      ensures r == Raised <==> old(sessions)[s].shaken && (msg.Hello? || msg == Unhandled)
    {
      r := Err;
      if msg == Ping {
        r := Pong;
      } else if !sessions[s].shaken {
        if msg == Hello(true) {
          r := Ok;
          Shake(s);
        }
      } else if msg == Begin {
        r := HandleBegin(s);
      } else if msg == Commit || msg == Rollback {
        var had := EndOwn(s);
        r := if had then Done else ResultError;
        assert !had ==> sessions == old(sessions);
      } else if msg == Quit {
        var had := EndOwn(s);
        r := Ok;
      } else if msg == Sql {
        dispatched := dispatched + [s];
        r := Result;
      } else {
        r := Raised;
      }
    }

    method Shake(s: nat)
      requires Valid() && s in sessions
      modifies this`sessions
      ensures Valid() && sessions == old(sessions)[s := old(sessions)[s].(shaken := true)]
    {
      sessions := sessions[s := sessions[s].(shaken := true)];
      if m.active.Some? {
        ghost var h :| Holds(old(sessions), h);
        assert Holds(sessions, h);
      }
    }

    /** `_handle_begin`. */
    method HandleBegin(s: nat) returns (r: Reply)
      requires Valid() && s in sessions && sessions[s].shaken
      modifies this`sessions, this`m
      ensures Valid()
      ensures if old(m.active).None? then
                && r == Done && m == Manager(Some(old(m.next)), old(m.next) + 1, 1)
                && sessions == old(sessions)[s := Session(true, Some(old(m.next)))]
              else r == ResultError && sessions == old(sessions) && m == old(m)
    {
      if sessions[s].tx.Some? {
        return ResultError;
      }
      var tx := ManagerBegin();
      if tx.None? {
        return ResultError;
      }
      sessions := sessions[s := sessions[s].(tx := tx)];
      assert Holds(sessions, s);
      r := Done;
    }

    /** A lost or closed connection: its transaction is rolled back, and then nothing of it is left. */
    method Disconnect(s: nat)
      requires Valid() && s in sessions
      modifies this
      ensures Valid() && Now() == Step(old(Now()), Left(s)) && sessions == old(sessions) - {s}
              && dispatched == old(dispatched)
      ensures old(sessions)[s].tx.Some? ==> m.active == None && m.depth == 0
      ensures old(sessions)[s].tx.None? ==> m == old(m)
    {
      var had := EndOwn(s);
      ghost var before := sessions;
      sessions := sessions - {s};
      if m.active.Some? {
        ghost var h :| Holds(before, h);
        assert Holds(sessions, h);
      }
    }
  }

  // ----- every run

  /** Who has the transaction, and its number. */
  datatype Holder = Nobody | Owner(s: nat, id: nat)

  ghost predicate HolderIs(st: State, h: Holder) {
    && Inv(st.sessions, st.m)
    && match h
       case Nobody => st.m.active.None?
       case Owner(s, id) => st.m.active == Some(id) && Holds(st.sessions, s)
  }

  function Grants(os: seq<Outcome>): nat {
    if os == [] then 0 else Grants(os[..|os| - 1]) + if os[|os| - 1].Granted? then 1 else 0
  }

  /** Grants and endings take turns, each ending the one its own session was granted; the grants are
      numbered from 1. */
  predicate TakeTurns(os: seq<Outcome>, h: Holder) {
    if os == [] then h == Nobody
    else
      var rest := os[..|os| - 1];
      match os[|os| - 1]
      case Granted(s, id) => TakeTurns(rest, Nobody) && h == Owner(s, id) && id == 1 + Grants(rest)
      case Ended(s, id) => TakeTurns(rest, Owner(s, id)) && h == Nobody
      case Neither => TakeTurns(rest, h)
  }

  /** One event, seen from the holder. */
  lemma StepKeeps(st: State, e: Event, h: Holder) returns (h': Holder)
    requires HolderIs(st, h) && Possible(st, e)
    ensures HolderIs(Step(st, e), h')
    ensures match OutcomeOf(st, e)
            case Granted(s, id) => h == Nobody && h' == Owner(s, id) && id == st.m.next && Step(st, e).m.next == id + 1
            case Ended(s, id) => h == Owner(s, id) && h' == Nobody && Step(st, e).m.next == st.m.next
            case Neither => h' == h && Step(st, e).m.next == st.m.next
  {
    var st' := Step(st, e);
    h' := match OutcomeOf(st, e)
          case Granted(s, id) => Owner(s, id)
          case Ended(_, _) => Nobody
          case Neither => h;
    if EndsOwn(st, e) {
      assert Holds(st.sessions, e.s);
    }
    if h'.Owner? {
      assert Holds(st'.sessions, h'.s);
    }
  }

  /** In every run of the server, whatever the sessions send and whenever they leave: granted
      transactions never overlap, each is ended by the session that began it, and the write lock is
      held exactly between the two. */
  lemma {:induction false} RunTakesTurns(es: seq<Event>, os: seq<Outcome>, st: State) returns (h: Holder)
    requires Runs(es, os, st)
    ensures TakeTurns(os, h) && HolderIs(st, h) && st.m.next == 1 + Grants(os) && (st.m.depth == 1 <==> h.Owner?)
    decreases |es|
  {
    if es == [] {
      h := Nobody;
    } else {
      var n := |es| - 1;
      var before :| Runs(es[..n], os[..n], before) && Possible(before, es[n]) && st == Step(before, es[n])
          && os[n] == OutcomeOf(before, es[n]);
      var h0 := RunTakesTurns(es[..n], os[..n], before);
      hide Step, OutcomeOf, Possible, Inv, Runs;
      h := StepKeeps(before, es[n], h0);
      DepthIs(st, h);
    }
  }

  lemma DepthIs(st: State, h: Holder)
    requires HolderIs(st, h)
    ensures st.m.depth == 1 <==> h.Owner?
  {
  }

  /** Read off two grants: before the later one, the earlier one's session ended its transaction. */
  lemma {:induction false} GrantsApart(os: seq<Outcome>, h: Holder, i: nat, k: nat) returns (j: nat)
    requires TakeTurns(os, h) && i < k < |os| && os[i].Granted? && os[k].Granted?
    ensures i < j < k && os[j] == Ended(os[i].s, os[i].id) && os[i].id < os[k].id
    decreases |os|
  {
    var n := |os| - 1;
    if k < n {
      var h' := match os[n] case Granted(_, _) => Nobody case Ended(s, id) => Owner(s, id) case Neither => h;
      j := GrantsApart(os[..n], h', i, k);
      assert os[..n][i] == os[i] && os[..n][k] == os[k] && os[..n][j] == os[j];
    } else {
      j := LastEnd(os[..n], i);
      assert os[..n][i] == os[i] && os[..n][j] == os[j];
      GrantNumbers(os[..n], Nobody, i);
    }
  }

  /** Nobody holds a transaction now, so the one granted at i was ended since. */
  lemma {:induction false} LastEnd(os: seq<Outcome>, i: nat) returns (j: nat)
    requires TakeTurns(os, Nobody) && i < |os| && os[i].Granted?
    ensures i < j < |os| && os[j] == Ended(os[i].s, os[i].id)
    decreases |os|
  {
    var n := |os| - 1;
    if os[n].Neither? {
      j := LastEnd(os[..n], i);
      assert os[..n][i] == os[i] && os[..n][j] == os[j];
    } else {
      j := EndAt(os[..n], Owner(os[n].s, os[n].id), i);
      if j == n {
        assert os[..n][i] == os[i];
      } else {
        assert os[..n][i] == os[i] && os[..n][j] == os[j];
      }
    }
  }

  /** While h holds one: the grant at i is h's, or was ended since. */
  lemma {:induction false} EndAt(os: seq<Outcome>, h: Holder, i: nat) returns (j: nat)
    requires TakeTurns(os, h) && h.Owner? && i < |os| && os[i].Granted?
    ensures i < j <= |os|
    ensures if j == |os| then h == Owner(os[i].s, os[i].id) else os[j] == Ended(os[i].s, os[i].id)
    decreases |os|
  {
    var n := |os| - 1;
    if i == n {
      j := n + 1;
    } else if os[n].Neither? {
      j := EndAt(os[..n], h, i);
      assert os[..n][i] == os[i] && (j < n ==> os[..n][j] == os[j]);
      if j == n {
        j := n + 1;
      }
    } else {
      j := LastEnd(os[..n], i);
      assert os[..n][i] == os[i] && os[..n][j] == os[j];
    }
  }

  lemma {:induction false} GrantNumbers(os: seq<Outcome>, h: Holder, i: nat)
    requires TakeTurns(os, h) && i < |os| && os[i].Granted?
    ensures os[i].id <= Grants(os)
    decreases |os|
  {
    var n := |os| - 1;
    if i < n {
      var h' := match os[n] case Granted(_, _) => Nobody case Ended(s, id) => Owner(s, id) case Neither => h;
      GrantNumbers(os[..n], h', i);
      assert os[..n][i] == os[i];
    }
  }
}
