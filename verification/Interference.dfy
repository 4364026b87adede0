/**
 What goes wrong when somebody drops a table while a create_table for it is under way:
 the converse of the two lemmas that need the whole call undisturbed, and a run in which
 the extension's own cleanup is the one that interferes.
 */
module Interference {
  import opened Basics
  import opened Lifecycle
  import opened Runs

  /** The call is about to return, but the table it created is not committed. */
  predicate ReturnsWithout(s: State, i: nat) {
    At(s, i, Registering(true)) &&
    var c := s.calls[i];
    !(c.dst in s.catalog && s.catalog[c.dst] == c.oid)
  }

  /** The cleanup of the call is about to commit, and removes a table the call did not create. */
  predicate RemovesForeign(s: State, i: nat) {
    At(s, i, CleaningUp) && CommitTx(s, Loop(i)).Some? &&
    var c := s.calls[i];
    c.dst in s.catalog && s.catalog[c.dst] != c.oid && c.dst !in CommitTx(s, Loop(i)).value.catalog
  }

  /** Without interference neither ever happens. */
  lemma UndisturbedCallsKeepTheirTables(s: State, run: seq<Action>, i: nat)
    requires Initial(s) && ConsiderateRun(UntilReturn, s, run) && Exec(s, run).Some?
    ensures !ReturnsWithout(Exec(s, run).value, i) && !RemovesForeign(Exec(s, run).value, i)
  {
    var end := Exec(s, run).value;
    if At(end, i, Registering(true)) {
      AcceptedMeansMirrored(s, run, i);
    }
    if CommitTx(end, Loop(i)).Some? {
      CleanupRemovesOwnTable(s, run, i);
    }
  }

  // ------------------------------------------------------------------ a foreign cleanup

  function CleanupActions(i: nat): seq<Action> {
    [CleanupBegin(i)] + ([Prepare(Loop(i))] + [Flush(Loop(i), Removed)])
  }

  /** The state in which the cleanup has announced its drop and only has to commit. */
  function CleanupAnnounced(s: State, i: nat): State
    requires i in s.calls
  {
    var k := s.calls[i].dst;
    WithTx(Move(s, i, CleaningUp).(registry := s.registry - {k}), Loop(i), DropTx(k, Some(1)))
  }

  lemma CleanupGoesByName(s: State, i: nat)
    requires At(s, i, Rejected) && Loop(i) !in s.txs && s.calls[i].dst in s.catalog
             && !Locked(s, s.calls[i].dst, Loop(i))
    ensures Exec(s, CleanupActions(i)) == Some(CleanupAnnounced(s, i))
    ensures s.catalog[s.calls[i].dst] != s.calls[i].oid ==> RemovesForeign(CleanupAnnounced(s, i), i)
  {
    var t, k, idle := Loop(i), s.calls[i].dst, Move(s, i, CleaningUp);
    var busy, ready := WithTx(idle, t, DropTx(k, None)), WithTx(idle, t, DropTx(k, Some(0)));
    assert BeginCleanup(s, i) == Some(busy);
    One(s, CleanupBegin(i));
    PrepareStep(idle, t, k);
    One(busy, Prepare(t));
    FlushStep(idle, t, k);
    One(ready, Flush(t, Removed));
    Then(busy, [Prepare(t)], ready, [Flush(t, Removed)]);
    Then(s, [CleanupBegin(i)], busy, [Prepare(t)] + [Flush(t, Removed)]);
    AppliedDrop(s.catalog, k);
  }

  // -------------------------------------------------------------- a session's own steps

  /** The catalog after a session created `k`. */
  function Recreated(s: State, k: Key): State {
    s.(catalog := s.catalog[k := s.nextOid], nextOid := s.nextOid + 1)
  }

  lemma DropStep(s: State, j: nat, k: Key)
    requires Session(j) !in s.txs && k in s.catalog && !Locked(s, k, Session(j))
    ensures Next(WithTx(s, Session(j), EMPTY), Drop(j, k)) == Some(WithTx(s, Session(j), DropTx(k, None)))
  {
    var t := Session(j);
    NotLockedInside(s, t, k, EMPTY);
    WithTxTwice(s, t, EMPTY, DropTx(k, None));
    assert EMPTY.view[k := None] == map[k := None] && EMPTY.events + [k] == [k];
  }

  lemma AppliedCreate(catalog: map<Key, Oid>, k: Key, oid: Oid)
    ensures Applied(catalog, map[k := Some(oid)]) == catalog[k := oid]
  {
  }

  lemma FinishesCreate(s: State, j: nat, k: Key, oid: Oid)
    requires Session(j) !in s.txs
    ensures Exec(WithTx(s, Session(j), CreateTx(k, oid)), FinishActions(Session(j), 0)) ==
            Some(s.(catalog := s.catalog[k := oid]))
  {
    Finishes(s, Session(j), CreateTx(k, oid));
    AppliedCreate(s.catalog, k, oid);
    assert Elements([]) == {} && s.registry - {} == s.registry;
  }

  lemma RecreateRuns(s: State, j: nat, k: Key) returns (run: seq<Action>)
    requires Session(j) !in s.txs && k !in s.catalog && !Locked(s, k, Session(j))
    ensures Exec(s, run) == Some(Recreated(s, k))
  {
    var s0 := s.(nextOid := s.nextOid + 1);
    var first := OpensCreate(s, j, k);
    FinishesCreate(s0, j, k, s.nextOid);
    var second := FinishActions(Session(j), 0);
    Then(s, first, WithTx(s0, Session(j), CreateTx(k, s.nextOid)), second);
    run := first + second;
  }

  function DropActions(j: nat, k: Key): seq<Action> {
    ([Begin(j)] + [Drop(j, k)]) + [Prepare(Session(j)), Flush(Session(j), Removed), Commit(Session(j))]
  }

  lemma SessionDropRuns(s: State, j: nat, k: Key)
    requires Session(j) !in s.txs && k in s.catalog && !Locked(s, k, Session(j))
    ensures Exec(s, DropActions(j, k)) == Some(s.(registry := s.registry - {k}, catalog := s.catalog - {k}))
  {
    var t, s1 := Session(j), WithTx(s, Session(j), EMPTY);
    BeginRuns(s, j);
    DropStep(s, j, k);
    One(s1, Drop(j, k));
    Then(s, [Begin(j)], s1, [Drop(j, k)]);
    DropRuns(s, t, k);
    Then(s, [Begin(j)] + [Drop(j, k)], WithTx(s, t, DropTx(k, None)),
         [Prepare(t), Flush(t, Removed), Commit(t)]);
  }

  // ------------------------------------------------------ the assumption is needed

  /** A rejected call whose name was dropped: recreated by a session, its table falls to the cleanup. */
  lemma RecreatedFallsToCleanup(s: State, j: nat, i: nat) returns (run: seq<Action>)
    requires At(s, i, Rejected) && Loop(i) !in s.txs && Session(j) !in s.txs && s.calls[i].oid < s.nextOid
    requires s.calls[i].dst !in s.catalog && forall t :: t in s.txs ==> s.calls[i].dst !in s.txs[t].view
    ensures Exec(s, run).Some? && RemovesForeign(Exec(s, run).value, i)
  {
    var k := s.calls[i].dst;
    var first := RecreateRuns(s, j, k);
    CleanupGoesByName(Recreated(s, k), i);
    run := first + CleanupActions(i);
    Then(s, first, Recreated(s, k), CleanupActions(i));
  }

  lemma DroppedUnderCall(s: State, j: nat, i: nat) returns (run: seq<Action>)
    requires Session(j) !in s.txs && i in s.calls && InFlight(UntilReturn, s.calls[i]) && !s.calls[i].phase.CleaningUp?
    requires Loop(i) !in s.txs && s.calls[i].oid < s.nextOid
    requires s.calls[i].dst !in s.catalog && forall t :: t in s.txs ==> s.calls[i].dst !in s.txs[t].view
    ensures Exec(s, run).Some?
    ensures ReturnsWithout(Exec(s, run).value, i) || RemovesForeign(Exec(s, run).value, i)
  {
    if s.calls[i].phase.Rejected? {
      run := RecreatedFallsToCleanup(s, j, i);
    } else if s.calls[i].phase == Registering(true) {
      run := [];
    } else {
      run := RegisterActions(s, i);
      RegistersInWindow(s, i);
    }
  }

  /**
   The assumption of AcceptedMeansMirrored and CleanupRemovesOwnTable is the weakest there
   is: after any drop that violates it, some continuation lets the call return without
   its own table or lets its cleanup remove somebody else's.
   */
  lemma InconsiderateDropHurtsTheCall(s: State, j: nat, k: Key)
    requires Inv(UntilReturn, s) && Next(s, Drop(j, k)).Some? && !Considerate(UntilReturn, s, Drop(j, k))
    ensures exists i, run :: Exec(s, [Drop(j, k)] + run).Some? &&
              var end := Exec(s, [Drop(j, k)] + run).value;
              ReturnsWithout(end, i) || RemovesForeign(end, i)
  {
    var t, s1 := Session(j), Next(s, Drop(j, k)).value;
    var i :| i in s.calls && InFlight(UntilReturn, s.calls[i]) && s.calls[i].dst == k;
    assert Owns(UntilReturn, s, i) && LoopFine(UntilReturn, s, i);
    assert !Locked(s, k, t);
    var tx, s0 := s1.txs[t], s1.(txs := s1.txs - {t});
    assert WithTx(s0, t, tx) == s1 by { assert (s1.txs - {t})[t := tx] == s1.txs; }
    Finishes(s0, t, tx);
    var done := Unregistered(s0, Elements(tx.events)).(catalog := Applied(s.catalog, tx.view));
    assert tx.view[k] == None && k !in done.catalog;
    var rest := DroppedUnderCall(done, j, i);
    var run := FinishActions(t, |tx.events|) + rest;
    Then(s1, FinishActions(t, |tx.events|), done, rest);
    ExecOne(s, Drop(j, k), run);
  }

  // ------------------------------------------- keeping off until the table is registered

  /** Once a transaction has dropped a table in a call's window, committing and registering it breaks the invariant. */
  lemma DropperBreaksIt(s: State, t: TxId, i: nat) returns (run: seq<Action>)
    requires t in s.txs && s.txs[t].flushed.None? && (t.Loop? ==> At(s, t.call, CleaningUp) && t.call != i)
    requires At(s, i, Created) || At(s, i, Registering(false))
    requires s.calls[i].dst in s.txs[t].view && s.txs[t].view[s.calls[i].dst].None?
    ensures Exec(s, run).Some? && !Safe(Exec(s, run).value)
  {
    var s0, tx, k := s.(txs := s.txs - {t}), s.txs[t], s.calls[i].dst;
    assert (s.txs - {t})[t := tx] == s.txs;
    Finishes(s0, t, tx);
    var done := EndOf(Unregistered(s0, Elements(tx.events)).(catalog := Applied(s.catalog, tx.view)), t);
    assert done.calls[i] == s.calls[i] && k !in done.catalog;
    RegistersInWindow(done, i);
    run := FinishActions(t, |tx.events|) + RegisterActions(done, i);
    Then(s, FinishActions(t, |tx.events|), done, RegisterActions(done, i));
  }

  /**
   The assumption is the weakest there is: any step that violates it, in any state a run
   can reach, can be continued to a state where moonlink knows a table Postgres has not.
   */
  lemma InconsiderateStepBreaksIt(s: State, a: Action)
    requires Inv(UntilRegistered, s) && Next(s, a).Some? && !Considerate(UntilRegistered, s, a)
    ensures exists run :: Exec(s, [a] + run).Some? && !Safe(Exec(s, [a] + run).value)
  {
    var s1, i, t;
    s1 := Next(s, a).value;
    match a {
      case Drop(j, k) =>
        i :| i in s.calls && InFlight(UntilRegistered, s.calls[i]) && s.calls[i].dst == k;
        t := Session(j);
      case CleanupBegin(j) =>
        i :| i in s.calls && InFlight(UntilRegistered, s.calls[i]) && s.calls[i].dst == s.calls[j].dst;
        t := Loop(j);
        assert Owns(UntilRegistered, s, i);
    }
    var run := DropperBreaksIt(s1, t, i);
    ExecOne(s, a, run);
  }

  // -------------------------------------------------------- the code as the interferer

  function CreatedActions(i: nat, e: Entry): seq<Action> {
    Entering(i, e) + ([CreateBegin(i)] + [CreateCommit(i, true)])
  }

  lemma CreatedRuns(s: State, i: nat, e: Entry)
    requires i !in s.calls && Loop(i) !in s.txs && e.dst !in s.catalog && !Locked(s, e.dst, Loop(i))
    ensures Exec(s, CreatedActions(i, e)) == Some(WithCall(Mirror(s, e.dst), i, CreatedCall(s, e)))
  {
    EnteringRuns(s, i, e);
    CreateRuns(s, i, e, true);
    Then(s, Entering(i, e), WithCall(s, i, Prepared(s, e)), [CreateBegin(i)] + [CreateCommit(i, true)]);
  }

  /** Call `i` creates its table and is rejected. */
  function RejectedActions(i: nat, e: Entry): seq<Action> { CreatedActions(i, e) + (Asking(i, false) + [Reject(i)]) }

  function RejectedCall(s: State, e: Entry): Call { CreatedCall(s, e).(phase := Rejected) }

  lemma RejectedCallRuns(s: State, i: nat, e: Entry)
    requires i !in s.calls && Loop(i) !in s.txs && e.dst !in s.catalog && !Locked(s, e.dst, Loop(i))
    ensures Exec(s, RejectedActions(i, e)) == Some(WithCall(Mirror(s, e.dst), i, RejectedCall(s, e)))
  {
    var m, c := Mirror(s, e.dst), CreatedCall(s, e);
    var asked := c.(phase := Registering(false));
    CreatedRuns(s, i, e);
    AskingRuns(m, i, c, false);
    AnswerRuns(m, i, asked, false);
    Then(WithCall(m, i, c), Asking(i, false), WithCall(m, i, asked), [Reject(i)]);
    Then(s, CreatedActions(i, e), WithCall(m, i, c), Asking(i, false) + [Reject(i)]);
  }

  /** Call 0 is rejected, a session drops its table, call 1 creates the name anew. */
  function SetUp(e: Entry): seq<Action> {
    RejectedActions(0, e) + (DropActions(0, e.dst) + CreatedActions(1, e))
  }

  function RejectedState(s: State, e: Entry): State { WithCall(Mirror(s, e.dst), 0, RejectedCall(s, e)) }

  function DroppedState(s: State, e: Entry): State { WithCall(s.(nextOid := s.nextOid + 1), 0, RejectedCall(s, e)) }

  function AfterSetUp(s: State, e: Entry): State {
    WithCall(Mirror(DroppedState(s, e), e.dst), 1, CreatedCall(DroppedState(s, e), e))
  }

  lemma DropsRejected(s: State, e: Entry)
    requires Initial(s) && e.dst !in s.catalog
    ensures Exec(RejectedState(s, e), DropActions(0, e.dst)) == Some(DroppedState(s, e))
  {
    var m := RejectedState(s, e);
    SessionDropRuns(m, 0, e.dst);
    assert m.catalog - {e.dst} == s.catalog && m.registry - {e.dst} == s.registry;
  }

  lemma CreatesAnew(s: State, e: Entry)
    requires Initial(s) && e.dst !in s.catalog
    ensures Exec(DroppedState(s, e), CreatedActions(1, e)) == Some(AfterSetUp(s, e))
  {
    CreatedRuns(DroppedState(s, e), 1, e);
  }

  lemma SetUpRuns(s: State, e: Entry)
    requires Initial(s) && e.dst !in s.catalog
    ensures Exec(s, SetUp(e)) == Some(AfterSetUp(s, e))
  {
    RejectedCallRuns(s, 0, e);
    DropsRejected(s, e);
    CreatesAnew(s, e);
    Then(RejectedState(s, e), DropActions(0, e.dst), DroppedState(s, e), CreatedActions(1, e));
    Then(s, RejectedActions(0, e), RejectedState(s, e), DropActions(0, e.dst) + CreatedActions(1, e));
  }

  lemma SetUpMeans(s: State, e: Entry)
    requires Initial(s) && e.dst !in s.catalog
    ensures var s1 := AfterSetUp(s, e);
            && At(s1, 0, Rejected) && At(s1, 1, Created) && s1.txs == map[]
            && s1.calls[0].dst == e.dst == s1.calls[1].dst && e.dst in s1.catalog
            && s1.catalog[e.dst] == s1.calls[1].oid != s1.calls[0].oid
  {
  }

  /**
   The cleanup drops by name: from every initial state and for every free name some run
   lets the cleanup of a rejected call remove the table another call has just created.
   */
  lemma CleanupTakesAnothersTable(s: State, e: Entry) returns (run: seq<Action>)
    requires Initial(s) && e.dst !in s.catalog
    ensures Exec(s, run).Some?
    ensures var end := Exec(s, run).value;
            RemovesForeign(end, 0) && At(end, 1, Created) && end.calls[1].dst == end.calls[0].dst == e.dst
            && end.catalog[e.dst] == end.calls[1].oid
  {
    var s1 := AfterSetUp(s, e);
    SetUpRuns(s, e);
    SetUpMeans(s, e);
    CleanupGoesByName(s1, 0);
    run := SetUp(e) + CleanupActions(0);
    Then(s, SetUp(e), s1, CleanupActions(0));
  }

  /** From there the run can go on until moonlink knows a table that Postgres does not have. */
  lemma CleanupBreaksTheRegistry(s: State, e: Entry) returns (run: seq<Action>)
    requires Initial(s) && e.dst !in s.catalog
    ensures Exec(s, run).Some? && !Safe(Exec(s, run).value)
  {
    var s1 := AfterSetUp(s, e);
    SetUpRuns(s, e);
    SetUpMeans(s, e);
    var busy := BeginCleanup(s1, 0).value;
    var rest := DropperBreaksIt(busy, Loop(0), 1);
    One(s1, CleanupBegin(0));
    Then(s1, [CleanupBegin(0)], busy, rest);
    Then(s, SetUp(e), s1, [CleanupBegin(0)] + rest);
    run := SetUp(e) + ([CleanupBegin(0)] + rest);
  }
}
