/**
 An ordinary transaction, as Backend.Process.RunTransaction runs it, is a run of the
 lifecycle machine: for every list of statements and every pattern of replies the
 actions it records lead to the catalog and registry that its contract gives.
 */
module TransactionRuns {
  import opened Basics
  import opened Effects
  import opened Identifiers
  import opened Lifecycle
  import opened Runs

  // ------------------------------------------------------------------ the end of one

  /** Removals answered one after the other. */
  lemma {:induction false} ToldRemoved(registry: map<Key, Oid>, replies: nat -> Reply, keys: seq<Key>, n: nat)
    requires n <= |keys| && AllRemoved(replies, n)
    ensures Told(registry, replies, keys, n) == registry - Elements(keys[..n])
  {
    ToldIsEffective(registry, replies, keys, n);
    AllAreEffective(replies, keys[..n]);
  }

  /** The state when `n` callbacks have been answered. */
  function Answered(s: State, t: TxId, tx: Tx, n: nat): State
    requires n <= |tx.events|
  {
    WithTx(Unregistered(s, Elements(tx.events[..n])), t, tx.(flushed := Some(n)))
  }

  /** The machine's state after Effects.AfterDrops. */
  function Ended(s: State, t: TxId, tx: Tx, stream: bool, replies: nat -> Reply, commits: bool): State {
    var after := AfterDrops(Shared(s.catalog, s.registry, s.nextOid), tx.view, tx.events, stream, replies, commits);
    EndOf(s.(catalog := after.catalog, registry := after.registry), t)
  }

  predicate MayEnd(s: State, t: TxId) { t !in s.txs && (t.Loop? ==> At(s, t.call, CleaningUp)) }

  /** All callbacks answered: the commit, or an abort after all. */
  lemma AnsweredEnds(s: State, t: TxId, tx: Tx, replies: nat -> Reply, commits: bool)
    requires MayEnd(s, t) && AllRemoved(replies, |tx.events|)
    ensures Exec(Answered(s, t, tx, |tx.events|), [if commits then Commit(t) else Abort(t)]) ==
            Some(Ended(s, t, tx, true, replies, commits))
  {
    var n := |tx.events|;
    var busy := Answered(s, t, tx, n);
    AllAreEffective(replies, tx.events);
    ToldRemoved(s.registry, replies, tx.events, n);
    assert busy.txs - {t} == s.txs;
    One(busy, if commits then Commit(t) else Abort(t));
  }

  /** A callback that fails ends the transaction. */
  lemma FailedEnds(s: State, t: TxId, tx: Tx, replies: nat -> Reply, commits: bool, n: nat)
    requires MayEnd(s, t) && n < |tx.events| && AllRemoved(replies, n) && !replies(n).Removed?
    ensures Exec(Answered(s, t, tx, n), [Flush(t, replies(n))]) == Some(Ended(s, t, tx, true, replies, commits))
  {
    var busy := Answered(s, t, tx, n);
    SentUpToFailure(replies, |tx.events|, n);
    ToldRemoved(s.registry, replies, tx.events, n);
    assert !AllRemoved(replies, |tx.events|);
    assert busy.txs - {t} == s.txs;
    One(busy, Flush(t, replies(n)));
  }

  lemma FiredEnds(s: State, t: TxId, tx: Tx, replies: nat -> Reply, commits: bool)
    requires MayEnd(s, t)
    ensures var total := |tx.events|;
            Exec(WithTx(s, t, tx.(flushed := Some(0))), Fired(t, total, true, replies) +
                 if AllRemoved(replies, total) then [if commits then Commit(t) else Abort(t)] else []) ==
            Some(Ended(s, t, tx, true, replies, commits))
  {
    var total, ready := |tx.events|, WithTx(s, t, tx.(flushed := Some(0)));
    if AllRemoved(replies, total) {
      FlushesRun(s, t, tx, total);
      AnsweredEnds(s, t, tx, replies, commits);
      Then(ready, FlushActions(t, total), Answered(s, t, tx, total), [if commits then Commit(t) else Abort(t)]);
    } else {
      var n := FirstFailure(replies, total);
      FlushesRun(s, t, tx, n);
      FailedEnds(s, t, tx, replies, commits, n);
      Then(ready, FlushActions(t, n), Answered(s, t, tx, n), [Flush(t, replies(n))]);
      assert Fired(t, total, true, replies) + [] == Fired(t, total, true, replies);
    }
  }

  lemma StreamlessEnds(s: State, t: TxId, tx: Tx, replies: nat -> Reply, commits: bool)
    requires MayEnd(s, t)
    ensures Exec(WithTx(s, t, tx.(flushed := Some(0))), [Abort(t)]) == Some(Ended(s, t, tx, false, replies, commits))
  {
    var ready := WithTx(s, t, tx.(flushed := Some(0)));
    assert ready.txs - {t} == s.txs;
    One(ready, Abort(t));
  }

  /** Any transaction, of a session or of a cleanup, from its COMMIT on. */
  lemma EndingRuns(s: State, t: TxId, tx: Tx, stream: bool, replies: nat -> Reply, commits: bool)
    requires MayEnd(s, t) && tx.flushed.None?
    ensures Exec(WithTx(s, t, tx), Ending(t, |tx.events|, stream, replies, commits)) ==
            Some(Ended(s, t, tx, stream, replies, commits))
  {
    var busy, ready := WithTx(s, t, tx), WithTx(s, t, tx.(flushed := Some(0)));
    WithTxTwice(s, t, tx, tx.(flushed := Some(0)));
    assert Next(busy, Prepare(t)) == Some(ready);
    One(busy, Prepare(t));
    var rest := Fired(t, |tx.events|, stream, replies) +
                if stream && AllRemoved(replies, |tx.events|) then [if commits then Commit(t) else Abort(t)] else [];
    if stream {
      FiredEnds(s, t, tx, replies, commits);
    } else {
      StreamlessEnds(s, t, tx, replies, commits);
      assert rest == [Abort(t)];
    }
    Then(busy, [Prepare(t)], ready, rest);
  }

  // ------------------------------------------------------------------- its statements

  /** The open transaction of a session that has come this far. */
  function Open(s: State, t: TxId, p: Progress): State {
    WithTx(s.(nextOid := p.nextOid), t, Tx(p.view, p.events, None))
  }

  function Touched(kw: Keywords, s: Statement): set<Key> {
    match s
    case DropObjects(dropped) => Elements(TableKeys(kw, dropped))
    case CreateOne(schema, name) => {StoredKey(kw, schema, name)}
  }

  /** Nobody else holds a table that the statements name. */
  ghost predicate Unlocked(s: State, t: TxId, kw: Keywords, statements: seq<Statement>) {
    forall i, k :: 0 <= i < |statements| && k in Touched(kw, statements[i]) ==> !Locked(s, k, t)
  }

  lemma OneDrop(s: State, j: nat, view: View, events: seq<Key>, k: Key)
    requires Session(j) !in s.txs && Visible(s.catalog, view, k).Some? && !Locked(s, k, Session(j))
    ensures Next(WithTx(s, Session(j), Tx(view, events, None)), Drop(j, k)) ==
            Some(WithTx(s, Session(j), Tx(view[k := None], events + [k], None)))
  {
    var t := Session(j);
    NotLockedInside(s, t, k, Tx(view, events, None));
    WithTxTwice(s, t, Tx(view, events, None), Tx(view[k := None], events + [k], None));
  }

  lemma {:induction false} DropsRun(s: State, j: nat, view: View, events: seq<Key>, keys: seq<Key>)
    requires Session(j) !in s.txs && DropAll(s.catalog, view, keys).Some?
    requires forall k :: k in Elements(keys) ==> !Locked(s, k, Session(j))
    ensures Exec(WithTx(s, Session(j), Tx(view, events, None)), Drops(Session(j), keys)) ==
            Some(WithTx(s, Session(j), Tx(DropAll(s.catalog, view, keys).value, events + keys, None)))
    decreases |keys|
  {
    if keys == [] {
      assert events + keys == events;
    } else {
      var k, rest := keys[0], keys[1..];
      var busy, next := WithTx(s, Session(j), Tx(view, events, None)),
          WithTx(s, Session(j), Tx(view[k := None], events + [k], None));
      assert keys == [k] + rest && k in Elements(keys);
      ElementsAppend([k], rest);
      OneDrop(s, j, view, events, k);
      One(busy, Drop(j, k));
      DropsRun(s, j, view[k := None], events + [k], rest);
      KeysAssociate(events, [k], rest);
      Then(busy, [Drop(j, k)], next, Drops(Session(j), rest));
    }
  }

  lemma OneCreate(s: State, j: nat, p: Progress, k: Key)
    requires Session(j) !in s.txs && Visible(s.catalog, p.view, k).None? && !Locked(s, k, Session(j))
    ensures Next(Open(s, Session(j), p), Create(j, k)) ==
            Some(Open(s, Session(j), p.(view := p.view[k := Some(p.nextOid)], nextOid := p.nextOid + 1)))
  {
    var t, s0 := Session(j), s.(nextOid := p.nextOid);
    NotLockedInside(s0, t, k, Tx(p.view, p.events, None));
    WithTxTwice(s.(nextOid := p.nextOid + 1), t, Tx(p.view, p.events, None),
        Tx(p.view[k := Some(p.nextOid)], p.events, None));
  }

  lemma StatementRuns(s: State, kw: Keywords, j: nat, p: Progress, st: Statement)
    requires Session(j) !in s.txs && p.ok && forall k :: k in Touched(kw, st) ==> !Locked(s, k, Session(j))
    ensures Exec(Open(s, Session(j), p), StatementActions(kw, s.catalog, Session(j), p, st)) ==
            Some(Open(s, Session(j), AfterStatement(kw, s.catalog, p, st)))
  {
    match st
    case DropObjects(dropped) =>
      var keys := TableKeys(kw, dropped);
      if DropAll(s.catalog, p.view, keys).Some? {
        var s0 := s.(nextOid := p.nextOid);
        forall k | k in Elements(keys) ensures !Locked(s0, k, Session(j)) {
          assert k in Touched(kw, st) && !Locked(s, k, Session(j));
        }
        DropsRun(s0, j, p.view, p.events, keys);
      }
    case CreateOne(schema, name) =>
      var k := StoredKey(kw, schema, name);
      if Visible(s.catalog, p.view, k).None? {
        OneCreate(s, j, p, k);
        One(Open(s, Session(j), p), Create(j, k));
      }
  }

  lemma {:induction false} StatementsRun(s: State, kw: Keywords, j: nat, p: Progress, statements: seq<Statement>)
    requires Session(j) !in s.txs && Unlocked(s, Session(j), kw, statements)
    ensures Exec(Open(s, Session(j), p), AllActions(kw, s.catalog, Session(j), p, statements)) ==
            Some(Open(s, Session(j), AfterStatements(kw, s.catalog, p, statements)))
    decreases |statements|
  {
    if statements != [] && p.ok {
      var t, first, rest := Session(j), statements[0], statements[1..];
      var next := AfterStatement(kw, s.catalog, p, first);
      assert Unlocked(s, t, kw, rest) by {
        forall i, k | 0 <= i < |rest| && k in Touched(kw, rest[i]) ensures !Locked(s, k, t) {
          assert rest[i] == statements[i + 1];
        }
      }
      StatementRuns(s, kw, j, p, first);
      StatementsRun(s, kw, j, next, rest);
      Then(Open(s, t, p), StatementActions(kw, s.catalog, t, p, first), Open(s, t, next),
          AllActions(kw, s.catalog, t, next, rest));
    }
  }

  // ---------------------------------------------------------------------- all of it

  function Shares(s: State): Shared { Shared(s.catalog, s.registry, s.nextOid) }

  function WithShared(s: State, w: Shared): State {
    s.(catalog := w.catalog, registry := w.registry, nextOid := w.nextOid)
  }

  lemma ClosingRuns(s: State, j: nat, p: Progress, aborts: bool, stream: bool, replies: nat -> Reply, commits: bool)
    requires Session(j) !in s.txs
    ensures Exec(Open(s, Session(j), p), if aborts || !p.ok then [Abort(Session(j))]
                                         else Ending(Session(j), |p.events|, stream, replies, commits)) ==
            Some(WithShared(s, AfterTransaction(Shares(s), p, aborts, stream, replies, commits)))
  {
    var t, s0 := Session(j), s.(nextOid := p.nextOid);
    if aborts || !p.ok {
      assert Open(s, t, p).txs - {t} == s.txs;
      One(Open(s, t, p), Abort(t));
    } else {
      EndingRuns(s0, t, Tx(p.view, p.events, None), stream, replies, commits);
    }
  }

  /**
   From any state in which nobody else holds the tables concerned, the actions recorded
   by RunTransaction lead to what its contract says.
   */
  lemma TransactionIsARun(s: State, kw: Keywords, j: nat, statements: seq<Statement>, aborts: bool,
                          stream: bool, replies: nat -> Reply, commits: bool)
    requires Session(j) !in s.txs && Unlocked(s, Session(j), kw, statements)
    ensures var p := AfterStatements(kw, s.catalog, Start(Shares(s)), statements);
            Exec(s, TransactionScript(kw, s.catalog, j, Start(Shares(s)), statements, aborts, stream, replies,
                commits)) ==
            Some(WithShared(s, AfterTransaction(Shares(s), p, aborts, stream, replies, commits)))
  {
    var t, start := Session(j), Start(Shares(s));
    var p, actions := AfterStatements(kw, s.catalog, start, statements),
        AllActions(kw, s.catalog, t, start, statements);
    var closing := if aborts || !p.ok then [Abort(t)] else Ending(t, |p.events|, stream, replies, commits);
    BeginRuns(s, j);
    assert WithTx(s, t, EMPTY) == Open(s, t, start);
    StatementsRun(s, kw, j, start, statements);
    ClosingRuns(s, j, p, aborts, stream, replies, commits);
    Then(Open(s, t, start), actions, Open(s, t, p), closing);
    Then(s, [Begin(j)], Open(s, t, start), actions + closing);
  }
}
