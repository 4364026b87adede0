/**
 Pieces of runs, step by step: how runs compose, a transaction that commits, and the
 steps of one create_table call.
 */
module Runs {
  import opened Basics
  import opened Lifecycle

  lemma {:induction false} ExecAppend(s: State, run: seq<Action>, more: seq<Action>)
    requires Exec(s, run).Some?
    ensures Exec(s, run + more) == Exec(Exec(s, run).value, more)
    decreases run
  {
    if run == [] {
      assert run + more == more;
    } else {
      assert (run + more)[0] == run[0] && (run + more)[1..] == run[1..] + more;
      ExecAppend(Next(s, run[0]).value, run[1..], more);
    }
  }

  lemma ExecOne(s: State, a: Action, run: seq<Action>)
    requires Next(s, a).Some?
    ensures Exec(s, [a] + run) == Exec(Next(s, a).value, run)
  {
    assert ([a] + run)[1..] == run;
  }

  lemma One(s: State, a: Action)
    requires Next(s, a).Some?
    ensures Exec(s, [a]) == Next(s, a)
  {
    assert [a][1..] == [];
  }

  lemma Then(s: State, first: seq<Action>, middle: State, second: seq<Action>)
    requires Exec(s, first) == Some(middle)
    ensures Exec(s, first + second) == Exec(middle, second)
  {
    ExecAppend(s, first, second);
  }

  /** A transaction that dropped the single table `k`. */
  function DropTx(k: Key, flushed: Option<nat>): Tx { Tx(map[k := None], [k], flushed) }

  function WithTx(s: State, t: TxId, tx: Tx): State { s.(txs := s.txs[t := tx]) }

  lemma WithTxTwice(s: State, t: TxId, a: Tx, b: Tx)
    ensures WithTx(WithTx(s, t, a), t, b) == WithTx(s, t, b)
  {
    assert s.txs[t := a][t := b] == s.txs[t := b];
  }

  lemma PrepareStep(s: State, t: TxId, k: Key)
    requires t !in s.txs && (t.Loop? ==> At(s, t.call, CleaningUp))
    ensures Next(WithTx(s, t, DropTx(k, None)), Prepare(t)) == Some(WithTx(s, t, DropTx(k, Some(0))))
  {
    WithTxTwice(s, t, DropTx(k, None), DropTx(k, Some(0)));
  }

  lemma FlushStep(s: State, t: TxId, k: Key)
    requires t !in s.txs
    ensures Next(WithTx(s, t, DropTx(k, Some(0))), Flush(t, Removed)) ==
            Some(WithTx(s.(registry := s.registry - {k}), t, DropTx(k, Some(1))))
  {
    WithTxTwice(s.(registry := s.registry - {k}), t, DropTx(k, Some(0)), DropTx(k, Some(1)));
  }

  lemma CommitStep(s: State, t: TxId, k: Key)
    requires t !in s.txs
    ensures Next(WithTx(s, t, DropTx(k, Some(1))), Commit(t)) == Some(EndOf(s.(catalog := s.catalog - {k}), t))
  {
    AppliedDrop(s.catalog, k);
    assert WithTx(s, t, DropTx(k, Some(1))).txs - {t} == s.txs;
  }

  /** Preparing, announcing and committing the drop of one table. */
  lemma DropRuns(s: State, t: TxId, k: Key)
    requires t !in s.txs && (t.Loop? ==> At(s, t.call, CleaningUp))
    ensures Exec(WithTx(s, t, DropTx(k, None)), [Prepare(t), Flush(t, Removed), Commit(t)]) ==
            Some(EndOf(s.(registry := s.registry - {k}, catalog := s.catalog - {k}), t))
  {
    var s1 := s.(registry := s.registry - {k});
    PrepareStep(s, t, k);
    FlushStep(s, t, k);
    CommitStep(s1, t, k);
    ExecOne(WithTx(s1, t, DropTx(k, Some(1))), Commit(t), []);
    ExecOne(WithTx(s, t, DropTx(k, Some(0))), Flush(t, Removed), [Commit(t)]);
    ExecOne(WithTx(s, t, DropTx(k, None)), Prepare(t), [Flush(t, Removed), Commit(t)]);
    assert [Prepare(t)] + [Flush(t, Removed), Commit(t)] == [Prepare(t), Flush(t, Removed), Commit(t)];
    assert [Flush(t, Removed)] + [Commit(t)] == [Flush(t, Removed), Commit(t)];
    assert [Commit(t)] + [] == [Commit(t)];
  }

  // ------------------------------------------------------------- transactions that commit

  function Unregistered(s: State, keys: set<Key>): State { s.(registry := s.registry - keys) }

  function FlushActions(t: TxId, n: nat): seq<Action> {
    if n == 0 then [] else FlushActions(t, n - 1) + [Flush(t, Removed)]
  }

  lemma OneMoreFlush(s: State, t: TxId, tx: Tx, n: nat)
    requires t !in s.txs && n < |tx.events|
    ensures Next(WithTx(Unregistered(s, Elements(tx.events[..n])), t, tx.(flushed := Some(n))), Flush(t, Removed)) ==
            Some(WithTx(Unregistered(s, Elements(tx.events[..n + 1])), t, tx.(flushed := Some(n + 1))))
  {
    var before, k := Unregistered(s, Elements(tx.events[..n])), tx.events[n];
    assert tx.events[..n + 1] == tx.events[..n] + [k];
    ElementsAppend(tx.events[..n], [k]);
    assert Elements([k]) == {k} by { assert [k][0] == k; }
    assert before.registry - {k} == s.registry - Elements(tx.events[..n + 1]);
    WithTxTwice(before.(registry := before.registry - {k}), t, tx.(flushed := Some(n)), tx.(flushed := Some(n + 1)));
  }

  /** The first `n` callbacks of a committing transaction, all answered. */
  lemma {:induction false} FlushesRun(s: State, t: TxId, tx: Tx, n: nat)
    requires t !in s.txs && n <= |tx.events|
    ensures Exec(WithTx(s, t, tx.(flushed := Some(0))), FlushActions(t, n)) ==
            Some(WithTx(Unregistered(s, Elements(tx.events[..n])), t, tx.(flushed := Some(n))))
  {
    if n == 0 {
      assert s.registry - Elements(tx.events[..0]) == s.registry;
    } else {
      FlushesRun(s, t, tx, n - 1);
      OneMoreFlush(s, t, tx, n - 1);
      var before := WithTx(Unregistered(s, Elements(tx.events[..n - 1])), t, tx.(flushed := Some(n - 1)));
      One(before, Flush(t, Removed));
      Then(WithTx(s, t, tx.(flushed := Some(0))), FlushActions(t, n - 1), before, [Flush(t, Removed)]);
    }
  }

  function FinishActions(t: TxId, n: nat): seq<Action> { [Prepare(t)] + (FlushActions(t, n) + [Commit(t)]) }

  /** Any transaction that has not begun to commit can commit. */
  lemma Finishes(s: State, t: TxId, tx: Tx)
    requires t !in s.txs && tx.flushed.None? && (t.Loop? ==> At(s, t.call, CleaningUp))
    ensures Exec(WithTx(s, t, tx), FinishActions(t, |tx.events|)) ==
            Some(EndOf(Unregistered(s, Elements(tx.events)).(catalog := Applied(s.catalog, tx.view)), t))
  {
    var n := |tx.events|;
    var ready, told := WithTx(s, t, tx.(flushed := Some(0))), Unregistered(s, Elements(tx.events));
    var last := WithTx(told, t, tx.(flushed := Some(n)));
    WithTxTwice(s, t, tx, tx.(flushed := Some(0)));
    assert Next(WithTx(s, t, tx), Prepare(t)) == Some(ready);
    One(WithTx(s, t, tx), Prepare(t));
    FlushesRun(s, t, tx, n);
    assert tx.events[..n] == tx.events && last.txs - {t} == s.txs;
    One(last, Commit(t));
    Then(ready, FlushActions(t, n), last, [Commit(t)]);
    Then(WithTx(s, t, tx), [Prepare(t)], ready, FlushActions(t, n) + [Commit(t)]);
  }

  function RegisterActions(s: State, i: nat): seq<Action> {
    if At(s, i, Created) then [Send(i)] + [Register(i)] else [Register(i)]
  }

  lemma RegistersInWindow(s: State, i: nat)
    requires At(s, i, Created) || At(s, i, Registering(false))
    ensures var c := s.calls[i];
            Exec(s, RegisterActions(s, i)) ==
            Some(Move(s.(registry := s.registry[c.dst := c.oid]), i, Registering(true)))
  {
    var c := s.calls[i];
    var end := Move(s.(registry := s.registry[c.dst := c.oid]), i, Registering(true));
    if At(s, i, Created) {
      var sent := Move(s, i, Registering(false));
      assert Next(s, Send(i)) == Some(sent);
      One(s, Send(i));
      assert Next(sent, Register(i)) == Some(end) by {
        assert sent.calls[i := sent.calls[i].(phase := Registering(true))] == end.calls;
      }
      One(sent, Register(i));
      Then(s, [Send(i)], sent, [Register(i)]);
    } else {
      One(s, Register(i));
    }
  }

  function WithCall(s: State, i: nat, c: Call): State { s.(calls := s.calls[i := c]) }

  lemma WithCallLaws(s: State, i: nat, c: Call, phase: Phase)
    requires i !in s.calls
    ensures Move(WithCall(s, i, c), i, phase) == WithCall(s, i, c.(phase := phase))
    ensures End(WithCall(s, i, c), i) == s
  {
    assert s.calls[i := c][i := c.(phase := phase)] == s.calls[i := c.(phase := phase)];
    assert s.calls[i := c] - {i} == s.calls;
  }

  // ------------------------------------------------------------ a session that begins to write

  const EMPTY: Tx := Tx(map[], [], None)

  /** A transaction that created the single table `k`. */
  function CreateTx(k: Key, oid: Oid): Tx { Tx(map[k := Some(oid)], [], None) }

  lemma BeginRuns(s: State, j: nat)
    requires Session(j) !in s.txs
    ensures Exec(s, [Begin(j)]) == Some(WithTx(s, Session(j), EMPTY))
  {
    assert Next(s, Begin(j)) == Some(WithTx(s, Session(j), EMPTY));
    One(s, Begin(j));
  }

  lemma NotLockedInside(s: State, t: TxId, k: Key, tx: Tx)
    requires !Locked(s, k, t)
    ensures !Locked(WithTx(s, t, tx), k, t)
  {
  }

  lemma CreateStep(s: State, j: nat, k: Key)
    requires Session(j) !in s.txs && k !in s.catalog && !Locked(s, k, Session(j))
    ensures Next(WithTx(s, Session(j), EMPTY), Create(j, k)) ==
            Some(WithTx(s.(nextOid := s.nextOid + 1), Session(j), CreateTx(k, s.nextOid)))
  {
    var t := Session(j);
    NotLockedInside(s, t, k, EMPTY);
    WithTxTwice(s.(nextOid := s.nextOid + 1), t, EMPTY, CreateTx(k, s.nextOid));
    assert EMPTY.view[k := Some(s.nextOid)] == CreateTx(k, s.nextOid).view;
  }

  lemma OpensCreate(s: State, j: nat, k: Key) returns (run: seq<Action>)
    requires Session(j) !in s.txs && k !in s.catalog && !Locked(s, k, Session(j))
    ensures forall a :: a in run ==> a.Begin? || a.Create?
    ensures Exec(s, run) ==
            Some(WithTx(s.(nextOid := s.nextOid + 1), Session(j), CreateTx(k, s.nextOid)))
  {
    var s1 := WithTx(s, Session(j), EMPTY);
    BeginRuns(s, j);
    CreateStep(s, j, k);
    One(s1, Create(j, k));
    Then(s, [Begin(j)], s1, [Create(j, k)]);
    run := [Begin(j)] + [Create(j, k)];
  }

  lemma {:induction false} SessionBound(ts: set<TxId>) returns (n: nat)
    ensures forall j: nat :: Session(j) in ts ==> j < n
    decreases |ts|
  {
    if ts == {} {
      n := 0;
    } else {
      var t :| t in ts;
      var m := SessionBound(ts - {t});
      n := if t.Session? && t.id >= m then t.id + 1 else m;
      forall j: nat | Session(j) in ts ensures j < n {
        assert Session(j) == t || Session(j) in ts - {t};
      }
    }
  }

  lemma {:induction false} LengthBound(keys: set<Key>) returns (n: nat)
    ensures forall k :: k in keys ==> |k| < n
    decreases |keys|
  {
    if keys == {} {
      n := 0;
    } else {
      var x :| x in keys;
      var m := LengthBound(keys - {x});
      n := if |x| >= m then |x| + 1 else m;
      forall k | k in keys ensures |k| < n {
        assert k == x || k in keys - {x};
      }
    }
  }

  /** Sessions and names never run out. */
  lemma Unused(s: State) returns (j: nat, k: Key)
    ensures Session(j) !in s.txs && k !in s.catalog && forall t :: t in s.txs ==> k !in s.txs[t].view
  {
    j := SessionBound(s.txs.Keys);
    var used := s.catalog.Keys + set t, x | t in s.txs.Keys && x in s.txs[t].view.Keys :: x;
    var n := LengthBound(used);
    k := seq(n, _ => 'a');
    assert k !in used;
  }

  // ----------------------------------------------------------------- a call's own steps

  /** A call as its caller enters it: what it creates, with or without a transaction id, holding which locks. */
  datatype Entry = Entry(dst: Key, xid: bool, locks: set<Key>)

  function Entering(i: nat, e: Entry): seq<Action> { [Enter(i, e.dst, e.xid, e.locks)] }

  function Prepared(s: State, e: Entry): Call { Call(Preparing, e.dst, 0, s.nextOid, e.xid, e.locks) }

  lemma EnteringRuns(s: State, i: nat, e: Entry)
    requires i !in s.calls && Loop(i) !in s.txs
    ensures Exec(s, Entering(i, e)) == Some(WithCall(s, i, Prepared(s, e)))
  {
    assert Next(s, Enter(i, e.dst, e.xid, e.locks)) == Some(WithCall(s, i, Prepared(s, e)));
    One(s, Enter(i, e.dst, e.xid, e.locks));
  }

  /** The read-only mode probe changes nothing. */
  lemma ProbeRuns(s: State, i: nat)
    requires At(s, i, Preparing)
    ensures Exec(s, [Probe(i, ReadOnly)]) == Some(s)
  {
    assert s.calls[i := s.calls[i]] == s.calls;
    assert Next(s, Probe(i, ReadOnly)) == Some(s);
    One(s, Probe(i, ReadOnly));
  }

  /** The state once the mirror table is committed. */
  function Mirror(s: State, dst: Key): State {
    s.(catalog := s.catalog[dst := s.nextOid], nextOid := s.nextOid + 1)
  }

  function CreatedCall(s: State, e: Entry): Call { Prepared(s, e).(phase := Created, oid := s.nextOid) }

  lemma CreateRuns(s: State, i: nat, e: Entry, reported: bool)
    requires i !in s.calls && Loop(i) !in s.txs && e.dst !in s.catalog && !Locked(s, e.dst, Loop(i))
    ensures Exec(WithCall(s, i, Prepared(s, e)), [CreateBegin(i)] + [CreateCommit(i, reported)]) ==
            Some(if reported then WithCall(Mirror(s, e.dst), i, CreatedCall(s, e)) else Mirror(s, e.dst))
  {
    var s0, dst := WithCall(s, i, Prepared(s, e)), e.dst;
    var c := Prepared(s, e).(phase := Creating, oid := s.nextOid);
    var open := s.(nextOid := s.nextOid + 1, txs := s.txs[Loop(i) := Tx(map[dst := Some(s.nextOid)], [], None)]);
    assert BeginCreate(s0, i) == Some(WithCall(open, i, c)) by {
      assert s.calls[i := Prepared(s, e)][i := c] == s.calls[i := c];
    }
    One(s0, CreateBegin(i));
    assert open.txs - {Loop(i)} == s.txs;
    WithCallLaws(Mirror(s, dst), i, c, Created);
    assert CommitCreate(WithCall(open, i, c), i, reported) ==
           Some(if reported then WithCall(Mirror(s, dst), i, c.(phase := Created)) else Mirror(s, dst));
    One(WithCall(open, i, c), CreateCommit(i, reported));
    Then(s0, [CreateBegin(i)], WithCall(open, i, c), [CreateCommit(i, reported)]);
  }

  /** CREATE TABLE refused at its end leaves nothing but a used oid. */
  lemma AbortedCreateRuns(s: State, i: nat, e: Entry)
    requires i !in s.calls && Loop(i) !in s.txs && e.dst !in s.catalog && !Locked(s, e.dst, Loop(i))
    ensures Exec(WithCall(s, i, Prepared(s, e)), [CreateBegin(i)] + [CreateAbort(i)]) ==
            Some(s.(nextOid := s.nextOid + 1))
  {
    var s0, dst := WithCall(s, i, Prepared(s, e)), e.dst;
    var c := Prepared(s, e).(phase := Creating, oid := s.nextOid);
    var open := s.(nextOid := s.nextOid + 1, txs := s.txs[Loop(i) := Tx(map[dst := Some(s.nextOid)], [], None)]);
    assert BeginCreate(s0, i) == Some(WithCall(open, i, c)) by {
      assert s.calls[i := Prepared(s, e)][i := c] == s.calls[i := c];
    }
    One(s0, CreateBegin(i));
    WithCallLaws(open, i, c, Created);
    assert open.txs - {Loop(i)} == s.txs;
    One(WithCall(open, i, c), CreateAbort(i));
    Then(s0, [CreateBegin(i)], WithCall(open, i, c), [CreateAbort(i)]);
  }

  function Asking(i: nat, announced: bool): seq<Action> {
    [Send(i)] + if announced then [Register(i)] else []
  }

  /** The create RPC took effect or did not. */
  function Informed(s: State, c: Call, announced: bool): State {
    if announced then s.(registry := s.registry[c.dst := c.oid]) else s
  }

  lemma AskingRuns(s: State, i: nat, c: Call, announced: bool)
    requires i !in s.calls && c.phase == Created
    ensures Exec(WithCall(s, i, c), Asking(i, announced)) ==
            Some(WithCall(Informed(s, c, announced), i, c.(phase := Registering(announced))))
  {
    var s0, c1 := WithCall(s, i, c), c.(phase := Registering(false));
    var s1 := WithCall(s, i, c1);
    WithCallLaws(s, i, c, Registering(false));
    assert Next(s0, Send(i)) == Some(s1);
    One(s0, Send(i));
    if announced {
      var s' := Informed(s, c, true);
      WithCallLaws(s', i, c1, Registering(true));
      assert Next(s1, Register(i)) == Some(WithCall(s', i, c.(phase := Registering(true))));
      One(s1, Register(i));
      Then(s0, [Send(i)], s1, [Register(i)]);
    } else {
      assert [Send(i)] + [] == [Send(i)];
    }
  }

  /** One action that ends the call, or rejects it. */
  lemma AnswerRuns(s: State, i: nat, c: Call, done: bool)
    requires i !in s.calls && c.phase == Registering(done)
    ensures done ==> Exec(WithCall(s, i, c), [Accept(i)]) == Some(s)
    ensures Exec(WithCall(s, i, c), [Reject(i)]) == Some(WithCall(s, i, c.(phase := Rejected)))
  {
    WithCallLaws(s, i, c, Rejected);
    if done {
      One(WithCall(s, i, c), Accept(i));
    }
    One(WithCall(s, i, c), Reject(i));
  }
}
