/**
 A create_table call, as Backend.Process.CreateTable runs it, is a run of the lifecycle
 machine: for every outcome of its connections, replies and cleanup, the actions it
 records lead, from any state in which nobody else holds its table, to the catalog and
 registry that its contract gives.
 */
module CallRuns {
  import opened Basics
  import opened Effects
  import opened Lifecycle
  import opened Runs
  import opened TransactionRuns

  /** A call after `e` was entered, in some phase and with its table. */
  predicate Free(s: State, i: nat, c: Call) {
    i !in s.calls && Loop(i) !in s.txs && !Locked(s, c.dst, Loop(i))
  }

  lemma CleanupOpens(s: State, i: nat, c: Call)
    requires Free(s, i, c) && c.phase == Rejected && c.dst in s.catalog
    ensures Exec(WithCall(s, i, c), [CleanupBegin(i)]) ==
            Some(WithTx(WithCall(s, i, c.(phase := CleaningUp)), Loop(i), DropTx(c.dst, None)))
  {
    var s0 := WithCall(s, i, c);
    WithCallLaws(s, i, c, CleaningUp);
    assert BeginCleanup(s0, i) == Some(WithTx(WithCall(s, i, c.(phase := CleaningUp)), Loop(i), DropTx(c.dst, None)));
    One(s0, CleanupBegin(i));
  }

  function Cleaned(s: State, k: Key, env: Env, cleanupStream: bool): State {
    if env.cleanupConnects
    then WithShared(s, LoneEffect(Shares(s), k, cleanupStream, env.cleanupReply, env.cleanupCommits)) else s
  }

  lemma CleanupEnds(s: State, i: nat, c: Call, env: Env, cleanupStream: bool)
    requires i !in s.calls && Loop(i) !in s.txs && c.phase == CleaningUp && env.cleanupConnects
    ensures Exec(WithTx(WithCall(s, i, c), Loop(i), DropTx(c.dst, None)),
                 Ending(Loop(i), 1, cleanupStream, Always(env.cleanupReply), env.cleanupCommits)) ==
            Some(Cleaned(s, c.dst, env, cleanupStream))
  {
    var idle, tx := WithCall(s, i, c), DropTx(c.dst, None);
    EndingRuns(idle, Loop(i), tx, cleanupStream, Always(env.cleanupReply), env.cleanupCommits);
    LoneDrop(Shares(s), c.dst, cleanupStream, env.cleanupReply, env.cleanupCommits);
    WithCallLaws(Cleaned(s, c.dst, env, cleanupStream), i, c, CleaningUp);
  }

  /** Every outcome of the cleanup. */
  lemma CleanupRuns(s: State, i: nat, c: Call, env: Env, cleanupStream: bool)
    requires Free(s, i, c) && c.phase == Rejected && c.dst in s.catalog
    ensures Exec(WithCall(s, i, c), CleanupScript(i, true, env, cleanupStream)) ==
            Some(Cleaned(s, c.dst, env, cleanupStream))
  {
    var s0 := WithCall(s, i, c);
    if env.cleanupConnects {
      var ending := Ending(Loop(i), 1, cleanupStream, Always(env.cleanupReply), env.cleanupCommits);
      var busy := WithTx(WithCall(s, i, c.(phase := CleaningUp)), Loop(i), DropTx(c.dst, None));
      CleanupOpens(s, i, c);
      CleanupEnds(s, i, c.(phase := CleaningUp), env, cleanupStream);
      Then(s0, [CleanupBegin(i)], busy, ending);
    } else {
      WithCallLaws(s, i, c, Rejected);
      assert Next(s0, SkipCleanup(i)) == Some(s);
      One(s0, SkipCleanup(i));
    }
  }

  /** From the committed mirror table on. */
  function AfterRegistration(s: State, c: Call, env: Env, stream: bool, cleanupStream: bool): State {
    WithShared(s, AfterRegister(Shares(s), c.dst, c.dst, c.oid, env, stream, cleanupStream))
  }

  lemma RejectionRuns(s: State, i: nat, c: Call, env: Env, cleanupStream: bool)
    requires Free(s, i, c) && c.phase == Registering(!env.reply.RejectedBefore?) && c.dst in s.catalog
             && !env.reply.Accepted?
    ensures Exec(WithCall(s, i, c), [Reject(i)] + CleanupScript(i, true, env, cleanupStream)) ==
            Some(Cleaned(s, c.dst, env, cleanupStream))
  {
    var rejected := c.(phase := Rejected);
    AnswerRuns(s, i, c, !env.reply.RejectedBefore?);
    CleanupRuns(s, i, rejected, env, cleanupStream);
    Then(WithCall(s, i, c), [Reject(i)], WithCall(s, i, rejected), CleanupScript(i, true, env, cleanupStream));
  }

  lemma RegistrationRuns(s: State, i: nat, c: Call, env: Env, stream: bool, cleanupStream: bool)
    requires Free(s, i, c) && c.phase == Created && c.dst in s.catalog
    ensures Exec(WithCall(s, i, c), Registration(i, env, stream, cleanupStream)) ==
            Some(AfterRegistration(s, c, env, stream, cleanupStream))
  {
    var s0, announced := WithCall(s, i, c), !env.reply.RejectedBefore?;
    if !stream {
      WithCallLaws(s, i, c, Created);
      assert Next(s0, StreamPanic(i)) == Some(s);
      One(s0, StreamPanic(i));
    } else {
      var told, asked := Informed(s, c, announced), c.(phase := Registering(announced));
      AskingRuns(s, i, c, announced);
      AnswerRuns(told, i, asked, announced);
      if env.reply.Accepted? {
        Then(s0, Asking(i, announced), WithCall(told, i, asked), [Accept(i)]);
      } else {
        RejectionRuns(told, i, asked, env, cleanupStream);
        Then(s0, Asking(i, announced), WithCall(told, i, asked),
            [Reject(i)] + CleanupScript(i, true, env, cleanupStream));
      }
    }
  }

  // ------------------------------------------------------------------ before that point

  lemma FailRuns(s: State, i: nat, c: Call)
    requires i !in s.calls && c.phase == Preparing
    ensures Exec(WithCall(s, i, c), [Fail(i)]) == Some(s)
  {
    WithCallLaws(s, i, c, Preparing);
    assert Next(WithCall(s, i, c), Fail(i)) == Some(s);
    One(WithCall(s, i, c), Fail(i));
  }

  /** Connecting again, when the source URI is not the loopback's text. */
  function Reconnection(i: nat, env: Env): seq<Action> {
    if !Reconnects(env) then []
    else if !env.targetConnects then [Fail(i)]
    else [Probe(i, ReadOnly)] + if env.targetMode then [] else [Fail(i)]
  }

  lemma ReconnectionRuns(s: State, i: nat, c: Call, env: Env)
    requires i !in s.calls && c.phase == Preparing
    ensures Exec(WithCall(s, i, c), Reconnection(i, env)) == Some(if TargetReady(env) then WithCall(s, i, c) else s)
  {
    var s0 := WithCall(s, i, c);
    FailRuns(s, i, c);
    ProbeRuns(s0, i);
    if Reconnects(env) && env.targetConnects {
      if env.targetMode {
        assert [Probe(i, ReadOnly)] + [] == [Probe(i, ReadOnly)];
      } else {
        Then(s0, [Probe(i, ReadOnly)], s0, [Fail(i)]);
      }
    }
  }

  lemma PreparationRuns(s: State, i: nat, c: Call, env: Env)
    requires i !in s.calls && c.phase == Preparing
    ensures Exec(WithCall(s, i, c), Preparation(i, env)) ==
            Some(if SourceReads(env) && TargetReady(env) then WithCall(s, i, c) else s)
  {
    var s0 := WithCall(s, i, c);
    FailRuns(s, i, c);
    if env.sourceConnects {
      var rest := if SourceReads(env) then Reconnection(i, env) else [Fail(i)];
      ProbeRuns(s0, i);
      ReconnectionRuns(s, i, c, env);
      Then(s0, [Probe(i, ReadOnly)], s0, rest);
      assert Preparation(i, env) == [Probe(i, ReadOnly)] + rest;
    }
  }

  /** The state after create_mooncake_table: with the call going on, or without it. */
  function CreatedState(s: State, i: nat, e: Entry, env: Env): State {
    if !SourceReads(env) || !TargetReady(env) || e.dst in s.catalog || env.create.Refused? then s
    else if env.create.Committed? then WithCall(Mirror(s, e.dst), i, CreatedCall(s, e))
    else Mirror(s, e.dst)
  }

  lemma CreationRuns(s: State, i: nat, e: Entry, env: Env)
    requires Free(s, i, Prepared(s, e))
    ensures Exec(WithCall(s, i, Prepared(s, e)), Creation(i, e.dst in s.catalog, env))
            == Some(CreatedState(s, i, e, env))
  {
    var s0 := WithCall(s, i, Prepared(s, e));
    PreparationRuns(s, i, Prepared(s, e), env);
    if !SourceReads(env) || !TargetReady(env) {
      assert Preparation(i, env) + [] == Preparation(i, env);
    } else if e.dst in s.catalog || env.create.Refused? {
      FailRuns(s, i, Prepared(s, e));
      Then(s0, Preparation(i, env), s0, [Fail(i)]);
    } else {
      CreateRuns(s, i, e, env.create.Committed?);
      Then(s0, Preparation(i, env), s0, [CreateBegin(i)] + [CreateCommit(i, env.create.Committed?)]);
    }
  }

  // --------------------------------------------------------------------- the whole call

  lemma MirroredRuns(s: State, i: nat, e: Entry, env: Env, stream: bool, cleanupStream: bool)
    requires Free(s, i, Prepared(s, e)) && MirrorMade(env, e.dst in s.catalog)
    ensures Exec(CreatedState(s, i, e, env), Registration(i, env, stream, cleanupStream)) ==
            Some(WithShared(s, AfterCreate(Shares(s), e.dst, e.dst, env, stream, cleanupStream)))
  {
    RegistrationRuns(Mirror(s, e.dst), i, CreatedCall(s, e), env, stream, cleanupStream);
    RegisteredIsCreated(Shares(s), e.dst, e.dst, env, stream, cleanupStream);
  }

  /**
   From any state in which nobody else holds its table, the actions recorded by
   CreateTable lead to what its contract says, for a name stored as given.
   */
  lemma CreateTableIsARun(s: State, i: nat, e: Entry, env: Env, stream: bool, cleanupStream: bool)
    requires i !in s.calls && Loop(i) !in s.txs && !Locked(s, e.dst, Loop(i))
    ensures Exec(s, CallScript(i, e, e.dst in s.catalog, env, stream, cleanupStream)) ==
            Some(WithShared(s, AfterCreate(Shares(s), e.dst, e.dst, env, stream, cleanupStream)))
  {
    var taken, s0, s1 := e.dst in s.catalog, WithCall(s, i, Prepared(s, e)), CreatedState(s, i, e, env);
    var registration := if MirrorMade(env, taken) then Registration(i, env, stream, cleanupStream) else [];
    EnteringRuns(s, i, e);
    CreationRuns(s, i, e, env);
    if MirrorMade(env, taken) {
      MirroredRuns(s, i, e, env, stream, cleanupStream);
    } else {
      assert s.registry - {} == s.registry;
    }
    Then(s0, Creation(i, taken, env), s1, registration);
    Then(s, Entering(i, e), s0, Creation(i, taken, env) + registration);
  }
}
