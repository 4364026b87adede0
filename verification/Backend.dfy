/**
 One Postgres backend running the extension's code, over a catalog and a moonlink
 registry it shares with others: the stream guard, the drop trigger with its
 transaction callbacks, and create_table with its compensation. Every method also
 records, as a ghost trace, the actions of the lifecycle machine it takes.
 */
module Backend {
  import opened Basics
  import opened Effects
  import opened Identifiers
  import opened ParseTable
  import opened Stream
  import Columns
  import L = Lifecycle
  import Loopback
  import Runs

  /** Committed tables by their qualified name, and the tables moonlink knows: which one it was told of. */
  class World {
    var catalog: map<Key, nat>
    var registry: map<Key, nat>
    var nextOid: nat

    constructor ()
      ensures catalog == map[] && registry == map[] && nextOid == 0
    {
      catalog, registry, nextOid := map[], map[], 0;
    }

    function View(): Shared
      reads this
    {
      Shared(catalog, registry, nextOid)
    }
  }

  class Process {
    const world: World
    const parallelWorker: bool
    const tx: L.TxId                 // the transaction this backend runs
    var now: nat                     // this backend's clock
    var cell: Cell                   // static STREAM
    var guard: bool                  // a MutexGuard of STREAM is alive
    var preCommit: seq<Key>          // callbacks registered for PreCommit
    var parallelPreCommit: seq<Key>  // callbacks registered for ParallelPreCommit
    var view: View                   // what the open transaction has done to tables
    var sent: seq<Key>               // drop RPCs sent so far
    ghost var trace: seq<L.Action>   // actions taken so far

    constructor (world: World, parallelWorker: bool, tx: L.TxId, now: nat)
      ensures this.world == world && this.parallelWorker == parallelWorker && this.tx == tx && this.now == now
      ensures cell == Untouched && !guard && preCommit == [] && parallelPreCommit == [] && view == map[] && sent == []
      ensures trace == []
    {
      this.world, this.parallelWorker, this.tx, this.now := world, parallelWorker, tx, now;
      cell, guard, preCommit, parallelPreCommit, view, sent := Untouched, false, [], [], map[], [];
      trace := [];
    }

    // ------------------------------------------------------------- the stream guard

    /** Unwinding through a live guard poisons the mutex. */
    method Panic()
      modifies this`cell, this`guard
      ensures !guard && cell == if old(guard) then Live(true) else old(cell)
    {
      if guard {
        cell, guard := Live(true), false;
      }
    }

    method GetStream(net: Net) returns (ok: bool)
      requires !guard
      modifies this`cell, this`guard, this`now
      ensures cell == Touch(old(cell), Connects(net, old(now)))
      ensures ok <==> cell == Live(false)
      ensures guard == ok
    {
      if cell == Untouched {
        var connected, at, delays := Connect(net, now);
        now := at;
        cell := if connected then Live(false) else InitPanicked;
      }
      ok := cell == Live(false);
      guard := ok;
    }

    /** create_snapshot, list_tables, load_files, optimize_table: `.expect` while the guard lives. */
    method GuardedCall(net: Net, rpc: bool) returns (ok: bool)
      requires !guard
      modifies this`cell, this`guard, this`now
      ensures !guard && cell == AfterCall(old(cell), Guarded(Connects(net, old(now)), rpc))
      ensures ok <==> rpc && cell == Live(false)
    {
      ok := GetStream(net);
      if ok && !rpc {
        Panic();
        ok := false;
      }
      guard := false;
    }

    // ------------------------------------------- the drop trigger and its callbacks

    /** sql_drop: two callbacks for every dropped table. */
    method DropTrigger(kw: Keywords, dropped: seq<Dropped>)
      modifies this`preCommit, this`parallelPreCommit
      ensures preCommit == old(preCommit) + TableKeys(kw, dropped)
      ensures parallelPreCommit == old(parallelPreCommit) + TableKeys(kw, dropped)
    {
      for i := 0 to |dropped|
        invariant preCommit == old(preCommit) + TableKeys(kw, dropped[..i])
        invariant parallelPreCommit == old(parallelPreCommit) + TableKeys(kw, dropped[..i])
      {
        var entry := dropped[i];
        assert dropped[..i + 1] == dropped[..i] + [entry];
        TableKeysAppend(kw, dropped[..i], [entry]);
        assert [entry][1..] == [];
        if entry.kind == "table" {
          var table := QuoteQualified(kw, entry.schema, entry.name);
          preCommit := preCommit + [table];
          parallelPreCommit := parallelPreCommit + [table];
        }
      }
      assert dropped[..|dropped|] == dropped;
    }

    function Callbacks(): seq<Key>
      reads this
    {
      if parallelWorker then parallelPreCommit else preCommit
    }

    /** The stream works for the callbacks, or there are none. */
    ghost predicate CallbackStream(net: Net)
      reads this
    {
      Callbacks() == [] || Touch(cell, Connects(net, now)) == Live(false)
    }

    /** One callback: the drop RPC for one table, `.expect` while the guard lives. */
    method FireOne(net: Net, key: Key, reply: Reply) returns (stream: bool)
      requires !guard
      modifies this`cell, this`guard, this`now, this`sent, this`trace, world`registry
      ensures !guard && cell == AfterCall(old(cell), Guarded(Connects(net, old(now)), reply.Removed?))
      ensures stream <==> Touch(old(cell), Connects(net, old(now))) == Live(false)
      ensures sent == old(sent) + if stream then [key] else []
      ensures world.registry == old(world.registry) - if stream && !reply.ErrorBefore? then {key} else {}
      ensures trace == old(trace) + [if stream then L.Flush(tx, reply) else L.Abort(tx)]
    {
      stream := GetStream(net);
      if !stream {
        Panic();
        trace := trace + [L.Abort(tx)];
        return;
      }
      sent := sent + [key];
      trace := trace + [L.Flush(tx, reply)];
      if !reply.ErrorBefore? {
        world.registry := world.registry - {key};
      }
      if !reply.Removed? {
        Panic();
      }
      guard := false;
    }

    /** The callbacks of the event this process fires, each one drop RPC, up to the first failure. */
    method FireCallbacks(net: Net, replies: nat -> Reply) returns (ok: bool)
      requires !guard
      modifies this`cell, this`guard, this`now, this`sent, this`trace, world`registry
      ensures !guard
      ensures cell == if old(Callbacks()) == [] then old(cell)
                      else AfterCall(old(cell), Guarded(Connects(net, old(now)), ok))
      ensures ok <==> old(CallbackStream(net)) && AllRemoved(replies, |old(Callbacks())|)
      ensures var n := if old(CallbackStream(net)) then SentCount(replies, |old(Callbacks())|) else 0;
              && n <= |old(Callbacks())|
              && sent == old(sent) + old(Callbacks())[..n]
              && world.registry == Told(old(world.registry), replies, old(Callbacks()), n)
      ensures trace == old(trace) + Fired(tx, |old(Callbacks())|, old(CallbackStream(net)), replies)
    {
      var n;
      ok, n := FireUpTo(Callbacks(), net, replies);
      CallbacksDone(tx, replies, old(Callbacks()), n, ok, old(CallbackStream(net)));
    }

    /** The callbacks one after the other; `n` RPCs were sent. */
    method FireUpTo(keys: seq<Key>, net: Net, replies: nat -> Reply) returns (ok: bool, n: nat)
      requires !guard
      modifies this`cell, this`guard, this`now, this`sent, this`trace, world`registry
      ensures !guard && n <= |keys| && (ok ==> n == |keys|) && UpTo(replies, n, ok)
      ensures sent == old(sent) + keys[..n] && world.registry == Told(old(world.registry), replies, keys, n)
      ensures trace == old(trace) + FiredUpTo(tx, replies, n, ok)
      ensures cell == if keys == [] then old(cell) else AfterCall(old(cell), Guarded(Connects(net, old(now)), ok))
      ensures n == 0 && !ok <==> keys != [] && Touch(old(cell), Connects(net, old(now))) != Live(false)
    {
      n, ok := 0, true;
      while ok && n < |keys|
        invariant !guard && n <= |keys| && UpTo(replies, n, ok)
        invariant sent == old(sent) + keys[..n] && world.registry == Told(old(world.registry), replies, keys, n)
        invariant n == 0 && ok ==> cell == old(cell) && now == old(now)
        invariant n > 0 ==> Touch(old(cell), Connects(net, old(now))) == Live(false) && cell == Live(!ok)
        invariant n == 0 && !ok ==> keys != [] && cell == Touch(old(cell), Connects(net, old(now))) != Live(false)
        invariant trace == old(trace) + FiredUpTo(tx, replies, n, ok)
        decreases |keys| - n, ok
      {
        var stream := FireOne(net, keys[n], replies(n));
        FiredStep(old(trace), tx, replies, n, stream);
        ok := stream && replies(n).Removed?;
        n := if stream then n + 1 else n;
      }
    }

    /** A DROP statement: the catalog change waits, the trigger runs; an error when a table is not there. */
    method ExecuteDrop(kw: Keywords, dropped: seq<Dropped>) returns (ok: bool)
      modifies this`preCommit, this`parallelPreCommit, this`view, this`trace
      ensures var after := DropAll(world.catalog, old(view), TableKeys(kw, dropped));
              && (ok <==> after.Some?)
              && view == (if ok then after.value else old(view))
      ensures preCommit == old(preCommit) + if ok then TableKeys(kw, dropped) else []
      ensures parallelPreCommit == old(parallelPreCommit) + if ok then TableKeys(kw, dropped) else []
      ensures trace == old(trace) + if ok then Drops(tx, TableKeys(kw, dropped)) else []
    {
      var after := DropAll(world.catalog, view, TableKeys(kw, dropped));
      if after.None? {
        return false;
      }
      view := after.value;
      trace := trace + Drops(tx, TableKeys(kw, dropped));
      DropTrigger(kw, dropped);
      return true;
    }

    /** A CREATE TABLE statement of an ordinary session. */
    method ExecuteCreate(key: Key) returns (ok: bool)
      requires tx.Session?
      modifies this`view, this`trace, world`nextOid
      ensures ok <==> L.Visible(world.catalog, old(view), key).None?
      ensures view == if ok then old(view)[key := Some(old(world.nextOid))] else old(view)
      ensures world.nextOid == old(world.nextOid) + if ok then 1 else 0
      ensures trace == old(trace) + if ok then [L.Create(tx.id, key)] else []
    {
      if L.Visible(world.catalog, view, key).Some? {
        return false;
      }
      view := view[key := Some(world.nextOid)];
      world.nextOid := world.nextOid + 1;
      trace := trace + [L.Create(tx.id, key)];
      return true;
    }

    /** Forgets the transaction's callbacks and changes. */
    method Reset()
      modifies this`preCommit, this`parallelPreCommit, this`view
      ensures preCommit == [] && parallelPreCommit == [] && view == map[]
    {
      preCommit, parallelPreCommit, view := [], [], map[];
    }

    /** PreCommit callbacks first; only if every one returns may the changes become permanent. */
    method Commit(net: Net, replies: nat -> Reply, commits: bool) returns (committed: bool)
      requires !guard
      modifies this`cell, this`guard, this`now, this`sent, this`preCommit, this`parallelPreCommit, this`view, this`trace
      modifies world`registry, world`catalog
      ensures !guard && preCommit == [] && parallelPreCommit == [] && view == map[]
      ensures cell == if old(Callbacks()) == [] then old(cell)
                      else AfterCall(old(cell), Guarded(Connects(net, old(now)),
                          AllRemoved(replies, |old(Callbacks())|)))
      ensures committed <==> DropsCommit(old(Callbacks()), old(CallbackStream(net)), replies, commits)
      ensures world.View() == AfterDrops(old(world.View()), old(view), old(Callbacks()), old(CallbackStream(net)),
              replies, commits)
      ensures var n := if old(CallbackStream(net)) then SentCount(replies, |old(Callbacks())|) else 0;
              sent == old(sent) + old(Callbacks())[..n]
      ensures trace == old(trace) + Ending(tx, |old(Callbacks())|, old(CallbackStream(net)), replies, commits)
    {
      ghost var total, stream := |Callbacks()|, CallbackStream(net);
      trace := trace + [L.Prepare(tx)];
      var fired := FireCallbacks(net, replies);
      committed := fired && commits;
      if committed {
        world.catalog := L.Applied(world.catalog, view);
      }
      ghost var last := if !fired then [] else [if commits then L.Commit(tx) else L.Abort(tx)];
      Join(old(trace), [L.Prepare(tx)], Fired(tx, total, stream, replies));
      Join(old(trace), [L.Prepare(tx)] + Fired(tx, total, stream, replies), last);
      Join([L.Prepare(tx)], Fired(tx, total, stream, replies), last);
      trace := trace + last;
      Reset();
    }

    /** The transaction so far. */
    ghost function Now(ok: bool): Progress
      reads this, world
    {
      Progress(view, preCommit, world.nextOid, ok)
    }

    method RunStatement(kw: Keywords, s: Statement) returns (ok: bool)
      requires tx.Session? && parallelPreCommit == preCommit
      modifies this`preCommit, this`parallelPreCommit, this`view, this`trace, world`nextOid
      ensures parallelPreCommit == preCommit
      ensures Now(ok) == AfterStatement(kw, world.catalog, old(Now(true)), s)
      ensures trace == old(trace) + StatementActions(kw, world.catalog, tx, old(Now(true)), s)
    {
      match s {
        case DropObjects(dropped) => ok := ExecuteDrop(kw, dropped);
        case CreateOne(schema, name) => ok := ExecuteCreate(StoredKey(kw, schema, name));
      }
    }

    /** The statements of a transaction, up to the first that fails. */
    method RunStatements(kw: Keywords, statements: seq<Statement>) returns (ok: bool)
      requires tx.Session? && parallelPreCommit == preCommit
      modifies this`preCommit, this`parallelPreCommit, this`view, this`trace, world`nextOid
      ensures parallelPreCommit == preCommit
      ensures Now(ok) == AfterStatements(kw, world.catalog, old(Now(true)), statements)
      ensures trace == old(trace) + AllActions(kw, world.catalog, tx, old(Now(true)), statements)
    {
      ghost var all := AllActions(kw, world.catalog, tx, Now(true), statements);
      var i := 0;
      ok := true;
      assert statements[0..] == statements;
      while ok && i < |statements|
        invariant i <= |statements|
        invariant parallelPreCommit == preCommit
        invariant AfterStatements(kw, world.catalog, Now(ok), statements[i..]) ==
                  AfterStatements(kw, world.catalog, old(Now(true)), statements)
        invariant trace + AllActions(kw, world.catalog, tx, Now(ok), statements[i..]) == old(trace) + all
        decreases |statements| - i
      {
        ghost var rest := statements[i + 1..];
        assert statements[i..][0] == statements[i] && statements[i..][1..] == rest;
        ghost var before, traced := Now(true), trace;
        ok := RunStatement(kw, statements[i]);
        Join(traced, StatementActions(kw, world.catalog, tx, before, statements[i]),
             AllActions(kw, world.catalog, tx, Now(ok), rest));
        i := i + 1;
      }
    }

    /** The end of a transaction: ROLLBACK or a failed statement, or else COMMIT. */
    method End(quits: bool, net: Net, replies: nat -> Reply, commits: bool) returns (committed: bool)
      requires !guard && !parallelWorker && parallelPreCommit == preCommit
      modifies this`cell, this`guard, this`now, this`sent, this`preCommit, this`parallelPreCommit, this`view, this`trace
      modifies world`registry, world`catalog
      ensures !guard && preCommit == [] && parallelPreCommit == [] && view == map[]
      ensures var stream := old(CallbackStream(net));
              && (committed <==> !quits && DropsCommit(old(preCommit), stream, replies, commits))
              && world.View() == (if quits then old(world.View())
                                  else AfterDrops(old(world.View()), old(view), old(preCommit), stream, replies,
                                      commits))
              && trace == old(trace) + (if quits then [L.Abort(tx)]
                  else Ending(tx, |old(preCommit)|, stream, replies, commits))
      ensures committed ==> sent == old(sent) + old(preCommit)
      ensures quits ==> sent == old(sent)
    {
      if quits {
        Reset();
        trace := trace + [L.Abort(tx)];
        return false;
      }
      AllAreSent(replies, preCommit);
      committed := Commit(net, replies, commits);
    }

    /**
     A whole top-level transaction. If it commits, every dropped table was announced to
     moonlink exactly once, in order; if it aborts before PreCommit nothing was; a failing
     announcement prevents the commit.
     */
    method RunTransaction(kw: Keywords, statements: seq<Statement>, aborts: bool,
                          net: Net, replies: nat -> Reply, commits: bool) returns (committed: bool)
      requires !guard && !parallelWorker && tx.Session? && preCommit == [] && parallelPreCommit == [] && view == map[]
      modifies this`cell, this`guard, this`now, this`sent, this`preCommit, this`parallelPreCommit, this`view, this`trace
      modifies world
      ensures !guard && preCommit == [] && parallelPreCommit == [] && view == map[]
      ensures var start := Start(old(world.View()));
              var p := AfterStatements(kw, old(world.catalog), start, statements);
              var stream := p.events == [] || Touch(old(cell), Connects(net, old(now))) == Live(false);
              && (committed <==> !aborts && p.ok && DropsCommit(p.events, stream, replies, commits))
              && world.View() == AfterTransaction(old(world.View()), p, aborts, stream, replies, commits)
              && (committed ==> sent == old(sent) + p.events)
              && (aborts || !p.ok ==> sent == old(sent))
              && trace == old(trace) + TransactionScript(kw, old(world.catalog), tx.id, start, statements, aborts,
                  stream, replies, commits)
    {
      ghost var start, cat := Now(true), world.catalog;
      trace := trace + [L.Begin(tx.id)];
      var ok := RunStatements(kw, statements);
      TransactionInPieces(old(trace), kw, cat, tx.id, start, statements, aborts, CallbackStream(net), replies, commits);
      committed := End(aborts || !ok, net, replies, commits);
    }

    // -------------------------------------------------------------------- create_table

    /** Connections, mode probes, column query. */
    method ReadSource(kw: Keywords, i: nat, env: Env) returns (ok: bool)
      modifies this`trace
      ensures ok <==> SourceReads(env) && TargetReady(env)
      ensures trace == old(trace) + Preparation(i, env)
    {
      if !env.sourceConnects {
        trace := trace + [L.Fail(i)];
        return false;
      }
      trace := trace + [L.Probe(i, L.ReadOnly)];
      var columns := if env.attributes.None? then Result.Panic("relation does not exist")
          else Columns.ColumnList(kw, env.attributes.value);
      if env.attributes.Some? {
        Columns.NoLiveColumnsNoMirror(kw, env.attributes.value);
      }
      if !env.sourceMode || columns.Panic? {
        trace := trace + [L.Fail(i)];
        return false;
      }
      var dstUri := Loopback.LoopbackUri(env.loopback);
      var srcUri := if env.srcUri.Some? then env.srcUri.value else dstUri;
      if dstUri != srcUri {
        if !env.targetConnects {
          trace := trace + [L.Fail(i)];
          return false;
        }
        trace := trace + [L.Probe(i, L.ReadOnly)];
        if !env.targetMode {
          trace := trace + [L.Fail(i)];
          return false;
        }
      }
      return true;
    }

    /** create_mooncake_table: CREATE TABLE over the loopback, in its own transaction. */
    method CreateMooncakeTable(kw: Keywords, i: nat, stored: Key, env: Env) returns (ok: bool)
      modifies this`trace, world`catalog, world`nextOid
      ensures var created := SourceReads(env) && TargetReady(env) && stored !in old(world.catalog)
              && !env.create.Refused?;
              && (ok <==> created && env.create.Committed?)
              && world.View() == if created then WithMirror(old(world.View()), stored) else old(world.View())
      ensures trace == old(trace) + Creation(i, stored in old(world.catalog), env)
    {
      var ready := ReadSource(kw, i, env);
      if !ready {
        return false;
      }
      if stored in world.catalog || env.create.Refused? {
        trace := trace + [L.Fail(i)];
        return false;
      }
      world.catalog := world.catalog[stored := world.nextOid];
      world.nextOid := world.nextOid + 1;
      trace := trace + ([L.CreateBegin(i)] + [L.CreateCommit(i, env.create.Committed?)]);
      ok := env.create.Committed?;
    }

    /** Best-effort cleanup: DROP TABLE IF EXISTS in a fresh loopback backend, which runs the drop trigger. */
    method DropMooncakeTable(kw: Keywords, i: nat, schema: string, name: string, env: Env)
      modifies this`trace, world`catalog, world`registry
      ensures var stored := StoredKey(kw, schema, name);
              && world.View() == (if stored in old(world.catalog) && env.cleanupConnects
                                  then LoneEffect(old(world.View()), stored, Connects(env.cleanupNet, now),
                                      env.cleanupReply, env.cleanupCommits)
                                  else old(world.View()))
              && trace == old(trace) + CleanupScript(i, stored in old(world.catalog), env,
                  Connects(env.cleanupNet, now))
    {
      if !env.cleanupConnects {
        trace := trace + [L.SkipCleanup(i)];
        return;
      }
      var loopback := new Process(world, false, L.Loop(i), now);
      loopback.DropIfExists(kw, schema, name, env);
      trace := trace + ([L.CleanupBegin(i)] + loopback.trace);
    }

    /** The loopback backend's whole life: DROP TABLE IF EXISTS in a transaction of its own. */
    method DropIfExists(kw: Keywords, schema: string, name: string, env: Env)
      requires tx.Loop? && !guard && !parallelWorker && cell == Untouched
      requires view == map[] && preCommit == [] && parallelPreCommit == []
      modifies this`cell, this`guard, this`now, this`sent, this`preCommit, this`parallelPreCommit, this`view, this`trace
      modifies world`registry, world`catalog
      ensures var stored := StoredKey(kw, schema, name);
              var present, stream := stored in old(world.catalog), Connects(env.cleanupNet, old(now));
              && world.View() == (if present
                                  then LoneEffect(old(world.View()), stored, stream,
                                                  env.cleanupReply, env.cleanupCommits)
                                  else old(world.View()))
              && trace == old(trace) + Ending(tx, if present then 1 else 0, !present || stream,
                  Always(env.cleanupReply), env.cleanupCommits)
    {
      var stored := StoredKey(kw, schema, name);
      ghost var before, stream := world.View(), Connects(env.cleanupNet, now);
      if stored in world.catalog {
        DropOne(kw, schema, name);
        LoneDrop(before, stored, stream, env.cleanupReply, env.cleanupCommits);
      } else {
        NoDrop(before, Always(env.cleanupReply), env.cleanupCommits);
      }
      var committed := Commit(env.cleanupNet, Always(env.cleanupReply), env.cleanupCommits);
    }

    /** DROP TABLE of one table that is there, in a backend that has done nothing yet. */
    method DropOne(kw: Keywords, schema: string, name: string)
      requires tx.Loop? && view == map[] && preCommit == [] && parallelPreCommit == []
      requires StoredKey(kw, schema, name) in world.catalog
      modifies this`preCommit, this`parallelPreCommit, this`view, this`trace
      ensures var stored := StoredKey(kw, schema, name);
              view == map[stored := None] && preCommit == parallelPreCommit == [stored] && trace == old(trace)
    {
      var entry := Dropped("table", StoredName(schema), StoredName(name));
      ghost var stored := StoredKey(kw, schema, name);
      assert TableKeys(kw, [entry]) == [stored] by { assert [entry][1..] == []; }
      DropsOne(world.catalog, stored);
      var dropped := ExecuteDrop(kw, [entry]);
    }

    /** The create RPC, and the cleanup when it is rejected. */
    method RegisterTable(kw: Keywords, i: nat, schema: string, name: string, oid: nat, env: Env) returns (ok: bool)
      requires !guard && StoredKey(kw, schema, name) in world.catalog
      modifies this`cell, this`guard, this`now, this`trace, world`catalog, world`registry
      ensures !guard && cell == AfterCall(old(cell), Released(Connects(env.net, old(now)), env.reply.Accepted?))
      ensures var stored, dst := StoredKey(kw, schema, name), QuoteQualified(kw, schema, name);
              var stream := Touch(old(cell), Connects(env.net, old(now))) == Live(false);
              && (ok <==> stream && env.reply.Accepted?)
              && world.View() == AfterRegister(old(world.View()), dst, stored, oid, env, stream,
                  Connects(env.cleanupNet, now))
              && trace == old(trace) + Registration(i, env, stream, Connects(env.cleanupNet, now))
    {
      var stream := GetStream(env.net);
      guard := false;
      if !stream {
        trace := trace + [L.StreamPanic(i)];
        Panic();
        return false;
      }
      if !env.reply.RejectedBefore? {
        world.registry := world.registry[QuoteQualified(kw, schema, name) := oid];
      }
      ghost var asking := Runs.Asking(i, !env.reply.RejectedBefore?);
      trace := trace + asking;
      if env.reply.Accepted? {
        Join(old(trace), asking, [L.Accept(i)]);
        trace := trace + [L.Accept(i)];
        return true;
      }
      trace := trace + [L.Reject(i)];
      DropMooncakeTable(kw, i, schema, name, env);
      ghost var cleaning := CleanupScript(i, true, env, Connects(env.cleanupNet, now));
      Join(old(trace) + asking, [L.Reject(i)], cleaning);
      Join(old(trace), asking, [L.Reject(i)] + cleaning);
      Panic();
      return false;
    }

    /** mooncake.create_table, its names already parsed; `i` numbers the call, `xid` and `locks` are its caller's. */
    method CreateTable(kw: Keywords, i: nat, schema: string, name: string, xid: bool, locks: set<Key>,
        env: Env) returns (ok: bool)
      requires !guard
      modifies this`cell, this`guard, this`now, this`trace, world
      ensures !guard
      ensures var stored, dst := StoredKey(kw, schema, name), QuoteQualified(kw, schema, name);
              var stream := Touch(old(cell), Connects(env.net, old(now))) == Live(false);
              var cleanupStream := Connects(env.cleanupNet, now);
              && (ok <==> FateOf(stored in old(world.catalog), env, stream, cleanupStream).Mirrored?)
              && world.View() == AfterCreate(old(world.View()), dst, stored, env, stream, cleanupStream)
              && trace == old(trace) +
                   CallScript(i, Runs.Entry(dst, xid, locks), stored in old(world.catalog), env, stream, cleanupStream)
      // the guard is gone before any panic: a rejection leaves the stream as an acceptance would
      ensures cell == AfterCall(old(cell), if MirrorMade(env, StoredKey(kw, schema, name) in old(world.catalog))
                                           then Released(Connects(env.net, old(now)), env.reply.Accepted?)
                                               else NoStream)
    {
      ghost var before, stored, dst := world.View(), StoredKey(kw, schema, name), QuoteQualified(kw, schema, name);
      ghost var stream := Touch(cell, Connects(env.net, now)) == Live(false);
      ghost var t, e, taken := trace, Runs.Entry(dst, xid, locks), stored in world.catalog;
      trace := trace + Runs.Entering(i, e);
      ok := CreateAndRegister(kw, i, schema, name, env);
      ScriptInPieces(t, i, e, taken, env, stream, Connects(env.cleanupNet, now));
      assert t + Runs.Entering(i, e) + Creation(i, taken, env) + []
          == t + Runs.Entering(i, e) + Creation(i, taken, env);
      if MirrorMade(env, taken) {
        RegisteredIsCreated(before, dst, stored, env, stream, Connects(env.cleanupNet, now));
      }
    }

    /** The two phases: the mirror table first, then moonlink. */
    method CreateAndRegister(kw: Keywords, i: nat, schema: string, name: string, env: Env) returns (ok: bool)
      requires !guard
      modifies this`cell, this`guard, this`now, this`trace, world
      ensures !guard
      ensures var stored, dst := StoredKey(kw, schema, name), QuoteQualified(kw, schema, name);
              var stream, taken := Touch(old(cell), Connects(env.net, old(now))) == Live(false),
                  stored in old(world.catalog);
              MirrorMade(env, taken) ==>
                && (ok <==> stream && env.reply.Accepted?)
                && cell == AfterCall(old(cell), Released(Connects(env.net, old(now)), env.reply.Accepted?))
                && world.View() == AfterRegister(WithMirror(old(world.View()), stored), dst, stored, old(world.nextOid),
                                                 env, stream, Connects(env.cleanupNet, now))
                && trace == old(trace) + Creation(i, taken, env) + Registration(i, env, stream,
                    Connects(env.cleanupNet, now))
      ensures var stored := StoredKey(kw, schema, name);
              var taken := stored in old(world.catalog);
              !MirrorMade(env, taken) ==>
                && !ok && cell == old(cell) && trace == old(trace) + Creation(i, taken, env)
                && world.View() == if taken || env.create.Refused? || !SourceReads(env) || !TargetReady(env)
                                   then old(world.View()) else WithMirror(old(world.View()), stored)
    {
      var created := CreateMooncakeTable(kw, i, StoredKey(kw, schema, name), env);
      if !created {
        Panic();
        return false;
      }
      ok := RegisterTable(kw, i, schema, name, world.nextOid - 1, env);
    }
  }
}
