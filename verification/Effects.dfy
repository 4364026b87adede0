/**
 What the extension's transactions and its create_table do to catalog and registry, as
 functions of what the outside world answers, and the actions of the lifecycle machine
 they consist of. Backend proves the code against these functions.
 */
module Effects {
  import opened Basics
  import opened Identifiers
  import opened ParseTable
  import opened Stream
  import Columns
  import L = Lifecycle
  import Loopback
  import Runs

  datatype Shared = Shared(catalog: map<Key, nat>, registry: map<Key, nat>, nextOid: nat)

  /** Every table moonlink knows is committed: that very table. */
  predicate Known(w: Shared) {
    forall k :: k in w.registry ==> k in w.catalog && w.catalog[k] == w.registry[k]
  }

  /** A row of pg_event_trigger_dropped_objects(). */
  datatype Dropped = Dropped(kind: string, schema: string, name: string)

  /** The drop trigger's query: quote_ident(schema) || '.' || quote_ident(name) of the tables, in order. */
  function TableKeys(kw: Keywords, dropped: seq<Dropped>): seq<Key> {
    if dropped == [] then [] else KeyOf(kw, dropped[0]) + TableKeys(kw, dropped[1..])
  }

  function KeyOf(kw: Keywords, entry: Dropped): seq<Key> {
    if entry.kind == "table" then [QuoteQualified(kw, entry.schema, entry.name)] else []
  }

  lemma KeysAssociate(a: seq<Key>, b: seq<Key>, c: seq<Key>)
    ensures a + (b + c) == a + b + c
  {
  }

  lemma {:induction false} TableKeysAppend(kw: Keywords, a: seq<Dropped>, b: seq<Dropped>)
    ensures TableKeys(kw, a + b) == TableKeys(kw, a) + TableKeys(kw, b)
  {
    if a == [] {
      assert a + b == b;
    } else {
      assert (a + b)[1..] == a[1..] + b;
      TableKeysAppend(kw, a[1..], b);
      KeysAssociate(KeyOf(kw, a[0]), TableKeys(kw, a[1..]), TableKeys(kw, b));
    }
  }

  /** One key for every dropped table, in order, and none for anything else. */
  lemma {:induction false} KeysAreTheDroppedTables(kw: Keywords, dropped: seq<Dropped>)
    ensures var tables := Filter((row: Dropped) => row.kind == "table", dropped);
            && |TableKeys(kw, dropped)| == |tables|
            && forall k | 0 <= k < |tables| ::
                 TableKeys(kw, dropped)[k] == QuoteQualified(kw, tables[k].schema, tables[k].name)
  {
    if dropped != [] {
      KeysAreTheDroppedTables(kw, dropped[1..]);
    }
  }

  predicate AllRemoved(replies: nat -> Reply, total: nat) {
    forall k | 0 <= k < total :: replies(k).Removed?
  }

  /** How many drop RPCs one commit sends: all of them, or up to the first that fails. */
  function SentCount(replies: nat -> Reply, total: nat): (n: nat)
    ensures n <= total
  {
    if total == 0 then 0
    else if AllRemoved(replies, total - 1) then total
    else SentCount(replies, total - 1)
  }

  lemma {:induction false} SentUpToFailure(replies: nat -> Reply, total: nat, i: nat)
    requires i < total && AllRemoved(replies, i) && !replies(i).Removed?
    ensures SentCount(replies, total) == i + 1
  {
    if i < total - 1 {
      SentUpToFailure(replies, total - 1, i);
    }
  }

  /** Position of the first RPC that fails. */
  function FirstFailure(replies: nat -> Reply, total: nat): (n: nat)
    requires !AllRemoved(replies, total)
    ensures n < total && AllRemoved(replies, n) && !replies(n).Removed?
  {
    if AllRemoved(replies, total - 1) then total - 1 else FirstFailure(replies, total - 1)
  }

  lemma FailureIsFirst(replies: nat -> Reply, total: nat, i: nat)
    requires i < total && AllRemoved(replies, i) && !replies(i).Removed?
    ensures !AllRemoved(replies, total) && FirstFailure(replies, total) == i
  {
  }

  /** Keys whose removal took effect among the RPCs sent. */
  function Effective(replies: nat -> Reply, keys: seq<Key>): set<Key> {
    set k | 0 <= k < |keys| && !replies(k).ErrorBefore? :: keys[k]
  }

  lemma EffectiveGrows(replies: nat -> Reply, keys: seq<Key>, i: nat)
    requires i < |keys|
    ensures Effective(replies, keys[..i + 1]) ==
            Effective(replies, keys[..i]) + if replies(i).ErrorBefore? then {} else {keys[i]}
  {
    var a, b := keys[..i], keys[..i + 1];
    assert forall k | 0 <= k < i :: a[k] == b[k];
    assert b[i] == keys[i];
    forall x | x in Effective(replies, a) ensures x in Effective(replies, b) {
      var k :| 0 <= k < |a| && !replies(k).ErrorBefore? && a[k] == x;
      assert b[k] == x;
    }
    forall x | x in Effective(replies, b) ensures x in Effective(replies, a)
        || (x == keys[i] && !replies(i).ErrorBefore?) {
      var k :| 0 <= k < |b| && !replies(k).ErrorBefore? && b[k] == x;
      if k < i { assert a[k] == x; }
    }
  }

  /** The catalog's name for a table created as `schema.name`. */
  function StoredKey(kw: Keywords, schema: string, name: string): Key {
    QuoteQualified(kw, StoredName(schema), StoredName(name))
  }

  predicate Fits(schema: string, name: string) {
    Utf8Size(schema) <= MAX_NAME_BYTES && Utf8Size(name) <= MAX_NAME_BYTES
  }

  lemma StoredAsGiven(kw: Keywords, schema: string, name: string)
    ensures Fits(schema, name) ==> StoredKey(kw, schema, name) == QuoteQualified(kw, schema, name)
  {
    ClipKeepsExactlyWhatFits(schema, MAX_NAME_BYTES);
    ClipKeepsExactlyWhatFits(name, MAX_NAME_BYTES);
  }

  // --------------------------------------------------------------- ordinary transactions

  type View = map<Key, Option<nat>>

  /** A statement of an ordinary session, as far as tables are concerned. */
  datatype Statement = DropObjects(dropped: seq<Dropped>) | CreateOne(schema: string, name: string)

  /** How far a transaction has come: its tables, its drop events, and whether no statement failed. */
  datatype Progress = Progress(view: View, events: seq<Key>, nextOid: nat, ok: bool)

  /** The view once `keys` are dropped one after the other; none when one of them is not there. */
  function DropAll(catalog: map<Key, nat>, view: View, keys: seq<Key>): Option<View>
    decreases |keys|
  {
    if keys == [] then Some(view)
    else if L.Visible(catalog, view, keys[0]).None? then None
    else DropAll(catalog, view[keys[0] := None], keys[1..])
  }

  function AfterStatement(kw: Keywords, catalog: map<Key, nat>, p: Progress, s: Statement): Progress {
    match s
    case DropObjects(dropped) =>
      var keys := TableKeys(kw, dropped);
      (match DropAll(catalog, p.view, keys)
       case None => p.(ok := false)
       case Some(view) => p.(view := view, events := p.events + keys))
    case CreateOne(schema, name) =>
      var key := StoredKey(kw, schema, name);
      if L.Visible(catalog, p.view, key).Some? then p.(ok := false)
      else p.(view := p.view[key := Some(p.nextOid)], nextOid := p.nextOid + 1)
  }

  /** A failing statement is the last. */
  function AfterStatements(kw: Keywords, catalog: map<Key, nat>, p: Progress, statements: seq<Statement>): Progress
    decreases |statements|
  {
    if statements == [] || !p.ok then p
    else AfterStatements(kw, catalog, AfterStatement(kw, catalog, p, statements[0]), statements[1..])
  }

  function Start(w: Shared): Progress { Progress(map[], [], w.nextOid, true) }

  /** The tables dropped by the statements, in order, as often as they are dropped. */
  function DroppedKeys(kw: Keywords, statements: seq<Statement>): seq<Key>
    decreases |statements|
  {
    if statements == [] then []
    else
      (if statements[0].DropObjects? then TableKeys(kw, statements[0].dropped) else [])
      + DroppedKeys(kw, statements[1..])
  }

  /** The rows that the DROP statements hand to the trigger, one statement after the other. */
  function DroppedRows(statements: seq<Statement>): seq<Dropped>
    decreases |statements|
  {
    if statements == [] then []
    else (if statements[0].DropObjects? then statements[0].dropped else []) + DroppedRows(statements[1..])
  }

  lemma {:induction false} DroppedKeysOfRows(kw: Keywords, statements: seq<Statement>)
    ensures DroppedKeys(kw, statements) == TableKeys(kw, DroppedRows(statements))
    decreases |statements|
  {
    if statements != [] {
      DroppedKeysOfRows(kw, statements[1..]);
      TableKeysAppend(kw, if statements[0].DropObjects? then statements[0].dropped else [],
                      DroppedRows(statements[1..]));
    }
  }

  lemma StatementEvents(kw: Keywords, catalog: map<Key, nat>, p: Progress, s: Statement)
    requires AfterStatement(kw, catalog, p, s).ok
    ensures AfterStatement(kw, catalog, p, s).events ==
            p.events + if s.DropObjects? then TableKeys(kw, s.dropped) else []
  {
  }

  lemma {:induction false} EventsAppend(kw: Keywords, catalog: map<Key, nat>, p: Progress, statements: seq<Statement>)
    requires AfterStatements(kw, catalog, p, statements).ok
    ensures AfterStatements(kw, catalog, p, statements).events == p.events + DroppedKeys(kw, statements)
    decreases |statements|
  {
    if statements != [] {
      var s, rest := statements[0], statements[1..];
      var next := AfterStatement(kw, catalog, p, s);
      StatementsStayFailed(kw, catalog, next, rest);
      StatementEvents(kw, catalog, p, s);
      EventsAppend(kw, catalog, next, rest);
      KeysAssociate(p.events, if s.DropObjects? then TableKeys(kw, s.dropped) else [], DroppedKeys(kw, rest));
    }
  }

  /** A transaction whose statements succeed records each table they drop, in order, under its quoted name. */
  lemma EventsAreTheDrops(kw: Keywords, w: Shared, statements: seq<Statement>)
    requires AfterStatements(kw, w.catalog, Start(w), statements).ok
    ensures var events := AfterStatements(kw, w.catalog, Start(w), statements).events;
            var tables := Filter((row: Dropped) => row.kind == "table", DroppedRows(statements));
            && events == DroppedKeys(kw, statements)
            && |events| == |tables|
            && forall k | 0 <= k < |tables| :: events[k] == QuoteQualified(kw, tables[k].schema, tables[k].name)
  {
    EventsAppend(kw, w.catalog, Start(w), statements);
    DroppedKeysOfRows(kw, statements);
    KeysAreTheDroppedTables(kw, DroppedRows(statements));
  }

  lemma StatementsStayFailed(kw: Keywords, catalog: map<Key, nat>, p: Progress, statements: seq<Statement>)
    ensures AfterStatements(kw, catalog, p, statements).ok ==> p.ok
  {
  }

  /** What a transaction's own changes may be: each name taken from the catalog was dropped first. */
  ghost predicate Covered(catalog: map<Key, nat>, p: Progress) {
    && (forall k :: k in p.view && k in catalog ==> k in p.events)
    && (forall k :: k in p.events ==> k in p.view)
  }

  lemma {:induction false} DropAllCovers(catalog: map<Key, nat>, view: View, keys: seq<Key>)
    requires DropAll(catalog, view, keys).Some?
    ensures var after := DropAll(catalog, view, keys).value;
            forall k :: k in after <==> k in view || k in keys
    decreases |keys|
  {
    if keys != [] {
      DropAllCovers(catalog, view[keys[0] := None], keys[1..]);
      assert forall k :: k in keys <==> k == keys[0] || k in keys[1..];
    }
  }

  lemma {:induction false} StatementsCover(kw: Keywords, catalog: map<Key, nat>, p: Progress,
      statements: seq<Statement>)
    requires Covered(catalog, p)
    ensures Covered(catalog, AfterStatements(kw, catalog, p, statements))
    decreases |statements|
  {
    if statements != [] && p.ok {
      var next := AfterStatement(kw, catalog, p, statements[0]);
      match statements[0] {
        case DropObjects(dropped) =>
          var keys := TableKeys(kw, dropped);
          if DropAll(catalog, p.view, keys).Some? {
            DropAllCovers(catalog, p.view, keys);
          }
        case CreateOne(schema, name) =>
          var key := StoredKey(kw, schema, name);
          assert L.Visible(catalog, p.view, key).None? ==> key in p.view || key !in catalog;
      }
      StatementsCover(kw, catalog, next, statements[1..]);
    }
  }

  /**
   What ending a transaction does: the removals sent, and its own changes only if every
   one of them was answered.
   */
  function AfterDrops(w: Shared, view: View, keys: seq<Key>, stream: bool, replies: nat -> Reply,
      commits: bool): Shared {
    Shared(if DropsCommit(keys, stream, replies, commits) then L.Applied(w.catalog, view) else w.catalog,
           if stream then Told(w.registry, replies, keys, SentCount(replies, |keys|)) else w.registry,
           w.nextOid)
  }

  predicate DropsCommit(keys: seq<Key>, stream: bool, replies: nat -> Reply, commits: bool) {
    commits && stream && AllRemoved(replies, |keys|)
  }

  /** A whole transaction; one that aborts leaves only used-up oids. */
  function AfterTransaction(w: Shared, p: Progress, aborts: bool, stream: bool, replies: nat -> Reply,
      commits: bool): Shared {
    var w1 := w.(nextOid := p.nextOid);
    if aborts || !p.ok then w1 else AfterDrops(w1, p.view, p.events, stream, replies, commits)
  }

  /** The removals that take effect are those of the RPCs sent that did not fail first. */
  lemma EffectiveMeans(replies: nat -> Reply, keys: seq<Key>, n: nat, x: Key)
    requires n <= |keys|
    ensures x in Effective(replies, keys[..n]) <==>
            exists k :: 0 <= k < n && !replies(k).ErrorBefore? && keys[k] == x
  {
    if k :| 0 <= k < n && !replies(k).ErrorBefore? && keys[k] == x {
      assert keys[..n][k] == x;
    }
    if x in Effective(replies, keys[..n]) {
      var k :| 0 <= k < |keys[..n]| && !replies(k).ErrorBefore? && keys[..n][k] == x;
      assert keys[k] == x;
    }
  }

  // ------------------------------------------ the same statements on the catalog itself

  /** Each dropped table leaves the catalog at once; none when one of them is not there. */
  function DropDirectly(kw: Keywords, catalog: map<Key, nat>, dropped: seq<Dropped>): Option<map<Key, nat>>
    decreases |dropped|
  {
    if dropped == [] then Some(catalog)
    else if dropped[0].kind != "table" then DropDirectly(kw, catalog, dropped[1..])
    else
      var key := QuoteQualified(kw, dropped[0].schema, dropped[0].name);
      if key !in catalog then None else DropDirectly(kw, catalog - {key}, dropped[1..])
  }

  /** The catalog after the statements, one by one, and the next oid; none when one of them fails. */
  function Directly(kw: Keywords, catalog: map<Key, nat>, nextOid: nat,
      statements: seq<Statement>): Option<(map<Key, nat>, nat)>
    decreases |statements|
  {
    if statements == [] then Some((catalog, nextOid))
    else
      match statements[0]
      case DropObjects(dropped) =>
        (match DropDirectly(kw, catalog, dropped)
         case None => None
         case Some(left) => Directly(kw, left, nextOid, statements[1..]))
      case CreateOne(schema, name) =>
        var key := QuoteQualified(kw, StoredName(schema), StoredName(name));
        if key in catalog then None else Directly(kw, catalog[key := nextOid], nextOid + 1, statements[1..])
  }

  lemma ViewMeans(catalog: map<Key, nat>, view: View, k: Key, oid: nat)
    ensures var now := L.Applied(catalog, view);
            && L.Visible(catalog, view, k) == (if k in now then Some(now[k]) else None)
            && L.Applied(catalog, view[k := None]) == now - {k}
            && L.Applied(catalog, view[k := Some(oid)]) == now[k := oid]
  {
  }

  lemma {:induction false} DropAllIsDirect(kw: Keywords, catalog: map<Key, nat>, view: View, dropped: seq<Dropped>)
    ensures var after := DropAll(catalog, view, TableKeys(kw, dropped));
            DropDirectly(kw, L.Applied(catalog, view), dropped) ==
              if after.None? then None else Some(L.Applied(catalog, after.value))
    decreases |dropped|
  {
    if dropped != [] {
      if dropped[0].kind == "table" {
        var key := QuoteQualified(kw, dropped[0].schema, dropped[0].name);
        ViewMeans(catalog, view, key, 0);
        assert TableKeys(kw, dropped)[1..] == TableKeys(kw, dropped[1..]);
        DropAllIsDirect(kw, catalog, view[key := None], dropped[1..]);
      } else {
        assert TableKeys(kw, dropped) == TableKeys(kw, dropped[1..]);
        DropAllIsDirect(kw, catalog, view, dropped[1..]);
      }
    }
  }

  /** What a transaction would commit is the catalog its statements make of it one by one. */
  lemma {:induction false} StatementsAreDirect(kw: Keywords, catalog: map<Key, nat>, p: Progress,
      statements: seq<Statement>)
    requires p.ok
    ensures var end := AfterStatements(kw, catalog, p, statements);
            Directly(kw, L.Applied(catalog, p.view), p.nextOid, statements) ==
              if end.ok then Some((L.Applied(catalog, end.view), end.nextOid)) else None
    decreases |statements|
  {
    if statements != [] {
      var next := AfterStatement(kw, catalog, p, statements[0]);
      match statements[0] {
        case DropObjects(dropped) => DropAllIsDirect(kw, catalog, p.view, dropped);
        case CreateOne(schema, name) => ViewMeans(catalog, p.view, StoredKey(kw, schema, name), p.nextOid);
      }
      if next.ok {
        StatementsAreDirect(kw, catalog, next, statements[1..]);
      }
    }
  }

  lemma {:induction false} SentBefore(replies: nat -> Reply, total: nat, k: nat)
    ensures k < SentCount(replies, total) <==> k < total && AllRemoved(replies, k)
  {
    if total > 0 && !AllRemoved(replies, total - 1) {
      SentBefore(replies, total - 1, k);
    }
  }

  /**
   A transaction commits exactly when each statement could be executed on the catalog,
   nothing aborts it and every RPC removed its table. Then the catalog is what the
   statements make of it, and moonlink forgets exactly the tables they drop. Otherwise
   Postgres keeps all its tables, but moonlink has lost exactly the registered ones whose
   removal took effect up to the first failure. In either case every table moonlink knows
   is committed.
   */
  lemma TransactionMeans(kw: Keywords, w: Shared, statements: seq<Statement>, aborts: bool,
                         stream: bool, replies: nat -> Reply, commits: bool)
    requires Known(w)
    ensures var p := AfterStatements(kw, w.catalog, Start(w), statements);
            var direct := Directly(kw, w.catalog, w.nextOid, statements);
            var after := AfterTransaction(w, p, aborts, stream, replies, commits);
            var ends := !aborts && direct.Some?;
            var committed := ends && stream && commits && forall k | 0 <= k < |p.events| :: replies(k) == Removed;
            && (forall k :: k in after.registry ==> k in after.catalog && after.catalog[k] == after.registry[k])
            && after.catalog == (if committed then direct.value.0 else w.catalog)
            && (committed ==> forall k :: k in after.registry <==> k in w.registry && k !in DroppedKeys(kw, statements))
            && (!committed ==> forall x :: x in w.registry && x !in after.registry <==>
                  x in w.registry && ends && stream &&
                  exists k :: 0 <= k < |p.events| && (forall j | 0 <= j < k :: replies(j) == Removed)
                    && replies(k) != ErrorBefore && p.events[k] == x)
  {
    var p := AfterStatements(kw, w.catalog, Start(w), statements);
    StatementsCover(kw, w.catalog, Start(w), statements);
    StatementsAreDirect(kw, w.catalog, Start(w), statements);
    NothingApplied(w.catalog);
    assert p.ok <==> Directly(kw, w.catalog, w.nextOid, statements).Some?;
    if !aborts && p.ok {
      EventsAreTheDrops(kw, w, statements);
      EndMeans(w, p, stream, replies, commits);
    }
  }

  /** The removals that take effect: those up to the first failure, and its own if it failed afterwards. */
  lemma LostMeans(replies: nat -> Reply, keys: seq<Key>, x: Key)
    ensures x in Effective(replies, keys[..SentCount(replies, |keys|)]) <==>
            exists k :: 0 <= k < |keys| && (forall j | 0 <= j < k :: replies(j) == Removed)
              && replies(k) != ErrorBefore && keys[k] == x
  {
    var n := SentCount(replies, |keys|);
    EffectiveMeans(replies, keys, n, x);
    if k :| 0 <= k < n && !replies(k).ErrorBefore? && keys[k] == x {
      SentBefore(replies, |keys|, k);
    }
    if k :| 0 <= k < |keys| && (forall j | 0 <= j < k :: replies(j) == Removed) && replies(k) != ErrorBefore
          && keys[k] == x {
      SentBefore(replies, |keys|, k);
    }
  }

  lemma EndMeans(w: Shared, p: Progress, stream: bool, replies: nat -> Reply, commits: bool)
    requires Known(w) && Covered(w.catalog, p)
    ensures var after := AfterDrops(w.(nextOid := p.nextOid), p.view, p.events, stream, replies, commits);
            var committed := stream && commits && forall k | 0 <= k < |p.events| :: replies(k) == Removed;
            && Known(after)
            && after.catalog == (if committed then L.Applied(w.catalog, p.view) else w.catalog)
            && (committed ==> forall k :: k in after.registry <==> k in w.registry && k !in p.events)
            && (!committed ==> forall x :: x in w.registry && x !in after.registry <==>
                  x in w.registry && stream &&
                  exists k :: 0 <= k < |p.events| && (forall j | 0 <= j < k :: replies(j) == Removed)
                    && replies(k) != ErrorBefore && p.events[k] == x)
  {
    var keys, n := p.events, SentCount(replies, |p.events|);
    ToldIsEffective(w.registry, replies, keys, n);
    assert AllRemoved(replies, |keys|) <==> forall k | 0 <= k < |keys| :: replies(k) == Removed;
    if DropsCommit(keys, stream, replies, commits) {
      assert keys[..|keys|] == keys;
      AllAreEffective(replies, keys);
      assert forall k :: k in Elements(keys) <==> k in keys;
    } else {
      forall x ensures x in Effective(replies, keys[..n]) <==>
                       exists k :: 0 <= k < |keys| && (forall j | 0 <= j < k :: replies(j) == Removed)
                         && replies(k) != ErrorBefore && keys[k] == x {
        LostMeans(replies, keys, x);
      }
    }
  }

  /** The registry after the first `n` RPCs, one after the other. */
  function Told(registry: map<Key, nat>, replies: nat -> Reply, keys: seq<Key>, n: nat): map<Key, nat>
    requires n <= |keys|
  {
    if n == 0 then registry
    else Told(registry, replies, keys, n - 1) - if replies(n - 1).ErrorBefore? then {} else {keys[n - 1]}
  }

  lemma {:induction false} ToldIsEffective(registry: map<Key, nat>, replies: nat -> Reply, keys: seq<Key>, n: nat)
    requires n <= |keys|
    ensures Told(registry, replies, keys, n) == registry - Effective(replies, keys[..n])
  {
    if n > 0 {
      ToldIsEffective(registry, replies, keys, n - 1);
      EffectiveGrows(replies, keys, n - 1);
    }
  }

  datatype CreateReply = Accepted | RejectedBefore | RejectedAfter

  datatype LoopbackReply = Committed | Refused | ReplyLost

  /** Everything a create_table call does not decide itself. */
  datatype Env = Env(
    srcUri: Option<string>,                        // the src_uri argument
    loopback: Loopback.Target,                     // what get_loopback_uri prints
    sourceConnects: bool,
    sourceMode: bool,                              // the session's compatibility mode could be set
    attributes: Option<seq<Columns.Attribute>>,    // pg_attribute of the source, if there is such a relation
    targetConnects: bool,
    targetMode: bool,
    create: LoopbackReply,
    net: Net,
    reply: CreateReply,
    cleanupConnects: bool,
    cleanupNet: Net,
    cleanupReply: Reply,
    cleanupCommits: bool)

  /** The first connection, its mode and the column query. */
  predicate SourceReads(env: Env) {
    env.sourceConnects && env.sourceMode && env.attributes.Some?
    && exists a :: a in env.attributes.value && Columns.Live(a)
  }

  /** The default source is the loopback itself; any other text than its URI means a second connection. */
  predicate Reconnects(env: Env) {
    env.srcUri.Some? && env.srcUri.value != Loopback.LoopbackUri(env.loopback)
  }

  predicate TargetReady(env: Env) { !Reconnects(env) || (env.targetConnects && env.targetMode) }

  /**
   When create_mooncake_table reaches CREATE TABLE, as far as the second connection goes:
   it works, or none is made, as the source is left to default or is the loopback URI in
   the very spelling of get_loopback_uri.
   */
  lemma TargetReadyIff(env: Env)
    ensures TargetReady(env) <==>
            || (env.targetConnects && env.targetMode)
            || env.srcUri.None?
            || (Loopback.ReadUri(env.srcUri.value) == Some(Loopback.Denotes(env.loopback))
                && Loopback.UriNormal(env.srcUri.value))
  {
    if env.srcUri.Some? {
      Loopback.KeepsConnectionIff(env.loopback, env.srcUri.value);
    }
  }

  datatype Fate = NothingCreated | Mirrored | CleanedUp | LeftBehind

  /** What becomes of a call, given whether its stream and its cleanup's stream open. */
  function FateOf(taken: bool, env: Env, stream: bool, cleanupStream: bool): Fate {
    if !SourceReads(env) || !TargetReady(env) || taken || env.create.Refused? then NothingCreated
    else if env.create.Committed? && stream && env.reply.Accepted? then Mirrored
    else if env.create.Committed? && stream && env.cleanupConnects && cleanupStream
            && env.cleanupReply.Removed? && env.cleanupCommits then CleanedUp
    else LeftBehind
  }

  /**
   What becomes of a call, by what the outside world does: it creates its table when both
   connections, the modes, a live column and a free name are there, one and all; the table
   is mirrored when moonlink accepts it, and gone again when the whole cleanup succeeds.
   */
  lemma FateIff(taken: bool, env: Env, stream: bool, cleanupStream: bool)
    ensures var fate := FateOf(taken, env, stream, cleanupStream);
            var created := && env.sourceConnects && env.sourceMode && env.attributes.Some?
              && (exists a :: a in env.attributes.value && a.num > 0 && !a.dropped)
              && (|| (env.targetConnects && env.targetMode)
                  || env.srcUri.None?
                  || (Loopback.ReadUri(env.srcUri.value) == Some(Loopback.Denotes(env.loopback))
                      && Loopback.UriNormal(env.srcUri.value)))
              && !taken && env.create != Refused;
            var asked := created && env.create == Committed && stream;
            && (fate != NothingCreated <==> created)
            && (fate == Mirrored <==> asked && env.reply == Accepted)
            && (fate == CleanedUp <==> asked && env.reply != Accepted && env.cleanupConnects && cleanupStream
                                       && env.cleanupReply == Removed && env.cleanupCommits)
            && (MirrorMade(env, taken) <==> created && env.create == Committed)
            && (Announced(env, stream) <==> env.create == Committed && stream && env.reply != RejectedBefore)
  {
    TargetReadyIff(env);
  }

  /** The create RPC took effect. */
  predicate Announced(env: Env, stream: bool) {
    env.create.Committed? && stream && !env.reply.RejectedBefore?
  }

  /** The cleanup's drop RPC took effect. */
  predicate Withdrawn(env: Env, stream: bool, cleanupStream: bool) {
    env.create.Committed? && stream && !env.reply.Accepted?
    && env.cleanupConnects && cleanupStream && !env.cleanupReply.ErrorBefore?
  }

  /**
   What one call does to catalog and registry: `dst` is the key it registers, `stored`
   the name under which its table is committed and dropped.
   */
  function AfterCreate(w: Shared, dst: Key, stored: Key, env: Env, stream: bool, cleanupStream: bool): Shared {
    var fate := FateOf(stored in w.catalog, env, stream, cleanupStream);
    if fate.NothingCreated? then w
    else
      Shared(if fate.CleanedUp? then w.catalog else w.catalog[stored := w.nextOid],
             (if Announced(env, stream) then w.registry[dst := w.nextOid] else w.registry)
               - (if Withdrawn(env, stream, cleanupStream) then {stored} else {}),
             w.nextOid + 1)
  }

  /**
   Without interference: no table that was there is touched; what moonlink knows stays
   committed when the name is stored as given; and a cleaned-up call leaves no trace.
   */
  lemma AfterCreateIsClean(w: Shared, dst: Key, stored: Key, env: Env, stream: bool, cleanupStream: bool)
    ensures var after := AfterCreate(w, dst, stored, env, stream, cleanupStream);
            var fate := FateOf(stored in w.catalog, env, stream, cleanupStream);
            && (forall k :: k in w.catalog ==> k in after.catalog && after.catalog[k] == w.catalog[k])
            && (fate.CleanedUp? || fate.NothingCreated? ==> after.catalog == w.catalog)
            && (dst == stored && Known(w) ==>
                  Known(after)
                  && (fate.CleanedUp? || fate.NothingCreated? ==> after.registry == w.registry))
  {
  }

  /** What the drop of a single table comes to. */
  function LoneEffect(w: Shared, k: Key, stream: bool, reply: Reply, commits: bool): Shared {
    Shared(w.catalog - (if stream && reply.Removed? && commits then {k} else {}),
           w.registry - (if stream && !reply.ErrorBefore? then {k} else {}), w.nextOid)
  }

  /** CREATE TABLE committed. */
  function WithMirror(w: Shared, stored: Key): Shared {
    Shared(w.catalog[stored := w.nextOid], w.registry, w.nextOid + 1)
  }

  /** The create RPC and, if it is rejected, the cleanup. */
  function AfterRegister(w: Shared, dst: Key, stored: Key, oid: nat, env: Env, stream: bool,
      cleanupStream: bool): Shared {
    var told := if stream && !env.reply.RejectedBefore? then w.(registry := w.registry[dst := oid]) else w;
    if stream && !env.reply.Accepted? && env.cleanupConnects
    then LoneEffect(told, stored, cleanupStream, env.cleanupReply, env.cleanupCommits) else told
  }

  // ------------------------------------------------------ the actions, as the code takes them

  function Drops(t: L.TxId, keys: seq<Key>): seq<L.Action>
    decreases |keys|
  {
    if t.Loop? || keys == [] then [] else [L.Drop(t.id, keys[0])] + Drops(t, keys[1..])
  }

  function StatementActions(kw: Keywords, catalog: map<Key, nat>, t: L.TxId, p: Progress, s: Statement): seq<L.Action> {
    if !AfterStatement(kw, catalog, p, s).ok || t.Loop? then []
    else
      match s
      case DropObjects(dropped) => Drops(t, TableKeys(kw, dropped))
      case CreateOne(schema, name) => [L.Create(t.id, StoredKey(kw, schema, name))]
  }

  function AllActions(kw: Keywords, catalog: map<Key, nat>, t: L.TxId, p: Progress,
      statements: seq<Statement>): seq<L.Action>
    decreases |statements|
  {
    if statements == [] || !p.ok then []
    else
      StatementActions(kw, catalog, t, p, statements[0]) +
      AllActions(kw, catalog, t, AfterStatement(kw, catalog, p, statements[0]), statements[1..])
  }

  /** The callbacks, up to the first failure; a panic aborts the transaction. */
  function Fired(t: L.TxId, total: nat, stream: bool, replies: nat -> Reply): seq<L.Action> {
    if !stream then [L.Abort(t)]
    else if AllRemoved(replies, total) then Runs.FlushActions(t, total)
    else Runs.FlushActions(t, FirstFailure(replies, total)) + [L.Flush(t, replies(FirstFailure(replies, total)))]
  }

  lemma FiredUpToFailure(t: L.TxId, replies: nat -> Reply, total: nat, i: nat)
    requires i < total && AllRemoved(replies, i) && !replies(i).Removed?
    ensures Fired(t, total, true, replies) == Runs.FlushActions(t, i) + [L.Flush(t, replies(i))]
  {
    FailureIsFirst(replies, total, i);
  }

  /** The first `n` RPCs were sent; all are answered well, or all but the last. */
  predicate UpTo(replies: nat -> Reply, n: nat, ok: bool) {
    if ok then AllRemoved(replies, n) else n > 0 ==> AllRemoved(replies, n - 1) && !replies(n - 1).Removed?
  }

  function FiredUpTo(t: L.TxId, replies: nat -> Reply, n: nat, ok: bool): seq<L.Action> {
    if ok then Runs.FlushActions(t, n)
    else if n == 0 then [L.Abort(t)]
    else Runs.FlushActions(t, n - 1) + [L.Flush(t, replies(n - 1))]
  }

  lemma FiredStep(before: seq<L.Action>, t: L.TxId, replies: nat -> Reply, n: nat, stream: bool)
    requires AllRemoved(replies, n) && (!stream ==> n == 0)
    ensures before + FiredUpTo(t, replies, n, true) + [if stream then L.Flush(t, replies(n)) else L.Abort(t)] ==
            before + FiredUpTo(t, replies, if stream then n + 1 else n, stream && replies(n).Removed?)
  {
    Join(before, Runs.FlushActions(t, n), [if stream then L.Flush(t, replies(n)) else L.Abort(t)]);
  }

  /** What the loop over the callbacks has counted is what the replies say. */
  lemma CallbacksDone(t: L.TxId, replies: nat -> Reply, keys: seq<Key>, n: nat, ok: bool, works: bool)
    requires n <= |keys| && UpTo(replies, n, ok) && (ok ==> n == |keys|)
    requires !works <==> n == 0 && !ok
    ensures ok <==> works && AllRemoved(replies, |keys|)
    ensures n == if works then SentCount(replies, |keys|) else 0
    ensures Fired(t, |keys|, works, replies) == FiredUpTo(t, replies, n, ok)
  {
    if !ok && works {
      SentUpToFailure(replies, |keys|, n - 1);
      FiredUpToFailure(t, replies, |keys|, n - 1);
    }
  }

  function Ending(t: L.TxId, total: nat, stream: bool, replies: nat -> Reply, commits: bool): seq<L.Action> {
    [L.Prepare(t)] + (Fired(t, total, stream, replies) +
      if stream && AllRemoved(replies, total) then [if commits then L.Commit(t) else L.Abort(t)] else [])
  }

  function TransactionScript(kw: Keywords, catalog: map<Key, nat>, j: nat, p: Progress, statements: seq<Statement>,
                             aborts: bool, stream: bool, replies: nat -> Reply, commits: bool): seq<L.Action> {
    var t, end := L.Session(j), AfterStatements(kw, catalog, p, statements);
    [L.Begin(j)] + (AllActions(kw, catalog, t, p, statements) +
      if aborts || !end.ok then [L.Abort(t)] else Ending(t, |end.events|, stream, replies, commits))
  }

  /** Connections, mode probes and the column query. */
  function Preparation(i: nat, env: Env): seq<L.Action> {
    if !env.sourceConnects then [L.Fail(i)]
    else
      [L.Probe(i, L.ReadOnly)] +
      if !SourceReads(env) then [L.Fail(i)]
      else if !Reconnects(env) then []
      else if !env.targetConnects then [L.Fail(i)]
      else [L.Probe(i, L.ReadOnly)] + if env.targetMode then [] else [L.Fail(i)]
  }

  /**
   The mode is probed once per connection, always through the read-only path: not at all
   without the first connection, and twice exactly when a second one is made.
   */
  lemma ProbesMade(i: nat, env: Env)
    ensures var probes := Filter((a: L.Action) => a.Probe?, Preparation(i, env));
            && (forall a :: a in probes ==> a == L.Probe(i, L.ReadOnly))
            && |probes| == if !env.sourceConnects then 0
                           else if env.sourceMode && env.attributes.Some?
                                   && (exists a :: a in env.attributes.value && a.num > 0 && !a.dropped)
                                   && env.srcUri.Some?
                                   && !(Loopback.ReadUri(env.srcUri.value) == Some(Loopback.Denotes(env.loopback))
                                        && Loopback.UriNormal(env.srcUri.value))
                                   && env.targetConnects then 2 else 1
  {
    if env.srcUri.Some? {
      Loopback.KeepsConnectionIff(env.loopback, env.srcUri.value);
    }
    var isProbe, probe, fail := (a: L.Action) => a.Probe?, L.Probe(i, L.ReadOnly), L.Fail(i);
    assert Filter(isProbe, [fail]) == [] by { assert [fail][1..] == []; }
    assert Filter(isProbe, [probe]) == [probe] by { assert [probe][1..] == []; }
    assert ([probe] + [probe])[1..] == [probe];
    assert ([probe] + [fail])[1..] == [fail];
    assert ([probe] + ([probe] + [fail]))[1..] == [probe] + [fail];
    assert [probe] + [] == [probe];
  }

  function Creation(i: nat, taken: bool, env: Env): seq<L.Action> {
    Preparation(i, env) +
    if !SourceReads(env) || !TargetReady(env) then []
    else if taken || env.create.Refused? then [L.Fail(i)]
    else [L.CreateBegin(i)] + [L.CreateCommit(i, env.create.Committed?)]
  }

  function Always(reply: Reply): nat -> Reply { k => reply }

  /** DROP TABLE IF EXISTS in a transaction of its own. */
  function CleanupScript(i: nat, present: bool, env: Env, cleanupStream: bool): seq<L.Action> {
    if !env.cleanupConnects then [L.SkipCleanup(i)]
    else
      [L.CleanupBegin(i)] +
      Ending(L.Loop(i), if present then 1 else 0, !present || cleanupStream, Always(env.cleanupReply),
          env.cleanupCommits)
  }

  function Registration(i: nat, env: Env, stream: bool, cleanupStream: bool): seq<L.Action> {
    if !stream then [L.StreamPanic(i)]
    else
      Runs.Asking(i, !env.reply.RejectedBefore?) +
      if env.reply.Accepted? then [L.Accept(i)] else [L.Reject(i)] + CleanupScript(i, true, env, cleanupStream)
  }

  function CallScript(i: nat, e: Runs.Entry, taken: bool, env: Env, stream: bool, cleanupStream: bool): seq<L.Action> {
    Runs.Entering(i, e) + (Creation(i, taken, env) +
      if MirrorMade(env, taken) then Registration(i, env, stream, cleanupStream) else [])
  }

  lemma Join(a: seq<L.Action>, b: seq<L.Action>, c: seq<L.Action>)
    ensures a + (b + c) == a + b + c
  {
  }

  /** The mirror table is committed, and the call knows it. */
  predicate MirrorMade(env: Env, taken: bool) {
    SourceReads(env) && TargetReady(env) && !taken && env.create.Committed?
  }

  lemma TransactionInPieces(t: seq<L.Action>, kw: Keywords, catalog: map<Key, nat>, j: nat, p: Progress,
                            statements: seq<Statement>, aborts: bool, stream: bool,
                            replies: nat -> Reply, commits: bool)
    ensures var end := AfterStatements(kw, catalog, p, statements);
            var ran := t + [L.Begin(j)] + AllActions(kw, catalog, L.Session(j), p, statements);
            ran + (if aborts || !end.ok then [L.Abort(L.Session(j))]
                   else Ending(L.Session(j), |end.events|, stream, replies, commits)) ==
            t + TransactionScript(kw, catalog, j, p, statements, aborts, stream, replies, commits)
  {
    var end := AfterStatements(kw, catalog, p, statements);
    var begin, all := [L.Begin(j)], AllActions(kw, catalog, L.Session(j), p, statements);
    var last := if aborts || !end.ok then [L.Abort(L.Session(j))]
                else Ending(L.Session(j), |end.events|, stream, replies, commits);
    Join(t, begin, all);
    Join(t, begin + all, last);
    Join(begin, all, last);
  }

  /** The pieces of a call's trace make up its script. */
  lemma ScriptInPieces(t: seq<L.Action>, i: nat, e: Runs.Entry, taken: bool, env: Env, stream: bool,
      cleanupStream: bool)
    ensures t + Runs.Entering(i, e) + Creation(i, taken, env) +
            (if MirrorMade(env, taken) then Registration(i, env, stream, cleanupStream) else []) ==
            t + CallScript(i, e, taken, env, stream, cleanupStream)
  {
    var entering, creation := Runs.Entering(i, e), Creation(i, taken, env);
    var rest := if MirrorMade(env, taken) then Registration(i, env, stream, cleanupStream) else [];
    Join(t, entering, creation);
    Join(t, entering + creation, rest);
    Join(entering, creation, rest);
  }

  /** What RegisterTable leaves of a table just created is what the whole call leaves. */
  lemma RegisteredIsCreated(w: Shared, dst: Key, stored: Key, env: Env, stream: bool, cleanupStream: bool)
    requires MirrorMade(env, stored in w.catalog)
    ensures AfterRegister(WithMirror(w, stored), dst, stored, w.nextOid, env, stream, cleanupStream) ==
            AfterCreate(w, dst, stored, env, stream, cleanupStream)
  {
    assert w.catalog[stored := w.nextOid] - {stored} == w.catalog;
  }

  /** Committed tables carry names that fit. */
  ghost predicate NamesFit(kw: Keywords, w: Shared) {
    forall k :: k in w.catalog ==> FittingKey(kw, k)
  }

  ghost predicate FittingKey(kw: Keywords, k: Key) {
    exists s, n :: s != "" && n != "" && Fits(s, n) && k == QuoteQualified(kw, s, n)
  }

  lemma StoredKeyFits(kw: Keywords, schema: string, name: string)
    requires schema != "" && name != ""
    ensures FittingKey(kw, StoredKey(kw, schema, name))
  {
    ClipFits(schema, MAX_NAME_BYTES);
    ClipFits(name, MAX_NAME_BYTES);
    ClipKeepsExactlyWhatFits(schema, MAX_NAME_BYTES);
    ClipKeepsExactlyWhatFits(name, MAX_NAME_BYTES);
    assert Fits(StoredName(schema), StoredName(name));
  }

  /** Calls add none but fitting names. */
  lemma CallKeepsNamesFit(kw: Keywords, w: Shared, dst: Key, schema: string, name: string,
                          env: Env, stream: bool, cleanupStream: bool)
    requires NamesFit(kw, w) && schema != "" && name != ""
    ensures NamesFit(kw, AfterCreate(w, dst, StoredKey(kw, schema, name), env, stream, cleanupStream))
  {
    StoredKeyFits(kw, schema, name);
  }

  predicate Named(s: Statement) { s.CreateOne? ==> s.schema != "" && s.name != "" }

  ghost predicate ViewFits(kw: Keywords, p: Progress) {
    forall k :: k in p.view && p.view[k].Some? ==> FittingKey(kw, k)
  }

  lemma {:induction false} DropAllFits(catalog: map<Key, nat>, view: View, keys: seq<Key>)
    requires DropAll(catalog, view, keys).Some?
    ensures var after := DropAll(catalog, view, keys).value;
            forall k :: k in after && after[k].Some? ==> k in view && view[k].Some?
    decreases |keys|
  {
    if keys != [] {
      DropAllFits(catalog, view[keys[0] := None], keys[1..]);
    }
  }

  lemma {:induction false} StatementsFit(kw: Keywords, catalog: map<Key, nat>, p: Progress, statements: seq<Statement>)
    requires ViewFits(kw, p) && forall s :: s in statements ==> Named(s)
    ensures ViewFits(kw, AfterStatements(kw, catalog, p, statements))
    decreases |statements|
  {
    if statements != [] && p.ok {
      var next := AfterStatement(kw, catalog, p, statements[0]);
      assert statements[0] in statements && forall s :: s in statements[1..] ==> s in statements;
      match statements[0] {
        case DropObjects(dropped) =>
          if DropAll(catalog, p.view, TableKeys(kw, dropped)).Some? {
            DropAllFits(catalog, p.view, TableKeys(kw, dropped));
          }
        case CreateOne(schema, name) => StoredKeyFits(kw, schema, name);
      }
      assert ViewFits(kw, next);
      StatementsFit(kw, catalog, next, statements[1..]);
    }
  }

  /** So do transactions: over any sequence of both, names in the catalog fit. */
  lemma TransactionKeepsNamesFit(kw: Keywords, w: Shared, statements: seq<Statement>, aborts: bool,
                                 stream: bool, replies: nat -> Reply, commits: bool)
    requires NamesFit(kw, w) && forall s :: s in statements ==> Named(s)
    ensures var p := AfterStatements(kw, w.catalog, Start(w), statements);
            NamesFit(kw, AfterTransaction(w, p, aborts, stream, replies, commits))
  {
    StatementsFit(kw, w.catalog, Start(w), statements);
  }

  lemma LongKeyIsNoTable(kw: Keywords, w: Shared, schema: string, name: string)
    requires NamesFit(kw, w) && schema != "" && name != "" && !Fits(schema, name)
    ensures QuoteQualified(kw, schema, name) !in w.catalog
  {
    var dst := QuoteQualified(kw, schema, name);
    if dst in w.catalog {
      assert FittingKey(kw, dst);
      var s, n :| s != "" && n != "" && Fits(s, n) && dst == QuoteQualified(kw, s, n);
      QuoteQualifiedInjective(kw, s, n, schema, name);
    }
  }

  lemma LongKeyIsNotStored(kw: Keywords, schema: string, name: string)
    requires schema != "" && name != "" && !Fits(schema, name)
    ensures QuoteQualified(kw, schema, name) != StoredKey(kw, schema, name)
  {
    ClipKeepsExactlyWhatFits(schema, MAX_NAME_BYTES);
    ClipKeepsExactlyWhatFits(name, MAX_NAME_BYTES);
    if QuoteQualified(kw, schema, name) == StoredKey(kw, schema, name) {
      QuoteQualifiedInjective(kw, StoredName(schema), StoredName(name), schema, name);
    }
  }

  /** When one call, given its outcome, keeps every table moonlink knows committed. */
  lemma {:induction false} CallKeepsKnownIff(kw: Keywords, w: Shared, schema: string, name: string,
                                             env: Env, stream: bool, cleanupStream: bool)
    requires Known(w) && NamesFit(kw, w) && schema != "" && name != ""
    ensures var dst, stored := QuoteQualified(kw, schema, name), StoredKey(kw, schema, name);
            Known(AfterCreate(w, dst, stored, env, stream, cleanupStream)) <==>
            Fits(schema, name) || !Announced(env, stream) ||
            FateOf(stored in w.catalog, env, stream, cleanupStream).NothingCreated?
  {
    var dst, stored := QuoteQualified(kw, schema, name), StoredKey(kw, schema, name);
    StoredAsGiven(kw, schema, name);
    AfterCreateIsClean(w, dst, stored, env, stream, cleanupStream);
    var after := AfterCreate(w, dst, stored, env, stream, cleanupStream);
    if !Fits(schema, name) {
      LongKeyIsNoTable(kw, w, schema, name);
      LongKeyIsNotStored(kw, schema, name);
      if FateOf(stored in w.catalog, env, stream, cleanupStream).NothingCreated? {
        assert after == w;
      } else {
        assert after.catalog.Keys <= w.catalog.Keys + {stored};
        assert dst in after.registry <==> dst in w.registry || Announced(env, stream);
      }
    }
  }

  /** Everything goes well. */
  function Sunny(): Env {
    var net := Net(k => true, k => 0, k => 0);
    Env(None, Loopback.Target([], [], 0, []), true, true, Some([Columns.Attribute(1, "a", "integer", false, false)]),
        true, true, Committed, net, Accepted, true, net, Removed, true)
  }

  lemma SunnyIsMirrored(w: Shared, dst: Key, stored: Key)
    requires stored !in w.catalog
    ensures AfterCreate(w, dst, stored, Sunny(), true, true) ==
            Shared(w.catalog[stored := w.nextOid], w.registry[dst := w.nextOid], w.nextOid + 1)
    ensures FateOf(stored in w.catalog, Sunny(), true, true).Mirrored? && Announced(Sunny(), true)
  {
    var a := Columns.Attribute(1, "a", "integer", false, false);
    assert a in Sunny().attributes.value && Columns.Live(a);
    assert SourceReads(Sunny()) && TargetReady(Sunny());
  }

  /** Whatever becomes of the call, every table moonlink knows stays committed. */
  ghost predicate AlwaysKnown(w: Shared, dst: Key, stored: Key) {
    forall env, stream, cleanupStream :: Known(AfterCreate(w, dst, stored, env, stream, cleanupStream))
  }

  /**
   Which names are safe to create, known before the call: those that fit in 63 bytes,
   and those whose cut form is taken, so that the call fails.
   */
  lemma {:induction false} NameIsSafeIff(kw: Keywords, w: Shared, schema: string, name: string)
    requires Known(w) && NamesFit(kw, w) && schema != "" && name != ""
    ensures AlwaysKnown(w, QuoteQualified(kw, schema, name), StoredKey(kw, schema, name)) <==>
            Fits(schema, name) || StoredKey(kw, schema, name) in w.catalog
  {
    var dst, stored := QuoteQualified(kw, schema, name), StoredKey(kw, schema, name);
    if Fits(schema, name) || stored in w.catalog {
      forall env, stream, cleanupStream ensures Known(AfterCreate(w, dst, stored, env, stream, cleanupStream)) {
        CallKeepsKnownIff(kw, w, schema, name, env, stream, cleanupStream);
      }
    } else {
      SunnyIsMirrored(w, dst, stored);
      CallKeepsKnownIff(kw, w, schema, name, Sunny(), true, true);
    }
  }

  lemma {:induction false} RepeatedSize(n: nat)
    ensures Utf8Size(seq(n, _ => 'a')) == n
  {
    if n > 0 {
      RepeatedSize(n - 1);
      assert seq(n, _ => 'a')[1..] == seq(n - 1, _ => 'a');
    }
  }

  /** A name of 64 letters: the call succeeds, and moonlink knows a table that Postgres does not have. */
  lemma SixtyFourLettersGoAstray(kw: Keywords)
    ensures var name := seq(64, _ => 'a');
            var dst, stored := QuoteQualified(kw, "public", name), StoredKey(kw, "public", name);
            var after := AfterCreate(Shared(map[], map[], 0), dst, stored, Sunny(), true, true);
            && FateOf(false, Sunny(), true, true).Mirrored?
            && stored in after.catalog && dst in after.registry && dst !in after.catalog
  {
    var name, w := seq(64, _ => 'a'), Shared(map[], map[], 0);
    RepeatedSize(64);
    LongKeyIsNotStored(kw, "public", name);
    SunnyIsMirrored(w, QuoteQualified(kw, "public", name), StoredKey(kw, "public", name));
  }

  lemma AllAreSent(replies: nat -> Reply, keys: seq<Key>)
    ensures AllRemoved(replies, |keys|) ==> keys[..SentCount(replies, |keys|)] == keys
  {
  }

  lemma AllAreEffective(replies: nat -> Reply, keys: seq<Key>)
    requires AllRemoved(replies, |keys|)
    ensures SentCount(replies, |keys|) == |keys| && Effective(replies, keys) == Elements(keys)
  {
  }

  lemma DropsOne(catalog: map<Key, nat>, k: Key)
    requires k in catalog
    ensures DropAll(catalog, map[], [k]) == Some(map[k := None])
  {
    assert [k][1..] == [];
  }

  lemma NothingApplied(catalog: map<Key, nat>)
    ensures L.Applied(catalog, map[]) == catalog
  {
  }

  /** A transaction that dropped one table. */
  lemma LoneDrop(w: Shared, k: Key, stream: bool, reply: Reply, commits: bool)
    ensures AfterDrops(w, map[k := None], [k], stream, Always(reply), commits)
            == LoneEffect(w, k, stream, reply, commits)
  {
    var replies := Always(reply);
    assert AllRemoved(replies, 0) && (AllRemoved(replies, 1) <==> replies(0).Removed?);
    assert SentCount(replies, 1) == 1;
    assert Told(w.registry, replies, [k], 1) ==
           Told(w.registry, replies, [k], 0) - if reply.ErrorBefore? then {} else {k};
    L.AppliedDrop(w.catalog, k);
    assert w.catalog - {} == w.catalog && w.registry - {} == w.registry;
  }

  /** A transaction that did nothing. */
  lemma NoDrop(w: Shared, replies: nat -> Reply, commits: bool)
    ensures AfterDrops(w, map[], [], true, replies, commits) == w
  {
    NothingApplied(w.catalog);
    assert SentCount(replies, 0) == 0;
  }

  /** CREATE TABLE and DROP TABLE find a name under the pair that SQL reads from it. */
  lemma StoredKeyIsWhatSqlReads(kw: Keywords, schema: string, name: string)
    requires schema != "" && name != ""
    ensures var read := ReadQualified(kw, QuoteQualified(kw, schema, name));
            && read.Some? && read.value.0.Some? && read.value.2 == ""
            && StoredKey(kw, schema, name) == QuoteQualified(kw, read.value.0.value, read.value.1)
  {
    ReadQualifiedUndoesQuoteQualified(kw, schema, name, "");
    assert QuoteQualified(kw, schema, name) + "" == QuoteQualified(kw, schema, name);
  }

  /**
   A mirrored table and then its DROP TABLE, committed with its RPC answered: Postgres is as
   before, and so is moonlink exactly when the name fits in 63 bytes. Otherwise it keeps the
   table for good, for the drop trigger sends another key.
   */
  lemma DropUndoesCreateIff(kw: Keywords, w: Shared, schema: string, name: string, env: Env, stream: bool,
                            cleanupStream: bool)
    requires schema != "" && name != "" && QuoteQualified(kw, schema, name) !in w.registry
    requires FateOf(StoredKey(kw, schema, name) in w.catalog, env, stream, cleanupStream) == Mirrored
    ensures var dst, stored := QuoteQualified(kw, schema, name), StoredKey(kw, schema, name);
            var created := AfterCreate(w, dst, stored, env, stream, cleanupStream);
            var row := Dropped("table", StoredName(schema), StoredName(name));
            var p := AfterStatements(kw, created.catalog, Start(created), [DropObjects([row])]);
            var dropped := AfterTransaction(created, p, false, true, Always(Removed), true);
            && dst in created.registry && stored in created.catalog && p.ok
            && dropped.catalog == w.catalog
            && (dropped.registry == w.registry <==> Utf8Size(schema) <= 63 && Utf8Size(name) <= 63)
            && (dst in dropped.registry <==> !(Utf8Size(schema) <= 63 && Utf8Size(name) <= 63))
  {
    var dst, stored := QuoteQualified(kw, schema, name), StoredKey(kw, schema, name);
    var created := AfterCreate(w, dst, stored, env, stream, cleanupStream);
    MirroredMeans(w, dst, stored, env, stream, cleanupStream);
    LoneTableDropped(kw, created, schema, name);
    StoredAsGiven(kw, schema, name);
    if !Fits(schema, name) {
      LongKeyIsNotStored(kw, schema, name);
    }
    AddedAndRemoved(w.catalog, stored, stored, w.nextOid);
    AddedAndRemoved(w.registry, dst, stored, w.nextOid);
  }

  lemma AddedAndRemoved(tables: map<Key, nat>, k: Key, gone: Key, oid: nat)
    requires k !in tables
    ensures k in tables[k := oid] - {gone} <==> k != gone
    ensures k == gone ==> tables[k := oid] - {gone} == tables
  {
  }

  lemma MirroredMeans(w: Shared, dst: Key, stored: Key, env: Env, stream: bool, cleanupStream: bool)
    requires FateOf(stored in w.catalog, env, stream, cleanupStream) == Mirrored
    ensures AfterCreate(w, dst, stored, env, stream, cleanupStream) ==
            Shared(w.catalog[stored := w.nextOid], w.registry[dst := w.nextOid], w.nextOid + 1)
    ensures stored !in w.catalog
  {
    assert w.registry[dst := w.nextOid] - {} == w.registry[dst := w.nextOid];
  }

  /** A committed transaction whose only statement is the DROP TABLE of one table. */
  lemma LoneTableDropped(kw: Keywords, w: Shared, schema: string, name: string)
    requires StoredKey(kw, schema, name) in w.catalog
    ensures var stored := StoredKey(kw, schema, name);
            var row := Dropped("table", StoredName(schema), StoredName(name));
            var p := AfterStatements(kw, w.catalog, Start(w), [DropObjects([row])]);
            && p.ok
            && AfterTransaction(w, p, false, true, Always(Removed), true) ==
               w.(catalog := w.catalog - {stored}, registry := w.registry - {stored})
  {
    var stored := StoredKey(kw, schema, name);
    var row := Dropped("table", StoredName(schema), StoredName(name));
    assert [row][1..] == [] && TableKeys(kw, [row]) == [stored];
    DropsOne(w.catalog, stored);
    var statements := [DropObjects([row])];
    assert statements[1..] == [] && [] + [stored] == [stored];
    assert AfterStatement(kw, w.catalog, Start(w), statements[0]) ==
           Progress(map[stored := None], [stored], w.nextOid, true);
    LoneDrop(w, stored, true, Removed, true);
  }
}
