/**
 The life of mirror tables across any number of backends: create_table calls, their
 loopback transactions, ordinary transactions that create and drop tables, and the
 moonlink registry. One action is one step somebody takes; a run is any sequence of
 actions, so it covers every interleaving and every failure.
 */
module Lifecycle {
  import opened Basics

  type Oid = nat

  /** A transaction of an ordinary session, or the loopback transaction of a call. */
  datatype TxId = Session(id: nat) | Loop(call: nat)

  /**
   An open transaction: what it has done to table names (dropped, or created with an
   oid), the drop events its trigger recorded, and, once committing, how many of the
   PreCommit callbacks have returned.
   */
  datatype Tx = Tx(view: map<Key, Option<Oid>>, events: seq<Key>, flushed: Option<nat>)

  datatype Phase =
    | Preparing              // connecting, probing the mode, reading the columns
    | Creating               // CREATE TABLE runs in the loopback transaction
    | Created                // it committed, and the reply arrived
    | Registering(done: bool) // waiting for the create RPC, which may have taken effect
    | Rejected               // the RPC answered with an error; the guard is released
    | CleaningUp             // DROP TABLE IF EXISTS runs in a loopback transaction

  /** One create_table call in progress; `entry` is the oid counter when it began. */
  datatype Call = Call(phase: Phase, dst: Key, oid: Oid, entry: Oid, xid: bool, locks: set<Key>)

  datatype State = State(
    catalog: map<Key, Oid>,      // committed tables
    registry: map<Key, Oid>,     // tables moonlink knows, by name, and which table it was told of
    txs: map<TxId, Tx>,
    calls: map<nat, Call>,
    nextOid: Oid)

  datatype SpiPath = ReadOnly | Mutable

  datatype Action =
    | Enter(i: nat, dst: Key, xid: bool, locks: set<Key>)
    | Probe(i: nat, path: SpiPath)      // propagate_compatible_mode
    | Fail(i: nat)                      // any panic before the loopback transaction has done anything
    | CreateBegin(i: nat)
    | CreateAbort(i: nat)
    | CreateCommit(i: nat, reported: bool)
    | StreamPanic(i: nat)               // get_stream panics
    | Send(i: nat)
    | Register(i: nat)                  // the RPC takes effect in moonlink
    | Accept(i: nat)
    | Reject(i: nat)
    | SkipCleanup(i: nat)               // the cleanup cannot connect
    | CleanupBegin(i: nat)
    | Begin(j: nat)
    | Create(j: nat, k: Key)
    | Drop(j: nat, k: Key)
    | Prepare(t: TxId)                  // the commit starts firing PreCommit callbacks
    | Flush(t: TxId, reply: Reply)      // one callback: one drop RPC
    | Commit(t: TxId)
    | Abort(t: TxId)

  // ------------------------------------------------------------------------ steps

  predicate Locked(s: State, k: Key, me: TxId) {
    exists t :: t in s.txs && t != me && k in s.txs[t].view
  }

  /** The table as a transaction sees it: its own doing first, then the catalog. */
  function Visible(catalog: map<Key, Oid>, view: map<Key, Option<Oid>>, k: Key): Option<Oid> {
    if k in view then view[k] else if k in catalog then Some(catalog[k]) else None
  }

  predicate At(s: State, i: nat, phase: Phase) { i in s.calls && s.calls[i].phase == phase }

  function Move(s: State, i: nat, phase: Phase): State
    requires i in s.calls
  {
    s.(calls := s.calls[i := s.calls[i].(phase := phase)])
  }

  function End(s: State, i: nat): State { s.(calls := s.calls - {i}) }

  function Applied(catalog: map<Key, Oid>, view: map<Key, Option<Oid>>): map<Key, Oid> {
    map k | k in catalog.Keys + view.Keys && (if k in view then view[k].Some? else true)
      :: if k in view then view[k].value else catalog[k]
  }

  function BeginCreate(s: State, i: nat): Option<State> {
    if !At(s, i, Preparing) || s.calls[i].dst in s.catalog || Locked(s, s.calls[i].dst, Loop(i)) then None
    else
      var c := s.calls[i].(phase := Creating, oid := s.nextOid);
      Some(s.(calls := s.calls[i := c], nextOid := s.nextOid + 1,
              txs := s.txs[Loop(i) := Tx(map[c.dst := Some(c.oid)], [], None)]))
  }

  function CommitCreate(s: State, i: nat, reported: bool): Option<State> {
    if !At(s, i, Creating) then None
    else
      var s1 := s.(catalog := s.catalog[s.calls[i].dst := s.calls[i].oid], txs := s.txs - {Loop(i)});
      Some(if reported then Move(s1, i, Created) else End(s1, i))
  }

  function BeginCleanup(s: State, i: nat): Option<State> {
    if !At(s, i, Rejected) || Locked(s, s.calls[i].dst, Loop(i)) then None
    else
      var dst := s.calls[i].dst;
      var tx := if dst in s.catalog then Tx(map[dst := None], [dst], None) else Tx(map[], [], None);
      Some(Move(s.(txs := s.txs[Loop(i) := tx]), i, CleaningUp))
  }

  /** What a create_table call does; none when the action is not possible in this state. */
  function CallStep(s: State, a: Action): Option<State> {
    match a
    case Enter(i, dst, xid, locks) =>
      if i in s.calls || Loop(i) in s.txs then None
      else Some(s.(calls := s.calls[i := Call(Preparing, dst, 0, s.nextOid, xid, locks)]))
    case Probe(i, path) =>
      if !At(s, i, Preparing) then None
      else Some(s.(calls := s.calls[i := s.calls[i].(xid := s.calls[i].xid || path.Mutable?)]))
    case Fail(i) => if At(s, i, Preparing) then Some(End(s, i)) else None
    case CreateBegin(i) => BeginCreate(s, i)
    case CreateAbort(i) =>
      if At(s, i, Creating) then Some(End(s, i).(txs := s.txs - {Loop(i)})) else None
    case CreateCommit(i, reported) => CommitCreate(s, i, reported)
    case StreamPanic(i) => if At(s, i, Created) then Some(End(s, i)) else None
    case Send(i) => if At(s, i, Created) then Some(Move(s, i, Registering(false))) else None
    case Register(i) =>
      if At(s, i, Registering(false))
      then Some(Move(s.(registry := s.registry[s.calls[i].dst := s.calls[i].oid]), i, Registering(true))) else None
    case Accept(i) => if At(s, i, Registering(true)) then Some(End(s, i)) else None
    case Reject(i) =>
      if At(s, i, Registering(false)) || At(s, i, Registering(true)) then Some(Move(s, i, Rejected)) else None
    case SkipCleanup(i) => if At(s, i, Rejected) then Some(End(s, i)) else None
    case CleanupBegin(i) => BeginCleanup(s, i)
    case _ => None
  }

  /** The call that ends when this transaction does. */
  function EndOf(s: State, t: TxId): State {
    if t.Loop? then End(s, t.call) else s
  }

  function CreateIn(s: State, t: TxId, k: Key): Option<State> {
    if t !in s.txs || s.txs[t].flushed.Some? || Visible(s.catalog, s.txs[t].view, k).Some? || Locked(s, k, t) then None
    else
      var tx := s.txs[t];
      Some(s.(nextOid := s.nextOid + 1, txs := s.txs[t := tx.(view := tx.view[k := Some(s.nextOid)])]))
  }

  function DropIn(s: State, t: TxId, k: Key): Option<State> {
    if t !in s.txs || s.txs[t].flushed.Some? || Visible(s.catalog, s.txs[t].view, k).None? || Locked(s, k, t) then None
    else
      var tx := s.txs[t];
      Some(s.(txs := s.txs[t := tx.(view := tx.view[k := None], events := tx.events + [k])]))
  }

  predicate Flushing(s: State, t: TxId) {
    t in s.txs && s.txs[t].flushed.Some? && s.txs[t].flushed.value < |s.txs[t].events|
  }

  /** The next callback's drop RPC takes effect and its reply lets the commit go on. */
  function FlushOk(s: State, t: TxId): State
    requires Flushing(s, t)
  {
    var tx := s.txs[t];
    s.(registry := s.registry - {tx.events[tx.flushed.value]},
        txs := s.txs[t := tx.(flushed := Some(tx.flushed.value + 1))])
  }

  /** It fails, before or after taking effect: the transaction aborts. */
  function FlushError(s: State, t: TxId, effect: bool): State
    requires Flushing(s, t)
  {
    var gone := if effect then {s.txs[t].events[s.txs[t].flushed.value]} else {};
    EndOf(s.(registry := s.registry - gone, txs := s.txs - {t}), t)
  }

  function CommitTx(s: State, t: TxId): Option<State> {
    if t !in s.txs || s.txs[t].flushed != Some(|s.txs[t].events|) then None
    else Some(EndOf(s.(catalog := Applied(s.catalog, s.txs[t].view), txs := s.txs - {t}), t))
  }

  /** What transactions do; the loopback CREATE TABLE ends by its own actions above. */
  function TxStep(s: State, a: Action): Option<State> {
    match a
    case Begin(j) =>
      if Session(j) in s.txs then None else Some(s.(txs := s.txs[Session(j) := Tx(map[], [], None)]))
    case Create(j, k) => CreateIn(s, Session(j), k)
    case Drop(j, k) => DropIn(s, Session(j), k)
    case Prepare(t) =>
      if t !in s.txs || s.txs[t].flushed.Some? || (t.Loop? && !At(s, t.call, CleaningUp)) then None
      else Some(s.(txs := s.txs[t := s.txs[t].(flushed := Some(0))]))
    case Flush(t, reply) =>
      if !Flushing(s, t) then None
      else Some(if reply.Removed? then FlushOk(s, t) else FlushError(s, t, reply.ErrorAfter?))
    case Commit(t) => CommitTx(s, t)
    case Abort(t) =>
      if t !in s.txs || (t.Loop? && !At(s, t.call, CleaningUp)) then None
      else Some(EndOf(s.(txs := s.txs - {t}), t))
    case _ => None
  }

  function Next(s: State, a: Action): Option<State> {
    if CallStep(s, a).Some? then CallStep(s, a) else TxStep(s, a)
  }

  function Exec(s: State, run: seq<Action>): Option<State>
    decreases run
  {
    if run == [] then Some(s)
    else
      match Next(s, run[0])
      case None => None
      case Some(next) => Exec(next, run[1..])
  }

  predicate Initial(s: State) {
    s.registry == map[] && s.txs == map[] && s.calls == map[] && forall k :: k in s.catalog ==> s.catalog[k] < s.nextOid
  }

  /** Runs may begin with any committed tables. */
  lemma AnyCatalogIsInitial(catalog: map<Key, Oid>, nextOid: Oid)
    requires forall k :: k in catalog ==> catalog[k] < nextOid
    ensures Initial(State(catalog, map[], map[], map[], nextOid))
  {
  }

  // -------------------------------------------------------------------- assumptions

  /** How long others must keep off a table being created: until moonlink has it, or until the call returns. */
  datatype Window = UntilRegistered | UntilReturn

  /** The table of this call is committed and the window is not over. */
  predicate InFlight(w: Window, c: Call) {
    if w.UntilRegistered? then c.phase == Created || c.phase == Registering(false)
    else !c.phase.Preparing? && !c.phase.Creating?
  }

  /**
   No session drops a table in some call's window, nor does the cleanup of another call;
   while the window lasts until the return, two calls never share a table anyway.
   */
  predicate Considerate(w: Window, s: State, a: Action) {
    match a
    case Drop(_, k) => forall i :: i in s.calls && InFlight(w, s.calls[i]) ==> s.calls[i].dst != k
    case CleanupBegin(j) =>
      w.UntilRegistered? && j in s.calls ==>
        forall i :: i in s.calls && InFlight(w, s.calls[i]) ==> s.calls[i].dst != s.calls[j].dst
    case _ => true
  }

  ghost predicate ConsiderateRun(w: Window, s: State, run: seq<Action>)
    decreases run
  {
    || run == []
    || (&& Considerate(w, s, run[0])
        && (Next(s, run[0]).Some? ==> ConsiderateRun(w, Next(s, run[0]).value, run[1..])))
  }

  /** The n-th step is considerate in the state in which it is taken. */
  ghost predicate ConsiderateAt(w: Window, s: State, run: seq<Action>, n: nat)
    requires n < |run|
  {
    Exec(s, run[..n]).Some? && Considerate(w, Exec(s, run[..n]).value, run[n])
  }

  lemma ConsiderateLater(w: Window, s: State, run: seq<Action>, n: nat)
    requires n + 1 < |run| && Next(s, run[0]).Some?
    ensures ConsiderateAt(w, s, run, n + 1) <==> ConsiderateAt(w, Next(s, run[0]).value, run[1..], n)
  {
    assert run[..n + 1][0] == run[0] && run[..n + 1][1..] == run[1..][..n];
  }

  /** A run keeps the assumption when each of its steps does. */
  lemma {:induction false} ConsiderateRunIff(w: Window, s: State, run: seq<Action>)
    requires Exec(s, run).Some?
    ensures ConsiderateRun(w, s, run) <==> forall n: nat :: n < |run| ==> ConsiderateAt(w, s, run, n)
    decreases run
  {
    if run != [] {
      var next, rest := Next(s, run[0]).value, run[1..];
      ConsiderateRunIff(w, next, rest);
      assert ConsiderateAt(w, s, run, 0) <==> Considerate(w, s, run[0]) by { assert run[..0] == []; }
      forall n: nat | n < |rest| ensures ConsiderateAt(w, s, run, n + 1) <==> ConsiderateAt(w, next, rest, n) {
        ConsiderateLater(w, s, run, n);
      }
      forall n: nat | 0 < n < |run| ensures ConsiderateAt(w, s, run, n) <==> ConsiderateAt(w, next, rest, n - 1) {
        ConsiderateLater(w, s, run, n - 1);
      }
    }
  }

  // ---------------------------------------------------------------------- invariant

  /** Every table moonlink knows is committed in Postgres: that very table, not just its name. */
  predicate Safe(s: State) { forall k :: k in s.registry ==> k in s.catalog && s.catalog[k] == s.registry[k] }

  predicate TxFine(s: State, tx: Tx) {
    && (forall k :: k in tx.events ==> k in tx.view)
    && (forall k :: k in tx.view && k in s.catalog ==> k in tx.events)
    && (forall k :: k in tx.view && tx.view[k].Some? ==> tx.view[k].value < s.nextOid)
    && (tx.flushed.Some? ==>
          (tx.flushed.value <= |tx.events| && forall n | 0 <= n < tx.flushed.value :: tx.events[n] !in s.registry))
  }

  predicate TxsFine(s: State) { forall t :: t in s.txs ==> TxFine(s, s.txs[t]) }

  /** Row locks on the catalog: no two open transactions touch the same name. */
  predicate Disjoint(s: State) {
    forall t, u, k :: t in s.txs && u in s.txs && k in s.txs[t].view && k in s.txs[u].view ==> t == u
  }

  /** An in-flight call owns its table: committed, created by it, touched by nobody else. */
  predicate Owns(w: Window, s: State, i: nat) {
    i in s.calls && InFlight(w, s.calls[i]) ==>
      var c := s.calls[i];
      && c.dst in s.catalog && s.catalog[c.dst] == c.oid && c.entry <= c.oid < s.nextOid
      && (forall t :: t in s.txs && c.dst in s.txs[t].view ==> t == Loop(i))
      && (c.phase == Registering(true) ==> c.dst in s.registry && s.registry[c.dst] == c.oid)
  }

  /** The loopback transaction of a call exists exactly while its phase says so. */
  predicate LoopFine(w: Window, s: State, i: nat) {
    && (Loop(i) in s.txs ==> i in s.calls && (s.calls[i].phase.Creating? || s.calls[i].phase.CleaningUp?))
    && (i in s.calls && s.calls[i].phase.Creating? ==>
        var c := s.calls[i];
        Loop(i) in s.txs && s.txs[Loop(i)] == Tx(map[c.dst := Some(c.oid)], [], None)
        && c.dst !in s.catalog && c.entry <= c.oid < s.nextOid)
    && (w.UntilReturn? && i in s.calls && s.calls[i].phase.CleaningUp? ==>
        Loop(i) in s.txs && s.txs[Loop(i)].view == map[s.calls[i].dst := None]
        && s.txs[Loop(i)].events == [s.calls[i].dst])
    && (i in s.calls ==> s.calls[i].entry <= s.nextOid)
  }

  predicate OneOwner(w: Window, s: State) {
    forall i, j ::
      (i in s.calls && j in s.calls && InFlight(w, s.calls[i]) && InFlight(w, s.calls[j])
       && s.calls[i].dst == s.calls[j].dst)
      ==> i == j
  }

  predicate Kernel(w: Window, s: State) {
    && Safe(s)
    && (forall k :: k in s.catalog ==> s.catalog[k] < s.nextOid)
    && TxsFine(s) && Disjoint(s) && OneOwner(w, s)
  }

  ghost predicate Inv(w: Window, s: State) {
    && Kernel(w, s)
    && (forall i: nat :: Owns(w, s, i))
    && (forall i: nat :: LoopFine(w, s, i))
  }

  /** A name is refused exactly when granting it would let two open transactions touch one name. */
  lemma LockedIff(s: State, k: Key, me: TxId)
    requires Disjoint(s) && me in s.txs
    ensures Locked(s, k, me) <==>
            !Disjoint(s.(txs := s.txs[me := s.txs[me].(view := s.txs[me].view[k := None])]))
  {
    var granted := s.(txs := s.txs[me := s.txs[me].(view := s.txs[me].view[k := None])]);
    assert k in granted.txs[me].view;
    if t :| t in s.txs && t != me && k in s.txs[t].view {
      assert k in granted.txs[t].view;
    }
  }

  lemma InitialInv(w: Window, s: State)
    requires Initial(s)
    ensures Inv(w, s)
  {
  }

  /** The steps that change nothing but the call itself. */
  predicate SmallStep(a: Action) {
    || a.Enter? || a.Probe? || a.Fail? || a.StreamPanic?
    || a.Send? || a.Accept? || a.Reject? || a.SkipCleanup?
  }

  lemma SmallStepKeepsKernel(w: Window, s: State, a: Action)
    requires Inv(w, s) && SmallStep(a) && CallStep(s, a).Some?
    ensures Kernel(w, CallStep(s, a).value)
  {
    var s' := CallStep(s, a).value;
    assert s' == s.(calls := s'.calls);
    OtherCallsSameTables(w, s, s'.calls);
  }

  /** The calls matter to the kernel only through the tables in flight. */
  lemma OtherCallsSameTables(w: Window, s: State, calls: map<nat, Call>)
    requires Kernel(w, s)
    requires forall i :: i in calls && InFlight(w, calls[i]) ==>
               i in s.calls && InFlight(w, s.calls[i]) && s.calls[i].dst == calls[i].dst
    ensures Kernel(w, s.(calls := calls))
  {
    forall t | t in s.txs ensures TxFine(s.(calls := calls), s.txs[t]) {
      assert TxFine(s, s.txs[t]);
    }
  }

  lemma SmallStepKeepsCall(w: Window, s: State, a: Action, x: nat)
    requires Inv(w, s) && SmallStep(a) && CallStep(s, a).Some?
    ensures Owns(w, CallStep(s, a).value, x) && LoopFine(w, CallStep(s, a).value, x)
  {
    assert Owns(w, s, x) && LoopFine(w, s, x) && Owns(w, s, a.i) && LoopFine(w, s, a.i);
  }

  lemma SmallStepKeepsInv(w: Window, s: State, a: Action)
    requires Inv(w, s) && SmallStep(a) && CallStep(s, a).Some?
    ensures Inv(w, CallStep(s, a).value)
  {
    SmallStepKeepsKernel(w, s, a);
    forall x: nat ensures Owns(w, CallStep(s, a).value, x) && LoopFine(w, CallStep(s, a).value, x) {
      SmallStepKeepsCall(w, s, a, x);
    }
  }

  lemma CreateAbortKeepsInv(w: Window, s: State, a: Action)
    requires Inv(w, s) && a.CreateAbort? && CallStep(s, a).Some?
    ensures Inv(w, CallStep(s, a).value)
  {
    var s' := CallStep(s, a).value;
    assert Owns(w, s, a.i) && LoopFine(w, s, a.i);
    forall x: nat ensures Owns(w, s', x) && LoopFine(w, s', x) {
      assert Owns(w, s, x) && LoopFine(w, s, x);
    }
  }

  lemma RegisterKeepsInv(w: Window, s: State, a: Action)
    requires Inv(w, s) && a.Register? && CallStep(s, a).Some?
    ensures Inv(w, CallStep(s, a).value)
  {
    var s' := CallStep(s, a).value;
    assert Owns(w, s, a.i) && LoopFine(w, s, a.i);
    forall x: nat ensures Owns(w, s', x) && LoopFine(w, s', x) {
      assert Owns(w, s, x) && LoopFine(w, s, x);
    }
  }

  lemma CreateBeginKeepsKernel(w: Window, s: State, i: nat)
    requires Inv(w, s) && BeginCreate(s, i).Some?
    ensures Kernel(w, BeginCreate(s, i).value)
  {
    assert LoopFine(w, s, i);
  }

  lemma CreateBeginKeepsInv(w: Window, s: State, i: nat)
    requires Inv(w, s) && BeginCreate(s, i).Some?
    ensures Inv(w, BeginCreate(s, i).value)
  {
    var s' := BeginCreate(s, i).value;
    CreateBeginKeepsKernel(w, s, i);
    forall x: nat ensures Owns(w, s', x) && LoopFine(w, s', x) {
      assert Owns(w, s, x) && LoopFine(w, s, x);
    }
  }

  lemma CreateCommitKeepsLoops(w: Window, s: State, i: nat, reported: bool, x: nat)
    requires Inv(w, s) && CommitCreate(s, i, reported).Some?
    ensures LoopFine(w, CommitCreate(s, i, reported).value, x)
  {
    var s' := CommitCreate(s, i, reported).value;
    assert LoopFine(w, s, x) && LoopFine(w, s, i);
    assert s'.catalog == s.catalog[s.calls[i].dst := s.calls[i].oid] && s'.txs == s.txs - {Loop(i)};
    if x in s.calls && x != i && s.calls[x].phase.Creating? {
      assert s.txs[Loop(x)].view.Keys == {s.calls[x].dst} && s.txs[Loop(i)].view.Keys == {s.calls[i].dst};
      assert s.calls[x].dst != s.calls[i].dst;
    }
  }

  lemma CreateCommitKeepsOwners(w: Window, s: State, i: nat, reported: bool, x: nat)
    requires Inv(w, s) && CommitCreate(s, i, reported).Some?
    ensures Owns(w, CommitCreate(s, i, reported).value, x)
    ensures x in s.calls && InFlight(w, s.calls[x]) ==> s.calls[x].dst != s.calls[i].dst
  {
    assert LoopFine(w, s, i) && Owns(w, s, x);
    assert s.calls[i].dst in s.txs[Loop(i)].view;
  }

  lemma CreateCommitKeepsKernel(w: Window, s: State, i: nat, reported: bool)
    requires Inv(w, s) && CommitCreate(s, i, reported).Some?
    ensures Kernel(w, CommitCreate(s, i, reported).value)
  {
    assert LoopFine(w, s, i);
    forall x: nat ensures x in s.calls && InFlight(w, s.calls[x]) ==> s.calls[x].dst != s.calls[i].dst {
      CreateCommitKeepsOwners(w, s, i, reported, x);
    }
  }

  lemma CreateCommitKeepsInv(w: Window, s: State, i: nat, reported: bool)
    requires Inv(w, s) && CommitCreate(s, i, reported).Some?
    ensures Inv(w, CommitCreate(s, i, reported).value)
  {
    var s' := CommitCreate(s, i, reported).value;
    CreateCommitKeepsKernel(w, s, i, reported);
    forall x: nat ensures Owns(w, s', x) && LoopFine(w, s', x) {
      CreateCommitKeepsOwners(w, s, i, reported, x);
      CreateCommitKeepsLoops(w, s, i, reported, x);
    }
  }

  lemma CleanupBeginKeepsTxs(w: Window, s: State, i: nat)
    requires Inv(w, s) && BeginCleanup(s, i).Some?
    ensures TxsFine(BeginCleanup(s, i).value)
  {
    var s' := BeginCleanup(s, i).value;
    forall u | u in s'.txs ensures TxFine(s', s'.txs[u]) {
      assert u != Loop(i) ==> TxFine(s, s.txs[u]);
    }
  }

  lemma CleanupBeginKeepsKernel(w: Window, s: State, i: nat)
    requires Inv(w, s) && BeginCleanup(s, i).Some? && Considerate(w, s, CleanupBegin(i))
    ensures Kernel(w, BeginCleanup(s, i).value)
  {
    CleanupBeginKeepsTxs(w, s, i);
    assert Owns(w, s, i) && LoopFine(w, s, i);
  }

  lemma CleanupBeginKeepsInv(w: Window, s: State, i: nat)
    requires Inv(w, s) && BeginCleanup(s, i).Some? && Considerate(w, s, CleanupBegin(i))
    ensures Inv(w, BeginCleanup(s, i).value)
  {
    var s' := BeginCleanup(s, i).value;
    CleanupBeginKeepsKernel(w, s, i);
    forall x: nat ensures Owns(w, s', x) && LoopFine(w, s', x) {
      assert Owns(w, s, x) && LoopFine(w, s, x);
    }
  }

  lemma BeginKeepsTxs(w: Window, s: State, a: Action)
    requires Inv(w, s) && a.Begin? && TxStep(s, a).Some?
    ensures TxsFine(TxStep(s, a).value)
  {
    var s' := TxStep(s, a).value;
    forall t | t in s'.txs ensures TxFine(s', s'.txs[t]) {
      assert t in s.txs ==> TxFine(s, s.txs[t]);
    }
  }

  lemma BeginKeepsInv(w: Window, s: State, a: Action)
    requires Inv(w, s) && a.Begin? && TxStep(s, a).Some?
    ensures Inv(w, TxStep(s, a).value)
  {
    var s' := TxStep(s, a).value;
    BeginKeepsTxs(w, s, a);
    forall x: nat ensures Owns(w, s', x) && LoopFine(w, s', x) {
      assert Owns(w, s, x) && LoopFine(w, s, x);
    }
  }

  lemma CreateKeepsInv(w: Window, s: State, t: TxId, k: Key)
    requires Inv(w, s) && t.Session? && CreateIn(s, t, k).Some?
    ensures Inv(w, CreateIn(s, t, k).value)
  {
    var s' := CreateIn(s, t, k).value;
    forall x: nat ensures Owns(w, s', x) && LoopFine(w, s', x) {
      assert Owns(w, s, x) && LoopFine(w, s, x);
    }
  }

  lemma DropKeepsTxs(w: Window, s: State, j: nat, k: Key)
    requires Inv(w, s) && DropIn(s, Session(j), k).Some?
    ensures TxsFine(DropIn(s, Session(j), k).value)
  {
    var t, s' := Session(j), DropIn(s, Session(j), k).value;
    assert TxFine(s, s.txs[t]);
    forall u | u in s'.txs ensures TxFine(s', s'.txs[u]) {
      assert u != t ==> TxFine(s, s.txs[u]);
    }
  }

  lemma DropKeepsKernel(w: Window, s: State, j: nat, k: Key)
    requires Inv(w, s) && DropIn(s, Session(j), k).Some?
    ensures Kernel(w, DropIn(s, Session(j), k).value)
  {
    DropKeepsTxs(w, s, j, k);
  }

  lemma DropKeepsInv(w: Window, s: State, j: nat, k: Key)
    requires Inv(w, s) && Considerate(w, s, Drop(j, k)) && DropIn(s, Session(j), k).Some?
    ensures Inv(w, DropIn(s, Session(j), k).value)
  {
    var s' := DropIn(s, Session(j), k).value;
    DropKeepsKernel(w, s, j, k);
    forall x: nat ensures Owns(w, s', x) && LoopFine(w, s', x) {
      assert Owns(w, s, x) && LoopFine(w, s, x);
    }
  }

  lemma PrepareKeepsInv(w: Window, s: State, a: Action)
    requires Inv(w, s) && a.Prepare? && TxStep(s, a).Some?
    ensures Inv(w, TxStep(s, a).value)
  {
    var s' := TxStep(s, a).value;
    forall x: nat ensures Owns(w, s', x) && LoopFine(w, s', x) {
      assert Owns(w, s, x) && LoopFine(w, s, x);
    }
  }

  lemma FlushOkKeepsTxs(w: Window, s: State, t: TxId)
    requires Inv(w, s) && Flushing(s, t)
    ensures TxsFine(FlushOk(s, t))
  {
    var s' := FlushOk(s, t);
    assert TxFine(s, s.txs[t]);
    forall u | u in s'.txs ensures TxFine(s', s'.txs[u]) {
      assert TxFine(s, s.txs[u]);
    }
  }

  lemma FlushOkKeepsKernel(w: Window, s: State, t: TxId)
    requires Inv(w, s) && Flushing(s, t)
    ensures Kernel(w, FlushOk(s, t))
  {
    FlushOkKeepsTxs(w, s, t);
  }

  lemma FlushOkKeepsInv(w: Window, s: State, t: TxId)
    requires Inv(w, s) && Flushing(s, t)
    ensures Inv(w, FlushOk(s, t))
  {
    var s' := FlushOk(s, t);
    FlushOkKeepsKernel(w, s, t);
    assert TxFine(s, s.txs[t]) && s.txs[t].events[s.txs[t].flushed.value] in s.txs[t].view;
    forall x: nat ensures Owns(w, s', x) && LoopFine(w, s', x) {
      assert Owns(w, s, x) && LoopFine(w, s, x);
    }
  }

  lemma FlushErrorKeepsKernel(w: Window, s: State, t: TxId, effect: bool)
    requires Inv(w, s) && Flushing(s, t)
    ensures Kernel(w, FlushError(s, t, effect))
  {
    var s' := FlushError(s, t, effect);
    forall u | u in s'.txs ensures TxFine(s', s'.txs[u]) {
      assert TxFine(s, s.txs[u]);
    }
  }

  lemma FlushErrorKeepsInv(w: Window, s: State, t: TxId, effect: bool)
    requires Inv(w, s) && Flushing(s, t)
    ensures Inv(w, FlushError(s, t, effect))
  {
    var s' := FlushError(s, t, effect);
    FlushErrorKeepsKernel(w, s, t, effect);
    assert TxFine(s, s.txs[t]) && s.txs[t].events[s.txs[t].flushed.value] in s.txs[t].view;
    forall x: nat ensures Owns(w, s', x) && LoopFine(w, s', x) {
      assert Owns(w, s, x) && LoopFine(w, s, x);
    }
  }

  lemma CommitKeepsKernel(w: Window, s: State, t: TxId)
    requires Inv(w, s) && CommitTx(s, t).Some?
    ensures Kernel(w, CommitTx(s, t).value)
  {
    assert TxFine(s, s.txs[t]);
  }

  lemma CommitKeepsInv(w: Window, s: State, t: TxId)
    requires Inv(w, s) && CommitTx(s, t).Some?
    ensures Inv(w, CommitTx(s, t).value)
  {
    var s' := CommitTx(s, t).value;
    CommitKeepsKernel(w, s, t);
    forall x: nat ensures Owns(w, s', x) && LoopFine(w, s', x) {
      assert Owns(w, s, x) && LoopFine(w, s, x);
    }
  }

  lemma AbortKeepsInv(w: Window, s: State, a: Action)
    requires Inv(w, s) && a.Abort? && TxStep(s, a).Some?
    ensures Inv(w, TxStep(s, a).value)
  {
    var s' := TxStep(s, a).value;
    forall x: nat ensures Owns(w, s', x) && LoopFine(w, s', x) {
      assert Owns(w, s, x) && LoopFine(w, s, x);
    }
  }

  lemma StepKeepsInv(w: Window, s: State, a: Action)
    requires Inv(w, s) && Considerate(w, s, a) && Next(s, a).Some?
    ensures Inv(w, Next(s, a).value)
  {
    match a
    case CreateBegin(i) => CreateBeginKeepsInv(w, s, i);
    case CreateAbort(_) => CreateAbortKeepsInv(w, s, a);
    case Register(_) => RegisterKeepsInv(w, s, a);
    case CreateCommit(i, reported) => CreateCommitKeepsInv(w, s, i, reported);
    case CleanupBegin(i) => CleanupBeginKeepsInv(w, s, i);
    case Begin(_) => BeginKeepsInv(w, s, a);
    case Create(j, k) => CreateKeepsInv(w, s, Session(j), k);
    case Drop(j, k) => DropKeepsInv(w, s, j, k);
    case Prepare(_) => PrepareKeepsInv(w, s, a);
    case Flush(t, reply) =>
      if reply.Removed? { FlushOkKeepsInv(w, s, t); } else { FlushErrorKeepsInv(w, s, t, reply.ErrorAfter?); }
    case Commit(t) => CommitKeepsInv(w, s, t);
    case Abort(_) => AbortKeepsInv(w, s, a);
    case _ => SmallStepKeepsInv(w, s, a);
  }

  lemma {:induction false} RunKeepsInv(w: Window, s: State, run: seq<Action>)
    requires Inv(w, s) && ConsiderateRun(w, s, run) && Exec(s, run).Some?
    ensures Inv(w, Exec(s, run).value)
    decreases run
  {
    if run != [] {
      StepKeepsInv(w, s, run[0]);
      RunKeepsInv(w, Next(s, run[0]).value, run[1..]);
    }
  }

  // -------------------------------------------------------------------- main results

  /** In every run, whatever fails, every table moonlink knows has a committed table. */
  lemma RegistryIsCommitted(s: State, run: seq<Action>)
    requires Initial(s) && ConsiderateRun(UntilRegistered, s, run) && Exec(s, run).Some?
    ensures var end := Exec(s, run).value;
            forall k :: k in end.registry ==> k in end.catalog && end.catalog[k] == end.registry[k]
  {
    InitialInv(UntilRegistered, s);
    RunKeepsInv(UntilRegistered, s, run);
  }

  /** In every run without interference, a create_table that is about to return has its own table mirrored. */
  lemma AcceptedMeansMirrored(s: State, run: seq<Action>, i: nat)
    requires Initial(s) && ConsiderateRun(UntilReturn, s, run) && Exec(s, run).Some?
    requires At(Exec(s, run).value, i, Registering(true))
    ensures var end := Exec(s, run).value; var c := end.calls[i];
            && c.dst in end.catalog && end.catalog[c.dst] == c.oid
            && c.dst in end.registry && end.registry[c.dst] == c.oid
  {
    InitialInv(UntilReturn, s);
    RunKeepsInv(UntilReturn, s, run);
    assert Owns(UntilReturn, Exec(s, run).value, i);
  }

  /** Calls entered since `s0` carry an entry mark no older table reaches. */
  predicate Since(s0: State, s: State) {
    && s0.nextOid <= s.nextOid
    && forall i :: i in s.calls ==>
         ((i in s0.calls && s.calls[i].entry == s0.calls[i].entry) || s.calls[i].entry >= s0.nextOid)
  }

  lemma {:induction false} RunIsSince(s0: State, s: State, run: seq<Action>)
    requires Since(s0, s) && Exec(s, run).Some?
    ensures Since(s0, Exec(s, run).value)
    decreases run
  {
    if run != [] {
      StepIsSince(s0, s, run[0]);
      RunIsSince(s0, Next(s, run[0]).value, run[1..]);
    }
  }

  lemma StepIsSince(s0: State, s: State, a: Action)
    requires Since(s0, s) && Next(s, a).Some?
    ensures Since(s0, Next(s, a).value)
  {
    if CallStep(s, a).Some? { CallStepIsSince(s0, s, a); } else { TxStepIsSince(s0, s, a); }
  }

  lemma CreationIsSince(s0: State, s: State, i: nat, reported: bool)
    requires Since(s0, s)
    ensures BeginCreate(s, i).Some? ==> Since(s0, BeginCreate(s, i).value)
    ensures BeginCleanup(s, i).Some? ==> Since(s0, BeginCleanup(s, i).value)
    ensures CommitCreate(s, i, reported).Some? ==> Since(s0, CommitCreate(s, i, reported).value)
  {
  }

  lemma CallStepIsSince(s0: State, s: State, a: Action)
    requires Since(s0, s) && CallStep(s, a).Some?
    ensures Since(s0, CallStep(s, a).value)
  {
    match a {
      case CreateBegin(i) => CreationIsSince(s0, s, i, true);
      case CreateCommit(i, reported) => CreationIsSince(s0, s, i, reported);
      case CleanupBegin(i) => CreationIsSince(s0, s, i, true);
      case _ =>
    }
  }

  lemma TxStepIsSince(s0: State, s: State, a: Action)
    requires Since(s0, s) && TxStep(s, a).Some?
    ensures Since(s0, TxStep(s, a).value)
  {
  }

  lemma AppliedDrop(catalog: map<Key, Oid>, k: Key)
    ensures Applied(catalog, map[k := None]) == catalog - {k}
  {
  }

  lemma LoopCommitIsCleanup(s: State, i: nat)
    requires Inv(UntilReturn, s) && CommitTx(s, Loop(i)).Some?
    ensures At(s, i, CleaningUp) && s.txs[Loop(i)].view == map[s.calls[i].dst := None] && Owns(UntilReturn, s, i)
  {
    assert LoopFine(UntilReturn, s, i);
  }

  /** In every run without interference, a cleanup's commit removes exactly the table its own call created. */
  lemma CleanupRemovesOwnTable(s: State, run: seq<Action>, i: nat)
    requires Initial(s) && ConsiderateRun(UntilReturn, s, run) && Exec(s, run).Some?
    requires CommitTx(Exec(s, run).value, Loop(i)).Some?
    ensures var end := Exec(s, run).value; i in end.calls && var c := end.calls[i];
            && c.dst in end.catalog && end.catalog[c.dst] == c.oid
            && CommitTx(end, Loop(i)).value.catalog == end.catalog - {c.dst}
  {
    InitialInv(UntilReturn, s);
    RunKeepsInv(UntilReturn, s, run);
    var end := Exec(s, run).value;
    LoopCommitIsCleanup(end, i);
    AppliedDrop(end.catalog, end.calls[i].dst);
  }

  predicate NoOlder(table: Option<Oid>, mark: Oid) { table.Some? ==> table.value >= mark }

  /**
   What needs no assumption: from its CREATE TABLE on, a call's name holds no table older
   than the call, committed or not, and its loopback transactions touch that name only.
   */
  predicate Young(s: State, i: nat) {
    && (Loop(i) in s.txs ==> i in s.calls && (s.calls[i].phase.Creating? || s.calls[i].phase.CleaningUp?))
    && (i in s.calls ==>
        var c := s.calls[i];
        && c.entry <= s.nextOid
        && (!c.phase.Preparing? ==>
              && (c.dst in s.catalog ==> s.catalog[c.dst] >= c.entry)
              && (forall t :: t in s.txs && c.dst in s.txs[t].view ==> NoOlder(s.txs[t].view[c.dst], c.entry)))
        && (c.phase.Creating? ==> Loop(i) in s.txs && s.txs[Loop(i)].view == map[c.dst := Some(c.oid)])
        && (c.phase.CleaningUp? ==> Loop(i) in s.txs && forall k :: k in s.txs[Loop(i)].view ==> k == c.dst))
  }

  ghost predicate AllYoung(s: State) { forall i: nat :: Young(s, i) }

  lemma BeginCreateKeepsYoung(s: State, i: nat, x: nat)
    requires AllYoung(s) && BeginCreate(s, i).Some?
    ensures Young(BeginCreate(s, i).value, x)
  {
    assert Young(s, x) && Young(s, i);
  }

  lemma CommitCreateKeepsYoung(s: State, i: nat, reported: bool, x: nat)
    requires AllYoung(s) && CommitCreate(s, i, reported).Some?
    ensures Young(CommitCreate(s, i, reported).value, x)
  {
    assert Young(s, x) && Young(s, i);
  }

  lemma BeginCleanupKeepsYoung(s: State, i: nat, x: nat)
    requires AllYoung(s) && BeginCleanup(s, i).Some?
    ensures Young(BeginCleanup(s, i).value, x)
  {
    assert Young(s, x) && Young(s, i);
  }

  lemma CallStepKeepsYoung(s: State, a: Action, x: nat)
    requires AllYoung(s) && CallStep(s, a).Some?
    ensures Young(CallStep(s, a).value, x)
  {
    assert Young(s, x);
    match a {
      case CreateBegin(i) => BeginCreateKeepsYoung(s, i, x);
      case CreateCommit(i, reported) => CommitCreateKeepsYoung(s, i, reported, x);
      case CleanupBegin(i) => BeginCleanupKeepsYoung(s, i, x);
      case _ =>
    }
  }

  lemma CommitKeepsYoung(s: State, t: TxId, x: nat)
    requires AllYoung(s) && CommitTx(s, t).Some?
    ensures Young(CommitTx(s, t).value, x)
  {
    assert Young(s, x);
  }

  lemma CreateInKeepsYoung(s: State, j: nat, k: Key, x: nat)
    requires AllYoung(s) && CreateIn(s, Session(j), k).Some?
    ensures Young(CreateIn(s, Session(j), k).value, x)
  {
    assert Young(s, x);
  }

  lemma FlushKeepsYoung(s: State, t: TxId, effect: bool, x: nat)
    requires AllYoung(s) && Flushing(s, t)
    ensures Young(FlushOk(s, t), x) && Young(FlushError(s, t, effect), x)
  {
    assert Young(s, x);
  }

  lemma TxStepKeepsYoung(s: State, a: Action, x: nat)
    requires AllYoung(s) && TxStep(s, a).Some?
    ensures Young(TxStep(s, a).value, x)
  {
    assert Young(s, x);
    match a {
      case Commit(t) => CommitKeepsYoung(s, t, x);
      case Create(j, k) => CreateInKeepsYoung(s, j, k, x);
      case Flush(t, reply) => FlushKeepsYoung(s, t, reply.ErrorAfter?, x);
      case _ =>
    }
  }

  lemma {:induction false} RunKeepsYoung(s: State, run: seq<Action>)
    requires AllYoung(s) && Exec(s, run).Some?
    ensures AllYoung(Exec(s, run).value)
    decreases run
  {
    if run != [] {
      forall x: nat ensures Young(Next(s, run[0]).value, x) {
        if CallStep(s, run[0]).Some? { CallStepKeepsYoung(s, run[0], x); } else { TxStepKeepsYoung(s, run[0], x); }
      }
      RunKeepsYoung(Next(s, run[0]).value, run[1..]);
    }
  }

  /** Of the call's own steps only the commit of its cleanup takes a table away, and none older than the call. */
  lemma CallStepSpares(s: State, i: nat, a: Action, k: Key)
    requires AllYoung(s) && Next(s, a).Some? && k in s.catalog
    requires i in s.calls ==> s.catalog[k] < s.calls[i].entry
    requires !(a.Commit? && a.t != Loop(i)) && !(a.CreateCommit? && a.i != i)
    ensures k in Next(s, a).value.catalog && Next(s, a).value.catalog[k] == s.catalog[k]
  {
    assert Young(s, i);
    if CallStep(s, a).None? && !a.Commit? {
      assert TxStep(s, a).value.catalog == s.catalog;
    }
  }

  /**
   Nothing a create_table does, failing or not, removes or replaces a table that was
   there when the call began, whatever other sessions do meanwhile: if a step does, it is
   the commit of somebody else. `s0` is any state before the call, reached by `before`,
   and `run` leads from it to the step in question.
   */
  lemma CallSparesOlderTables(s: State, before: seq<Action>, run: seq<Action>, i: nat, a: Action, k: Key)
    requires Initial(s) && Exec(s, before).Some?
    requires var s0 := Exec(s, before).value; i !in s0.calls && Exec(s0, run).Some?
    requires var s0 := Exec(s, before).value; var s1 := Exec(s0, run).value;
             Next(s1, a).Some? && k in s1.catalog && s1.catalog[k] < s0.nextOid
    ensures var s1 := Exec(Exec(s, before).value, run).value; var s2 := Next(s1, a).value;
            || (k in s2.catalog && s2.catalog[k] == s1.catalog[k])
            || (a.Commit? && a.t != Loop(i))
            || (a.CreateCommit? && a.i != i)
  {
    var s0 := Exec(s, before).value;
    RunKeepsYoung(s, before);
    RunKeepsYoung(s0, run);
    RunIsSince(s0, s0, run);
    if !(a.Commit? && a.t != Loop(i)) && !(a.CreateCommit? && a.i != i) {
      CallStepSpares(Exec(s0, run).value, i, a, k);
    }
  }
}
