/**
 Who waits for whom while create_table runs. The calling backend waits for its
 loopback transaction or for the create RPC; the create RPC builds a replication slot
 and waits for every transaction that has a transaction id; committing transactions
 wait for their drop RPC, which moonlink may take up only after some create RPC;
 transactions wait for lock holders. Only the last kind is seen by Postgres's own
 deadlock detector.
 */
module WaitGraph {
  import opened Basics
  import opened Lifecycle
  import opened Runs

  datatype Node = Tran(t: TxId) | Caller(i: nat) | CreateRpc(i: nat) | DropRpc(t: TxId)

  /**
   What else can be waited for: the lock each transaction is asking for, whatever it may be,
   and which transactions' drop RPCs moonlink takes up only after which calls' create RPCs.
   */
  datatype Queues = Queues(want: map<TxId, Key>, behind: set<(TxId, nat)>)

  /** A transaction that has written and so holds a transaction id. */
  predicate Writer(s: State, t: TxId) { t in s.txs && s.txs[t].view != map[] }

  /** The pending drop RPC of `t` is taken up only after the pending create RPC of call `i`. */
  predicate Queued(s: State, q: Queues, t: TxId, i: nat) {
    Flushing(s, t) && i in s.calls && s.calls[i].phase.Registering? && (t, i) in q.behind
  }

  predicate Waits(s: State, q: Queues, a: Node, b: Node) {
    match a
    case Caller(i) =>
      i in s.calls
      && (|| (s.calls[i].phase.Registering? && b == CreateRpc(i))
          || ((s.calls[i].phase.Preparing? || s.calls[i].phase.Creating? || s.calls[i].phase.CleaningUp?)
              && b == Tran(Loop(i))))
    case CreateRpc(i) =>
      i in s.calls && s.calls[i].phase.Registering?
      && ((b.Tran? && Writer(s, b.t)) || (b.Caller? && b.i in s.calls && s.calls[b.i].xid))
    case Tran(t) =>
      || (b == DropRpc(t) && Flushing(s, t))
      || (t in q.want && b.Tran? && b.t != t && b.t in s.txs && q.want[t] in s.txs[b.t].view)
      || (t in q.want && b.Caller? && b.i in s.calls && q.want[t] in s.calls[b.i].locks)
    case DropRpc(t) => b.CreateRpc? && Queued(s, q, t, b.i)
  }

  ghost predicate Path(s: State, q: Queues, p: seq<Node>) {
    forall n | 0 <= n < |p| - 1 :: Waits(s, q, p[n], p[n + 1])
  }

  lemma Edge(s: State, q: Queues, p: seq<Node>, n: nat)
    requires Path(s, q, p)
    ensures n < |p| - 1 ==> Waits(s, q, p[n], p[n + 1])
  {
  }

  ghost predicate Cycle(s: State, q: Queues, p: seq<Node>) {
    |p| >= 2 && p[0] == p[|p| - 1] && Path(s, q, p)
  }

  ghost predicate OnCycle(s: State, q: Queues, a: Node) {
    exists p :: Cycle(s, q, p) && p[0] == a
  }

  /** No create_table call was entered from a transaction already holding locks. */
  predicate NoCallerLocks(s: State) { forall i :: i in s.calls ==> s.calls[i].locks == {} }

  /** No drop RPC is queued behind a create RPC. */
  ghost predicate NoneQueued(s: State, q: Queues) { forall t, i :: !Queued(s, q, t, i) }

  /** Once at a transaction or a drop RPC, waiting never leads back to a caller. */
  lemma {:induction false} StaysAmongTransactions(s: State, q: Queues, p: seq<Node>, from: nat, steps: nat)
    requires NoCallerLocks(s) && NoneQueued(s, q) && Path(s, q, p) && from + steps < |p|
    requires p[from].Tran? || p[from].DropRpc?
    ensures p[from + steps].Tran? || p[from + steps].DropRpc?
    decreases steps
  {
    if steps > 0 {
      Edge(s, q, p, from);
      StaysAmongTransactions(s, q, p, from + 1, steps - 1);
    }
  }

  /** A pending call whose caller has a transaction id closes a cycle by itself. */
  lemma XidDeadlocks(s: State, q: Queues, i: nat)
    requires i in s.calls && s.calls[i].phase.Registering? && s.calls[i].xid
    ensures OnCycle(s, q, Caller(i))
  {
    var p: seq<Node> := [Caller(i), CreateRpc(i), Caller(i)];
    assert Waits(s, q, Caller(i), CreateRpc(i)) && Waits(s, q, CreateRpc(i), Caller(i));
    assert Cycle(s, q, p);
  }

  /**
   When no call was entered from a transaction holding locks, a caller in a wait cycle has
   a transaction id. While its create RPC is pending that is all it takes; and as long as
   no drop RPC is queued behind a create RPC, it is never in one at any other time.
   */
  lemma CallerDeadlocksIff(s: State, q: Queues, i: nat)
    requires NoCallerLocks(s) && i in s.calls
    ensures OnCycle(s, q, Caller(i)) ==> s.calls[i].xid
    ensures s.calls[i].phase.Registering? ==> (OnCycle(s, q, Caller(i)) <==> s.calls[i].xid)
    ensures NoneQueued(s, q) ==> (OnCycle(s, q, Caller(i)) <==> s.calls[i].phase.Registering? && s.calls[i].xid)
  {
    if s.calls[i].phase.Registering? && s.calls[i].xid {
      XidDeadlocks(s, q, i);
    }
    if !s.calls[i].xid {
      CallerOffCycles(s, q, i);
    }
    if NoneQueued(s, q) && OnCycle(s, q, Caller(i)) {
      var p: seq<Node> :| Cycle(s, q, p) && p[0] == Caller(i);
      Edge(s, q, p, 0);
      if p[1].Tran? {
        StaysAmongTransactions(s, q, p, 1, |p| - 2);
      }
    }
  }

  /** Nobody waits for a caller that holds neither a transaction id nor a lock. */
  lemma FreshCallerUnawaited(s: State, q: Queues, i: nat, a: Node)
    requires i in s.calls && !s.calls[i].xid && s.calls[i].locks == {}
    ensures !Waits(s, q, a, Caller(i))
  {
  }

  /** What a transaction announces it has dropped, so a committing one with callbacks has written. */
  predicate EventsInView(s: State) { forall t, k :: t in s.txs && k in s.txs[t].events ==> k in s.txs[t].view }

  lemma FlushingWrites(s: State, t: TxId)
    requires EventsInView(s) && Flushing(s, t)
    ensures Writer(s, t)
  {
    assert s.txs[t].events[0] in s.txs[t].events;
  }

  lemma RpcOnCycleIff(s: State, q: Queues, i: nat)
    requires EventsInView(s) && i in s.calls && !s.calls[i].xid && s.calls[i].locks == {}
    ensures OnCycle(s, q, CreateRpc(i)) <==> exists t :: Queued(s, q, t, i)
  {
    if t :| Queued(s, q, t, i) {
      FlushingWrites(s, t);
      assert Cycle(s, q, [CreateRpc(i), Tran(t), DropRpc(t), CreateRpc(i)]);
    }
    if OnCycle(s, q, CreateRpc(i)) {
      var p: seq<Node> :| Cycle(s, q, p) && p[0] == CreateRpc(i);
      Edge(s, q, p, |p| - 2);
      if p[|p| - 2] == Caller(i) {
        FreshCallerComesFirst(s, q, i, p);
      } else {
        assert Queued(s, q, p[|p| - 2].t, i);
      }
    }
  }

  lemma LoopOnCycleIff(s: State, q: Queues, i: nat)
    requires EventsInView(s) && i in s.calls && !s.calls[i].xid && s.calls[i].locks == {}
    requires Loop(i) in s.txs ==> Loop(i) !in q.want
    ensures OnCycle(s, q, Tran(Loop(i))) <==> exists j :: Queued(s, q, Loop(i), j)
  {
    if j :| Queued(s, q, Loop(i), j) {
      FlushingWrites(s, Loop(i));
      assert Cycle(s, q, [Tran(Loop(i)), DropRpc(Loop(i)), CreateRpc(j), Tran(Loop(i))]);
    }
    if OnCycle(s, q, Tran(Loop(i))) {
      var p: seq<Node> :| Cycle(s, q, p) && p[0] == Tran(Loop(i));
      Edge(s, q, p, 0);
      Edge(s, q, p, |p| - 2);
      if p[|p| - 2] == Caller(i) {
        FreshCallerComesFirst(s, q, i, p);
      } else {
        assert p[1] == DropRpc(Loop(i));
        Edge(s, q, p, 1);
        assert Queued(s, q, Loop(i), p[2].i);
      }
    }
  }

  /**
   A call without transaction id and locks: its caller is in no wait cycle, whatever
   anybody asks for. Its create RPC is in one exactly when some drop RPC is queued behind
   it, and so is its loopback transaction, as long as that asks for no further lock once
   it is open, exactly when its own drop RPC is queued behind some create RPC.
   */
  lemma FreshCallDeadlocksIff(s: State, q: Queues, i: nat)
    requires EventsInView(s) && i in s.calls && !s.calls[i].xid && s.calls[i].locks == {}
    ensures !OnCycle(s, q, Caller(i))
    ensures OnCycle(s, q, CreateRpc(i)) <==> exists t :: Queued(s, q, t, i)
    ensures (Loop(i) in s.txs ==> Loop(i) !in q.want) ==>
              (OnCycle(s, q, Tran(Loop(i))) <==> exists j :: Queued(s, q, Loop(i), j))
  {
    CallerOffCycles(s, q, i);
    RpcOnCycleIff(s, q, i);
    if Loop(i) in s.txs ==> Loop(i) !in q.want {
      LoopOnCycleIff(s, q, i);
    }
  }

  lemma CallerOffCycles(s: State, q: Queues, i: nat)
    requires i in s.calls ==> !s.calls[i].xid && s.calls[i].locks == {}
    ensures !OnCycle(s, q, Caller(i))
  {
    if OnCycle(s, q, Caller(i)) {
      var p: seq<Node> :| Cycle(s, q, p) && p[0] == Caller(i);
      Edge(s, q, p, 0);
      Edge(s, q, p, |p| - 2);
      FreshCallerUnawaited(s, q, i, p[|p| - 2]);
    }
  }

  /** A path on which the fresh caller comes last but one begins with it. */
  lemma FreshCallerComesFirst(s: State, q: Queues, i: nat, p: seq<Node>)
    requires i in s.calls && !s.calls[i].xid && s.calls[i].locks == {}
    requires |p| >= 2 && Path(s, q, p) && p[|p| - 2] == Caller(i)
    ensures |p| == 2
  {
    if |p| > 2 {
      Edge(s, q, p, |p| - 3);
      FreshCallerUnawaited(s, q, i, p[|p| - 3]);
    }
  }

  /** Having no transaction id is not enough: a lock some writer asks for closes a cycle too. */
  lemma LockHoldingCallerDeadlocks(s: State, q: Queues, i: nat, t: TxId)
    requires i in s.calls && s.calls[i].phase.Registering?
    requires Writer(s, t) && t in q.want && q.want[t] in s.calls[i].locks
    ensures OnCycle(s, q, Caller(i))
  {
    assert Cycle(s, q, [Caller(i), CreateRpc(i), Tran(t), Caller(i)]);
  }

  /** So does a lock that the call's own loopback transaction asks for: Postgres sees no edge from the caller to it. */
  lemma OwnLoopbackDeadlocks(s: State, q: Queues, i: nat)
    requires i in s.calls && Loop(i) in q.want && q.want[Loop(i)] in s.calls[i].locks
    requires s.calls[i].phase in {Preparing, Creating, CleaningUp}
    ensures OnCycle(s, q, Caller(i)) && OnCycle(s, q, Tran(Loop(i)))
  {
    assert Cycle(s, q, [Caller(i), Tran(Loop(i)), Caller(i)]);
    assert Cycle(s, q, [Tran(Loop(i)), Caller(i), Tran(Loop(i))]);
  }

  /** Two transactions that each ask for a name the other has touched: the cycle Postgres does see. */
  lemma CrossedLocksDeadlock(s: State, q: Queues, t: TxId, u: TxId)
    requires t != u && t in s.txs && u in s.txs && t in q.want && u in q.want
    requires q.want[t] in s.txs[u].view && q.want[u] in s.txs[t].view
    ensures OnCycle(s, q, Tran(t)) && OnCycle(s, q, Tran(u))
  {
    assert Cycle(s, q, [Tran(t), Tran(u), Tran(t)]);
    assert Cycle(s, q, [Tran(u), Tran(t), Tran(u)]);
  }

  /**
   The create RPC waits for every transaction that has written. The loopback transaction
   of its own call is not among them: it has ended.
   */
  lemma RpcOutlivesItsLoopback(w: Window, s: State, q: Queues, i: nat)
    requires Inv(w, s) && i in s.calls && s.calls[i].phase.Registering?
    ensures forall t :: Waits(s, q, CreateRpc(i), Tran(t)) <==> t != Loop(i) && t in s.txs && s.txs[t].view.Keys != {}
  {
    assert LoopFine(w, s, i);
    forall t | t in s.txs ensures s.txs[t].view == map[] <==> s.txs[t].view.Keys == {} {
    }
  }

  // --------------------------------------------------- cycles that Postgres does not see

  /** From a transaction, waiting leads to no caller and no create RPC. */
  lemma {:induction false} StaysAmongWriters(s: State, q: Queues, p: seq<Node>, n: nat)
    requires Fresh(s) && NoneQueued(s, q) && Path(s, q, p) && n < |p| && p[0].Tran?
    ensures p[n].Tran? || p[n].DropRpc?
  {
    if n > 0 {
      StaysAmongWriters(s, q, p, n - 1);
      Edge(s, q, p, n - 1);
    }
  }

  lemma OrdinaryCycle(s: State, q: Queues, p: seq<Node>, n: nat)
    requires Fresh(s) && NoneQueued(s, q) && Cycle(s, q, p) && p[0].Tran? && n < |p|
    ensures p[n].Tran?
  {
    StaysAmongWriters(s, q, p, n);
    Edge(s, q, p, n);
  }

  /**
   When every call is fresh, a wait cycle through anything but transactions exists exactly
   when a drop RPC is queued behind a create RPC. Without one, every cycle is made of
   transactions waiting for each other's locks, which Postgres detects and breaks.
   */
  lemma UnseenCyclesIff(s: State, q: Queues)
    requires Fresh(s) && EventsInView(s)
    ensures (exists a :: OnCycle(s, q, a) && !a.Tran?) <==> !NoneQueued(s, q)
    ensures NoneQueued(s, q) ==> forall p: seq<Node>, n :: Cycle(s, q, p) && 0 <= n < |p| ==> p[n].Tran?
  {
    if t, i :| Queued(s, q, t, i) {
      RpcOnCycleIff(s, q, i);
      assert OnCycle(s, q, CreateRpc(i)) && !CreateRpc(i).Tran?;
    }
    if a :| OnCycle(s, q, a) && !a.Tran? {
      CycleNotOfTransactions(s, q, a);
    }
    if NoneQueued(s, q) {
      forall p: seq<Node>, n | Cycle(s, q, p) && 0 <= n < |p| ensures p[n].Tran? {
        assert OnCycle(s, q, p[0]);
        OrdinaryCycle(s, q, p, n);
      }
    }
  }

  lemma CycleNotOfTransactions(s: State, q: Queues, a: Node)
    requires Fresh(s) && EventsInView(s) && OnCycle(s, q, a) && !a.Tran?
    ensures !NoneQueued(s, q)
  {
    var p: seq<Node> :| Cycle(s, q, p) && p[0] == a;
    Edge(s, q, p, 0);
    match a {
      case Caller(i) => CallerOffCycles(s, q, i);
      case CreateRpc(i) => RpcOnCycleIff(s, q, i);
      case DropRpc(t) => assert Queued(s, q, t, p[1].i);
    }
  }

  // ----------------------------------------------------------------------- over runs

  /** Calls are entered with neither a transaction id nor locks, and the mode probe is read-only. */
  predicate Careful(a: Action) {
    && (a.Enter? ==> !a.xid && a.locks == {})
    && (a.Probe? ==> a.path.ReadOnly?)
  }

  predicate Fresh(s: State) { forall i :: i in s.calls ==> !s.calls[i].xid && s.calls[i].locks == {} }

  lemma TxStepKeepsCalls(s: State, a: Action)
    requires TxStep(s, a).Some?
    ensures forall i :: i in TxStep(s, a).value.calls ==> i in s.calls && TxStep(s, a).value.calls[i] == s.calls[i]
  {
  }

  lemma StepKeepsFresh(s: State, a: Action)
    requires Fresh(s) && Careful(a) && Next(s, a).Some?
    ensures Fresh(Next(s, a).value)
  {
    if CallStep(s, a).None? {
      TxStepKeepsCalls(s, a);
    }
  }

  lemma {:induction false} RunKeepsFresh(s: State, run: seq<Action>)
    requires Fresh(s) && (forall n | 0 <= n < |run| :: Careful(run[n])) && Exec(s, run).Some?
    ensures Fresh(Exec(s, run).value)
    decreases run
  {
    if run != [] {
      StepKeepsFresh(s, run[0]);
      RunKeepsFresh(Next(s, run[0]).value, run[1..]);
    }
  }

  lemma StepKeepsEvents(s: State, a: Action)
    requires EventsInView(s) && Next(s, a).Some?
    ensures EventsInView(Next(s, a).value)
  {
  }

  lemma {:induction false} RunKeepsEvents(s: State, run: seq<Action>)
    requires EventsInView(s) && Exec(s, run).Some?
    ensures EventsInView(Exec(s, run).value)
    decreases run
  {
    if run != [] {
      StepKeepsEvents(s, run[0]);
      RunKeepsEvents(Next(s, run[0]).value, run[1..]);
    }
  }

  /**
   In every run whose calls start outside any writing transaction and probe the mode
   the read-only way, no caller is ever in a wait cycle, whatever locks the other
   transactions ask for; its create RPC is in one exactly when a drop RPC is queued
   behind it.
   */
  lemma CarefulCallDeadlocksIff(s: State, run: seq<Action>, q: Queues, i: nat)
    requires Initial(s) && (forall n | 0 <= n < |run| :: Careful(run[n])) && Exec(s, run).Some?
    requires i in Exec(s, run).value.calls
    ensures var end := Exec(s, run).value;
            && !OnCycle(end, q, Caller(i))
            && (OnCycle(end, q, CreateRpc(i)) <==> exists t :: Queued(end, q, t, i))
            && ((Loop(i) in end.txs ==> Loop(i) !in q.want) ==>
                  (OnCycle(end, q, Tran(Loop(i))) <==> exists j :: Queued(end, q, Loop(i), j)))
  {
    RunKeepsFresh(s, run);
    RunKeepsEvents(s, run);
    FreshCallDeadlocksIff(Exec(s, run).value, q, i);
  }

  /** The same runs: which wait cycles escape Postgres's own detector. */
  lemma CarefulRunsHideCyclesIff(s: State, run: seq<Action>, q: Queues)
    requires Initial(s) && (forall n | 0 <= n < |run| :: Careful(run[n])) && Exec(s, run).Some?
    ensures var end := Exec(s, run).value;
            && ((exists a :: OnCycle(end, q, a) && !a.Tran?) <==> !NoneQueued(end, q))
            && (NoneQueued(end, q) ==> forall p: seq<Node>, n :: Cycle(end, q, p) && 0 <= n < |p| ==> p[n].Tran?)
  {
    RunKeepsFresh(s, run);
    RunKeepsEvents(s, run);
    UnseenCyclesIff(Exec(s, run).value, q);
  }

  /** A probe that assigned a transaction id would deadlock every call that reaches its RPC. */
  lemma {:induction false} MutableProbeDeadlocks(s: State, i: nat, run: seq<Action>, q: Queues)
    requires At(s, i, Preparing) && Exec(Probed(s, i), run).Some?
    requires forall n | 0 <= n < |run| :: !(run[n].Enter? && run[n].i == i)
    requires var end := Exec(Probed(s, i), run).value; i in end.calls && end.calls[i].phase.Registering?
    ensures OnCycle(Exec(Probed(s, i), run).value, q, Caller(i))
  {
    XidStays(Probed(s, i), i, run);
    XidDeadlocks(Exec(Probed(s, i), run).value, q, i);
  }

  /** The state after a mode probe through a path that assigns a transaction id. */
  function Probed(s: State, i: nat): State
    requires At(s, i, Preparing)
  {
    CallStep(s, Probe(i, Mutable)).value
  }

  lemma {:induction false} XidStays(s: State, i: nat, run: seq<Action>)
    requires (i in s.calls ==> s.calls[i].xid) && Exec(s, run).Some?
    requires forall n | 0 <= n < |run| :: !(run[n].Enter? && run[n].i == i)
    ensures i in Exec(s, run).value.calls ==> Exec(s, run).value.calls[i].xid
    decreases run
  {
    if run != [] {
      XidStaysOneStep(s, i, run[0]);
      XidStays(Next(s, run[0]).value, i, run[1..]);
    }
  }

  lemma XidStaysOneStep(s: State, i: nat, a: Action)
    requires (i in s.calls ==> s.calls[i].xid) && !(a.Enter? && a.i == i) && Next(s, a).Some?
    ensures i in Next(s, a).value.calls ==> Next(s, a).value.calls[i].xid
  {
  }

  // ------------------------------------------------------------ which calls can deadlock

  /** The call has yet to ask moonlink or is asking, and nothing stands in the way of its CREATE TABLE. */
  predicate OnItsWay(s: State, i: nat) {
    i in s.calls &&
    match s.calls[i].phase
    case Preparing => s.calls[i].dst !in s.catalog && !Locked(s, s.calls[i].dst, Loop(i))
    case Creating => true
    case Created => true
    case Registering(_) => true
    case _ => false
  }

  /** Not the start of another call under this number, nor a mode probe that assigns a transaction id. */
  predicate Harmless(a: Action, i: nat) {
    && !(a.Enter? && a.i == i)
    && !(a.Probe? && a.i == i && a.path.Mutable?)
  }

  /** After `run`, with these locks asked for, the caller is in a wait cycle. */
  ghost predicate DeadlocksAfter(s: State, i: nat, run: seq<Action>, q: Queues) {
    (forall a :: a in run ==> Harmless(a, i)) && Exec(s, run).Some? && OnCycle(Exec(s, run).value, q, Caller(i))
  }

  predicate FreshOrGone(s: State, i: nat) { i in s.calls ==> !s.calls[i].xid && s.calls[i].locks == {} }

  lemma StepKeepsCaller(s: State, i: nat, a: Action)
    requires Harmless(a, i) && Next(s, a).Some? && i in Next(s, a).value.calls
    ensures var next := Next(s, a).value;
            i in s.calls && next.calls[i].xid == s.calls[i].xid && next.calls[i].locks == s.calls[i].locks
  {
    if CallStep(s, a).None? {
      TxStepKeepsCalls(s, a);
    }
  }

  lemma {:induction false} RunKeepsFreshOrGone(s: State, i: nat, run: seq<Action>)
    requires FreshOrGone(s, i) && (forall a :: a in run ==> Harmless(a, i)) && Exec(s, run).Some?
    ensures FreshOrGone(Exec(s, run).value, i)
    decreases run
  {
    if run != [] {
      var next := Next(s, run[0]).value;
      assert run[0] in run && forall a :: a in run[1..] ==> a in run;
      if i in next.calls {
        StepKeepsCaller(s, i, run[0]);
      }
      RunKeepsFreshOrGone(next, i, run[1..]);
    }
  }

  /** The call as it is when its RPC is pending. */
  predicate Asks(s: State, i: nat, c: Call) {
    i in s.calls && s.calls[i].phase.Registering? && s.calls[i].xid == c.xid && s.calls[i].locks == c.locks
  }

  lemma SendsRequest(s: State, i: nat)
    requires At(s, i, Created)
    ensures Exec(s, [Send(i)]).Some? && Asks(Exec(s, [Send(i)]).value, i, s.calls[i])
  {
    One(s, Send(i));
  }

  lemma CommitsAndSends(s: State, i: nat)
    requires At(s, i, Creating)
    ensures var run := [CreateCommit(i, true)] + [Send(i)];
            Exec(s, run).Some? && Asks(Exec(s, run).value, i, s.calls[i])
  {
    var s1 := CommitCreate(s, i, true).value;
    One(s, CreateCommit(i, true));
    SendsRequest(s1, i);
    Then(s, [CreateCommit(i, true)], s1, [Send(i)]);
  }

  lemma ReachesItsRpc(s: State, i: nat) returns (run: seq<Action>)
    requires OnItsWay(s, i)
    ensures forall a :: a in run ==> Harmless(a, i)
    ensures Exec(s, run).Some? && Asks(Exec(s, run).value, i, s.calls[i])
  {
    match s.calls[i].phase {
      case Preparing =>
        var s1 := BeginCreate(s, i).value;
        var rest := [CreateCommit(i, true)] + [Send(i)];
        One(s, CreateBegin(i));
        CommitsAndSends(s1, i);
        Then(s, [CreateBegin(i)], s1, rest);
        run := [CreateBegin(i)] + rest;
      case Creating =>
        CommitsAndSends(s, i);
        run := [CreateCommit(i, true)] + [Send(i)];
      case Created =>
        SendsRequest(s, i);
        run := [Send(i)];
      case Registering(_) =>
        run := [];
    }
  }

  /** While the RPC is pending, a session that writes anything and asks for the caller's lock closes a cycle. */
  lemma WriterClosesCycle(s: State, i: nat) returns (run: seq<Action>, q: Queues)
    requires i in s.calls && s.calls[i].phase.Registering? && s.calls[i].locks != {}
    ensures forall a :: a in run ==> Harmless(a, i)
    ensures Exec(s, run).Some? && OnCycle(Exec(s, run).value, q, Caller(i))
  {
    var j, k := Unused(s);
    var lock :| lock in s.calls[i].locks;
    run := OpensCreate(s, j, k);
    q := Queues(map[Session(j) := lock], {});
    var end := WithTx(s.(nextOid := s.nextOid + 1), Session(j), CreateTx(k, s.nextOid));
    assert k in end.txs[Session(j)].view;
    LockHoldingCallerDeadlocks(end, q, i, Session(j));
  }

  lemma TiedCallerCanDeadlock(s: State, i: nat) returns (run: seq<Action>, q: Queues)
    requires OnItsWay(s, i) && (s.calls[i].xid || s.calls[i].locks != {})
    ensures DeadlocksAfter(s, i, run, q)
  {
    var first := ReachesItsRpc(s, i);
    var asking := Exec(s, first).value;
    if s.calls[i].xid {
      run, q := first, Queues(map[], {});
      XidDeadlocks(asking, q, i);
    } else {
      var rest;
      rest, q := WriterClosesCycle(asking, i);
      Then(s, first, asking, rest);
      run := first + rest;
    }
  }

  /**
   Which calls can end up in a wait cycle: for a call that has not been answered yet, over
   everything that can happen from now on, exactly those whose caller has a transaction
   id or holds a lock. Both can be known before the call is made.
   */
  lemma CanDeadlockIff(s: State, i: nat)
    requires OnItsWay(s, i)
    ensures (exists run, q :: DeadlocksAfter(s, i, run, q)) <==> s.calls[i].xid || s.calls[i].locks != {}
  {
    if s.calls[i].xid || s.calls[i].locks != {} {
      var run, q := TiedCallerCanDeadlock(s, i);
    } else {
      forall run, q ensures !DeadlocksAfter(s, i, run, q) {
        if (forall a :: a in run ==> Harmless(a, i)) && Exec(s, run).Some? {
          RunKeepsFreshOrGone(s, i, run);
          CallerOffCycles(Exec(s, run).value, q, i);
        }
      }
    }
  }
}
