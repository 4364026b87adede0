/**
 get_stream: the retry loop that opens the moonlink socket, and the cell that holds
 it for the rest of the backend's life. Times are in nanoseconds.
 */
module Stream {
  const DEADLINE_MS: nat := 10_000

  /** Nanoseconds in so many milliseconds. */
  function Ns(ms: nat): nat { ms * 1_000_000 }

  /** What the socket and the clock do: attempt k succeeds or not and takes a while, sleep k overshoots. */
  datatype Net = Net(answers: nat -> bool, takes: nat -> nat, overshoots: nat -> nat)

  function Min(a: nat, b: nat): nat { if a < b then a else b }

  function Pow2(k: nat): nat { if k == 0 then 1 else 2 * Pow2(k - 1) }

  /** Milliseconds slept after the (k+1)-st failure. */
  function DelayMs(k: nat): nat { Min(50 * Pow2(k), 1000) }

  function SleptMs(k: nat): nat { if k == 0 then 0 else SleptMs(k - 1) + DelayMs(k - 1) }

  lemma {:induction false} Pow2Grows(k: nat)
    ensures k >= 5 ==> Pow2(k) >= 32
  {
    if k > 5 {
      Pow2Grows(k - 1);
    } else if k == 5 {
      assert Pow2(1) == 2 && Pow2(2) == 4 && Pow2(3) == 8 && Pow2(4) == 16;
    }
  }

  /** 50, 150, 350, 750, 1550, and from there one second a time. */
  lemma {:induction false} SleptFrom(k: nat)
    requires k >= 5
    ensures SleptMs(k) == 1550 + 1000 * (k - 5)
  {
    if k == 5 {
      assert Pow2(1) == 2 && Pow2(2) == 4 && Pow2(3) == 8 && Pow2(4) == 16;
      assert SleptMs(1) == 50 && SleptMs(2) == 150 && SleptMs(3) == 350 && SleptMs(4) == 750;
    } else {
      SleptFrom(k - 1);
      Pow2Grows(k - 1);
    }
  }

  lemma {:induction false} SleptGrows(j: nat, k: nat)
    requires j <= k
    ensures SleptMs(j) <= SleptMs(k)
  {
    if j < k {
      SleptGrows(j, k - 1);
    }
  }

  /** Thirteen sleeps do not reach the deadline, fourteen do. */
  lemma {:induction false} FourteenSleeps(k: nat)
    ensures SleptMs(k) < DEADLINE_MS <==> k <= 13
  {
    SleptFrom(13);
    SleptFrom(14);
    if k <= 13 { SleptGrows(k, 13); } else { SleptGrows(14, k); }
  }

  /** The clock when attempt k has been answered, all attempts before it having failed. */
  function AnsweredAt(net: Net, start: nat, k: nat): nat {
    if k == 0 then start + net.takes(0)
    else AnsweredAt(net, start, k - 1) + Ns(DelayMs(k - 1)) + net.overshoots(k - 1) + net.takes(k)
  }

  function Sum(f: nat -> nat, n: nat): nat { if n == 0 then 0 else Sum(f, n - 1) + f(n - 1) }

  /** Nanoseconds: every connect up to this one, and every sleep with its overshoot, 50 ms doubling to one second. */
  lemma {:induction false} AnsweredAtIs(net: Net, start: nat, k: nat)
    ensures AnsweredAt(net, start, k) ==
            start + 1_000_000 * SleptMs(k) + Sum(net.takes, k + 1) + Sum(net.overshoots, k)
    ensures SleptMs(k) == (if k <= 5 then [0, 50, 150, 350, 750, 1550][k] else 1550 + 1000 * (k - 5))
  {
    assert Pow2(1) == 2 && Pow2(2) == 4 && Pow2(3) == 8 && Pow2(4) == 16;
    assert SleptMs(1) == 50 && SleptMs(2) == 150 && SleptMs(3) == 350 && SleptMs(4) == 750;
    if k >= 5 {
      SleptFrom(k);
    }
    if k > 0 {
      AnsweredAtIs(net, start, k - 1);
    }
  }

  /** Attempt k is made: every earlier one failed before the deadline. */
  ghost predicate Attempted(net: Net, start: nat, k: nat) {
    forall j | 0 <= j < k :: !net.answers(j) && AnsweredAt(net, start, j) < start + Ns(DEADLINE_MS)
  }

  /** The loop ends with a connection. */
  ghost predicate Connects(net: Net, start: nat) {
    exists k: nat :: Attempted(net, start, k) && net.answers(k)
  }

  lemma {:induction false} TimePasses(net: Net, start: nat, k: nat)
    ensures AnsweredAt(net, start, k) >= start + Ns(SleptMs(k))
    ensures (forall j :: net.takes(j) == 0 && net.overshoots(j) == 0) ==>
              AnsweredAt(net, start, k) == start + Ns(SleptMs(k))
  {
    if k > 0 {
      TimePasses(net, start, k - 1);
    }
  }

  /** However the clock runs, no more than fifteen attempts are made. */
  lemma AtMostFifteenAttempts(net: Net, start: nat, k: nat)
    requires Attempted(net, start, k)
    ensures k <= 14
  {
    TimePasses(net, start, 14);
    FourteenSleeps(14);
    assert AnsweredAt(net, start, 14) >= start + Ns(DEADLINE_MS);
  }

  /** A failure past the deadline is the last attempt. */
  lemma GivingUpIsFinal(net: Net, start: nat, last: nat)
    requires Attempted(net, start, last) && !net.answers(last)
    requires AnsweredAt(net, start, last) >= start + Ns(DEADLINE_MS)
    ensures !Connects(net, start)
  {
    forall k: nat | Attempted(net, start, k) ensures !net.answers(k) {
      assert k <= last;
    }
  }

  /** An exact clock and a dead socket: all fifteen attempts are made. */
  lemma FifteenAttemptsAreMade(net: Net, start: nat)
    requires forall j :: net.takes(j) == 0 && net.overshoots(j) == 0 && !net.answers(j)
    ensures Attempted(net, start, 14) && !Connects(net, start)
  {
    forall j | 0 <= j < 14 ensures AnsweredAt(net, start, j) < start + Ns(DEADLINE_MS) {
      TimePasses(net, start, j);
      FourteenSleeps(j);
    }
  }

  /** The sleeps follow the schedule. */
  ghost predicate OnSchedule(delays: seq<nat>) {
    forall k | 0 <= k < |delays| :: delays[k] == DelayMs(k)
  }

  lemma ScheduleGrows(delays: seq<nat>)
    requires OnSchedule(delays)
    ensures OnSchedule(delays + [DelayMs(|delays|)])
  {
  }

  lemma NextAttempt(net: Net, start: nat, k: nat)
    requires Attempted(net, start, k) && !net.answers(k)
    requires AnsweredAt(net, start, k) < start + Ns(DEADLINE_MS)
    ensures Attempted(net, start, k + 1) && k + 1 <= 14
    ensures Min(DelayMs(k) * 2, 1000) == DelayMs(k + 1)
    ensures AnsweredAt(net, start, k + 1) ==
            AnsweredAt(net, start, k) + Ns(DelayMs(k)) + net.overshoots(k) + net.takes(k + 1)
  {
    AtMostFifteenAttempts(net, start, k + 1);
  }

  /**
   The initialiser's loop: connect, and on failure before the deadline sleep and double
   the delay. `delays` are the sleeps in milliseconds; one more attempt was made.
   */
  method Connect(net: Net, start: nat) returns (ok: bool, now: nat, delays: seq<nat>)
    ensures ok <==> Connects(net, start)
    ensures Attempted(net, start, |delays|) && now == AnsweredAt(net, start, |delays|)
    ensures |delays| <= 14
    ensures OnSchedule(delays)
    ensures ok <==> net.answers(|delays|)
    // one more try after every failure within ten seconds, none after the first failure past them
    ensures forall k | 0 <= k < |delays| :: !net.answers(k) && AnsweredAt(net, start, k) - start < 10_000_000_000
    ensures !ok ==> now - start >= 10_000_000_000
  {
    var delay := 50;
    var deadline := start + Ns(DEADLINE_MS);
    delays := [];
    now := start + net.takes(0);
    assert Pow2(0) == 1;
    while !net.answers(|delays|) && now < deadline
      invariant Attempted(net, start, |delays|) && now == AnsweredAt(net, start, |delays|)
      invariant delay == DelayMs(|delays|) && |delays| <= 14
      invariant OnSchedule(delays)
      decreases 14 - |delays|
    {
      NextAttempt(net, start, |delays|);
      ScheduleGrows(delays);
      now := now + Ns(delay) + net.overshoots(|delays|);
      delays := delays + [delay];
      delay := Min(delay * 2, 1000);
      now := now + net.takes(|delays|);
    }
    ok := net.answers(|delays|);
    if !ok {
      GivingUpIsFinal(net, start, |delays|);
    }
  }

  /** The time bgworker_status has polled when it looks for the (k+1)-st time. */
  function PolledFor(overshoots: nat -> nat, k: nat): nat {
    if k == 0 then 0 else PolledFor(overshoots, k - 1) + Ns(10) + overshoots(k - 1)
  }

  /** Nanoseconds: ten milliseconds for every sleep, and by how much it overshot. */
  lemma {:induction false} PolledForIs(overshoots: nat -> nat, k: nat)
    ensures PolledFor(overshoots, k) == 10_000_000 * k + Sum(overshoots, k)
  {
    if k > 0 {
      PolledForIs(overshoots, k - 1);
    }
  }

  /** Before each of the first `n` sleeps the thread was not done and 250 ms had not passed. */
  ghost predicate Polling(finished: nat -> bool, overshoots: nat -> nat, n: nat) {
    forall k | 0 <= k < n :: !finished(k) && PolledFor(overshoots, k) <= 250_000_000
  }

  lemma PollAgain(finished: nat -> bool, overshoots: nat -> nat, n: nat)
    requires Polling(finished, overshoots, n) && !finished(n) && PolledFor(overshoots, n) <= Ns(250)
    ensures Polling(finished, overshoots, n + 1)
  {
  }

  /**
   bgworker_status: polls a probing thread every 10 ms and gives up once more than
   250 ms have passed. `finished(k)` says whether the thread is done at the (k+1)-st look.
   */
  method ProbeSocket(socketExists: bool, finished: nat -> bool, listening: bool, overshoots: nat -> nat)
    returns (result: bool, sleeps: nat)
    ensures result <==> socketExists && finished(sleeps) && listening
    ensures if socketExists then finished(sleeps) || PolledFor(overshoots, sleeps) > 250_000_000 else sleeps == 0
    ensures forall k | 0 <= k < sleeps :: !finished(k) && PolledFor(overshoots, k) <= 250_000_000
    ensures sleeps <= 26
  {
    sleeps := 0;
    if !socketExists {
      return false, 0;
    }
    var elapsed := 0;
    while true
      invariant elapsed == PolledFor(overshoots, sleeps) && elapsed >= 10_000_000 * sleeps && sleeps <= 26
      invariant Polling(finished, overshoots, sleeps)
      decreases 26 - sleeps
    {
      if finished(sleeps) {
        return listening, sleeps;
      }
      if elapsed > Ns(250) {
        return false, sleeps;
      }
      PollAgain(finished, overshoots, sleeps);
      elapsed := elapsed + Ns(10) + overshoots(sleeps);
      sleeps := sleeps + 1;
    }
  }

  // ---------------------------------------------------------------- the stream cell

  /** `static STREAM: LazyLock<Mutex<UnixStream>>`: a panic in either layer is remembered for good. */
  datatype Cell = Untouched | InitPanicked | Live(poisoned: bool)

  /** First use runs the initialiser. */
  function Touch(cell: Cell, connects: bool): Cell {
    if cell != Untouched then cell else if connects then Live(false) else InitPanicked
  }

  /** Would get_stream return, given that the socket answers? */
  predicate Usable(cell: Cell) { Touch(cell, true) == Live(false) }

  /** One call of an extension function, as far as the stream is concerned. */
  datatype Call =
    | NoStream                               // panics or ends before get_stream
    | Guarded(connects: bool, rpc: bool)     // .expect in the statement that holds the guard
    | Released(connects: bool, rpc: bool)    // create_table: result bound first, inspected later

  function AfterCall(cell: Cell, call: Call): Cell {
    match call
    case NoStream => cell
    case Released(connects, _) => Touch(cell, connects)
    case Guarded(connects, rpc) =>
      var c := Touch(cell, connects);
      if c == Live(false) && !rpc then Live(true) else c
  }

  function AfterCalls(cell: Cell, calls: seq<Call>): Cell
    decreases calls
  {
    if calls == [] then cell else AfterCalls(AfterCall(cell, calls[0]), calls[1..])
  }

  predicate FirstTouch(calls: seq<Call>, k: nat) {
    k < |calls| && !calls[k].NoStream? && forall j | 0 <= j < k :: calls[j].NoStream?
  }

  /** The initialisation did not panic and no RPC failed under the guard. */
  ghost predicate NothingWentWrong(calls: seq<Call>) {
    && (forall k: nat :: FirstTouch(calls, k) ==> calls[k].connects)
    && (forall k | 0 <= k < |calls| :: calls[k].Guarded? ==> calls[k].rpc)
  }

  lemma {:induction false} TouchedStaysUsableIff(cell: Cell, calls: seq<Call>)
    requires cell != Untouched
    ensures Usable(AfterCalls(cell, calls)) <==>
            Usable(cell) && forall k | 0 <= k < |calls| :: calls[k].Guarded? ==> calls[k].rpc
    decreases calls
  {
    if calls != [] {
      var next := AfterCall(cell, calls[0]);
      TouchedStaysUsableIff(next, calls[1..]);
      assert forall k | 1 <= k < |calls| :: calls[k] == calls[1..][k - 1];
    }
  }

  /**
   Over any sequence of calls in one backend the stream stays usable exactly when its
   initialisation did not panic and no RPC failed inside a statement holding the guard.
   */
  lemma {:induction false} UsableIffNothingWentWrong(calls: seq<Call>)
    ensures Usable(AfterCalls(Untouched, calls)) <==> NothingWentWrong(calls)
  {
    if calls == [] {
    } else if calls[0].NoStream? {
      UsableIffNothingWentWrong(calls[1..]);
      forall k: nat | 1 <= k ensures FirstTouch(calls, k) <==> FirstTouch(calls[1..], k - 1) {
        assert forall j | 1 <= j < k && j < |calls| :: calls[j] == calls[1..][j - 1];
      }
      if NothingWentWrong(calls) {
        forall k: nat | FirstTouch(calls[1..], k) ensures calls[1..][k].connects {
          assert FirstTouch(calls, k + 1);
        }
      }
      if NothingWentWrong(calls[1..]) {
        forall k: nat | FirstTouch(calls, k) ensures calls[k].connects {
          assert k >= 1 && FirstTouch(calls[1..], k - 1);
        }
        forall k | 0 <= k < |calls| && calls[k].Guarded? ensures calls[k].rpc {
          assert calls[k] == calls[1..][k - 1];
        }
      }
    } else {
      TouchedStaysUsableIff(AfterCall(Untouched, calls[0]), calls[1..]);
      assert FirstTouch(calls, 0);
      assert forall k: nat :: FirstTouch(calls, k) ==> k == 0;
      assert forall k | 1 <= k < |calls| :: calls[k] == calls[1..][k - 1];
    }
  }

  /** A rejected create_table poisons nothing: the next call finds the stream as a successful one leaves it. */
  lemma RejectedCreateKeepsTheStream(calls: seq<Call>, connects: bool)
    ensures AfterCalls(Untouched, calls + [Released(connects, false)])
            == AfterCalls(Untouched, calls + [Released(connects, true)])
    ensures Usable(AfterCalls(Untouched, calls)) && connects ==>
              Usable(AfterCalls(Untouched, calls + [Released(connects, false)]))
  {
    AfterCallsAppend(Untouched, calls, Released(connects, false));
    AfterCallsAppend(Untouched, calls, Released(connects, true));
  }

  lemma {:induction false} AfterCallsAppend(cell: Cell, calls: seq<Call>, last: Call)
    ensures AfterCalls(cell, calls + [last]) == AfterCall(AfterCalls(cell, calls), last)
    decreases calls
  {
    if calls == [] {
      assert calls + [last] == [last];
    } else {
      assert (calls + [last])[1..] == calls[1..] + [last];
      AfterCallsAppend(AfterCall(cell, calls[0]), calls[1..], last);
    }
  }
}
