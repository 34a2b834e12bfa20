/** The login rate limiter of app/auth.py and the gate `login` of app/api.py builds on it. */
module RateLimiter {
  import opened Sequences

  /** What the limiter is told, in order. */
  datatype Attempt = Failure(client: string, at: int) | Success(client: string)

  /** The failures of a client since its last success: the full, unpruned record. */
  function Since(history: seq<Attempt>, client: string): seq<int> {
    if history == [] then []
    else if Last(history).client != client then Since(Front(history), client)
    else
      match Last(history)
      case Failure(_, at) => Since(Front(history), client) + [at]
      case Success(_) => []
  }

  /** The times still inside the window. */
  function InWindow(times: seq<int>, now: int, window: int): seq<int> {
    if times == [] then []
    else if now - Last(times) < window then InWindow(Front(times), now, window) + [Last(times)]
    else InWindow(Front(times), now, window)
  }

  function FailuresInWindow(history: seq<Attempt>, client: string, now: int, window: int): seq<int> {
    InWindow(Since(history, client), now, window)
  }

  /** The entries that count against a client: its failures inside the window that no success followed. */
  function Counted(history: seq<Attempt>, client: string, now: int, window: int): set<int> {
    set i | 0 <= i < |history| && history[i].Failure? && history[i].client == client
            && now - history[i].at < window && forall j :: i < j < |history| ==> history[j] != Success(client)
  }

  lemma CountedStep(history: seq<Attempt>, e: Attempt, client: string, now: int, window: int)
    ensures Counted(history + [e], client, now, window) ==
            if e == Success(client) then {}
            else if e.Failure? && e.client == client && now - e.at < window
            then Counted(history, client, now, window) + {|history|}
            else Counted(history, client, now, window)
  {
    var all := history + [e];
    assert all[|history|] == e && forall i :: 0 <= i < |history| ==> all[i] == history[i];
  }

  /** The record in the window has one time for each of these entries. */
  lemma {:induction false} RecordIsCounted(history: seq<Attempt>, client: string, now: int, window: int)
    ensures |FailuresInWindow(history, client, now, window)| ==
            |(set i | 0 <= i < |history| && history[i].Failure? && history[i].client == client
                      && now - history[i].at < window
                      && (forall j :: i < j < |history| ==> history[j] != Success(client)))|
  {
    assert |FailuresInWindow(history, client, now, window)| == |Counted(history, client, now, window)| by {
      if history != [] {
        RecordIsCounted(Front(history), client, now, window);
        CountedStep(Front(history), Last(history), client, now, window);
        Snoc(history);
        FrontOfSnoc(Since(Front(history), client), 0);
        if Last(history).Failure? && Last(history).client == client {
          FrontOfSnoc(Since(Front(history), client), Last(history).at);
        }
      }
    }
  }

  lemma {:induction false} InWindowAppend(a: seq<int>, b: seq<int>, now: int, window: int)
    ensures InWindow(a + b, now, window) == InWindow(a, now, window) + InWindow(b, now, window)
  {
    if b == [] {
      AppendNothing(a);
      AppendNothing(InWindow(a, now, window));
    } else {
      FrontOfAppend(a, b);
      InWindowAppend(a, Front(b), now, window);
      Associate(InWindow(a, now, window), InWindow(Front(b), now, window), [Last(b)]);
    }
  }

  lemma {:induction false} AllExpired(times: seq<int>, now: int, window: int)
    requires forall i :: 0 <= i < |times| ==> now - times[i] >= window
    ensures InWindow(times, now, window) == []
  {
    if times != [] {
      AllExpired(Front(times), now, window);
    }
  }

  lemma {:induction false} NoneExpired(times: seq<int>, now: int, window: int)
    requires forall i :: 0 <= i < |times| ==> now - times[i] < window
    ensures InWindow(times, now, window) == times
  {
    if times != [] {
      NoneExpired(Front(times), now, window);
      Snoc(times);
    }
  }

  lemma {:induction false} WindowMovesOn(times: seq<int>, now: int, later: int, window: int)
    requires now <= later
    ensures |InWindow(times, later, window)| <= |InWindow(times, now, window)|
  {
    if times != [] {
      WindowMovesOn(Front(times), now, later, window);
    }
  }

  // ----- the pruned deque -----

  ghost predicate SortedUpTo(times: seq<int>, clock: int) {
    && (forall i, j :: 0 <= i <= j < |times| ==> times[i] <= times[j])
    && (forall i :: 0 <= i < |times| ==> times[i] <= clock)
  }

  /** The deque is the record without some expired failures at its old end. */
  ghost predicate Prunes(deque: seq<int>, record: seq<int>, clock: int, window: int) {
    && SortedUpTo(record, clock)
    && |deque| <= |record|
    && deque == record[|record| - |deque|..]
    && forall i :: 0 <= i < |record| - |deque| ==> clock - record[i] >= window
  }

  lemma PrunedIsInWindow(deque: seq<int>, record: seq<int>, now: int, window: int)
    requires Prunes(deque, record, now, window)
    requires deque == [] || now - deque[0] < window
    ensures deque == InWindow(record, now, window)
  {
    var k := |record| - |deque|;
    Split(record, k);
    InWindowAppend(record[..k], record[k..], now, window);
    AllExpired(record[..k], now, window);
    forall i | 0 <= i < |deque|
      ensures now - deque[i] < window
    {
      assert record[k] <= record[k + i];
    }
    NoneExpired(deque, now, window);
  }

  /** The deque of a client; a client without one has an empty one. */
  function DequeOf(failures: map<string, seq<int>>, client: string): seq<int> {
    if client in failures then failures[client] else []
  }

  /** Every client's deque is its record, pruned. */
  ghost predicate AllPruned(failures: map<string, seq<int>>, history: seq<Attempt>, clock: int, window: int) {
    forall client :: Prunes(DequeOf(failures, client), Since(history, client), clock, window)
  }

  lemma PopPrunes(deque: seq<int>, record: seq<int>, now: int, window: int)
    requires Prunes(deque, record, now, window)
    requires deque != [] && now - deque[0] >= window
    ensures Prunes(deque[1..], record, now, window)
  {
    var k := |record| - |deque|;
    assert deque[0] == record[k];
    assert deque[1..] == record[k + 1..];
  }

  lemma AppendPrunes(deque: seq<int>, record: seq<int>, now: int, window: int)
    requires Prunes(deque, record, now, window)
    ensures Prunes(deque + [now], record + [now], now, window)
  {
    var longer := record + [now];
    assert forall i :: 0 <= i < |record| ==> longer[i] == record[i];
  }

  lemma PrunesLater(deque: seq<int>, record: seq<int>, clock: int, now: int, window: int)
    requires Prunes(deque, record, clock, window) && clock <= now
    ensures Prunes(deque, record, now, window)
  {
  }

  lemma PrunedHere(failures: map<string, seq<int>>, history: seq<Attempt>, clock: int, window: int, client: string)
    requires AllPruned(failures, history, clock, window)
    ensures Prunes(DequeOf(failures, client), Since(history, client), clock, window)
  {
  }

  lemma PrunedOther(failures: map<string, seq<int>>, history: seq<Attempt>, clock: int, window: int,
                    client: string, queue: seq<int>, now: int, other: string)
    requires AllPruned(failures, history, clock, window) && clock <= now
    requires Prunes(queue, Since(history, client), now, window)
    ensures Prunes(DequeOf(failures[client := queue], other), Since(history, other), now, window)
  {
    if other != client {
      PrunedHere(failures, history, clock, window, other);
      PrunesLater(DequeOf(failures, other), Since(history, other), clock, now, window);
    }
  }

  lemma PrunedOne(failures: map<string, seq<int>>, history: seq<Attempt>, clock: int, window: int,
                  client: string, queue: seq<int>, now: int)
    requires AllPruned(failures, history, clock, window) && clock <= now
    requires Prunes(queue, Since(history, client), now, window)
    ensures AllPruned(failures[client := queue], history, now, window)
  {
    forall other
      ensures Prunes(DequeOf(failures[client := queue], other), Since(history, other), now, window)
    {
      PrunedOther(failures, history, clock, window, client, queue, now, other);
    }
  }

  lemma PrunedFailure(failures: map<string, seq<int>>, history: seq<Attempt>, now: int,
      window: int, client: string)
    requires AllPruned(failures, history, now, window)
    ensures var failures' := failures[client := DequeOf(failures, client) + [now]];
            AllPruned(failures', history + [Failure(client, now)], now, window)
  {
    FrontOfSnoc(history, Failure(client, now));
    var failures' := failures[client := DequeOf(failures, client) + [now]];
    forall other
      ensures Prunes(DequeOf(failures', other), Since(history + [Failure(client, now)], other), now, window)
    {
      assert Prunes(DequeOf(failures, other), Since(history, other), now, window);
      AppendPrunes(DequeOf(failures, other), Since(history, other), now, window);
    }
  }

  lemma PrunedSuccess(failures: map<string, seq<int>>, history: seq<Attempt>, clock: int,
      window: int, client: string)
    requires AllPruned(failures, history, clock, window)
    ensures AllPruned(failures - {client}, history + [Success(client)], clock, window)
  {
    FrontOfSnoc(history, Success(client));
    forall other
      ensures Prunes(DequeOf(failures - {client}, other), Since(history + [Success(client)], other), clock, window)
    {
      assert Prunes(DequeOf(failures, other), Since(history, other), clock, window);
    }
  }

  class LoginRateLimiter {
    const attempts: int
    const window: int
    var failures: map<string, seq<int>>
    ghost var history: seq<Attempt>
    ghost var clock: int

    ghost predicate Valid()
      reads this
    {
      AllPruned(failures, history, clock, window)
    }

    constructor (attempts: int, window: int, now: int)
      ensures this.attempts == attempts && this.window == window
      ensures Valid() && history == [] && clock == now
    {
      this.attempts, this.window := attempts, window;
      failures, history, clock := map[], [], now;
    }

    /** Allowed exactly when the full record shows fewer failures in the window than attempts. */
    method IsAllowed(client: string, now: int) returns (allowed: bool)
      requires Valid() && clock <= now
      modifies this
      ensures Valid() && clock == now && history == old(history)
      ensures DequeOf(failures, client) == FailuresInWindow(history, client, now, window)
      ensures allowed <==> |FailuresInWindow(history, client, now, window)| < attempts
    {
      PrunedHere(failures, history, clock, window, client);
      var queue := Prune(DequeOf(failures, client), now, Since(history, client), clock);
      PrunedOne(failures, history, clock, window, client, queue, now);
      failures := failures[client := queue];
      clock := now;
      allowed := |queue| < attempts;
    }

    /** The loop of `is_allowed`: drop expired failures from the old end. */
    method Prune(deque: seq<int>, now: int, ghost record: seq<int>, ghost earlier: int) returns (queue: seq<int>)
      requires Prunes(deque, record, earlier, window) && earlier <= now
      ensures queue == InWindow(record, now, window) && Prunes(queue, record, now, window)
    {
      queue := deque;
      PrunesLater(queue, record, earlier, now, window);
      while |queue| > 0 && now - queue[0] >= window
        invariant Prunes(queue, record, now, window)
      {
        PopPrunes(queue, record, now, window);
        queue := queue[1..];
      }
      PrunedIsInWindow(queue, record, now, window);
    }

    method RecordFailure(client: string, now: int)
      requires Valid() && clock <= now
      modifies this
      ensures Valid() && clock == now && history == old(history) + [Failure(client, now)]
    {
      var _ := IsAllowed(client, now);
      PrunedFailure(failures, history, now, window, client);
      failures := failures[client := DequeOf(failures, client) + [now]];
      history := history + [Failure(client, now)];
    }

    method RecordSuccess(client: string)
      requires Valid()
      modifies this
      ensures Valid() && clock == old(clock) && history == old(history) + [Success(client)]
    {
      PrunedSuccess(failures, history, clock, window, client);
      failures := failures - {client};
      history := history + [Success(client)];
    }
  }

  // ----- login -----

  datatype LoginStatus = TooManyRequests | Unauthorized | LoggedIn

  /**
   * The gate of `login`: refused without looking at the password when the record is full, else
   * a wrong password is recorded and a right one clears the record.
   */
  method Login(limiter: LoginRateLimiter, client: string, checkedAt: int, decidedAt: int, credentialsValid: bool)
    returns (status: LoginStatus)
    requires limiter.Valid() && limiter.clock <= checkedAt <= decidedAt
    modifies limiter
    ensures limiter.Valid()
    ensures var recent := FailuresInWindow(old(limiter.history), client, checkedAt, limiter.window);
            var blocked := |recent| >= limiter.attempts;
            && (status == TooManyRequests <==> blocked)
            && (status == Unauthorized <==> !blocked && !credentialsValid)
            && (blocked ==> limiter.history == old(limiter.history) && limiter.clock == checkedAt)
            && (!blocked && !credentialsValid ==>
                  limiter.history == old(limiter.history) + [Failure(client, decidedAt)] && limiter.clock == decidedAt)
            && (!blocked && credentialsValid ==>
                  limiter.history == old(limiter.history) + [Success(client)] && limiter.clock == checkedAt)
  {
    var allowed := limiter.IsAllowed(client, checkedAt);
    if !allowed {
      return TooManyRequests;
    }
    if !credentialsValid {
      limiter.RecordFailure(client, decidedAt);
      return Unauthorized;
    }
    limiter.RecordSuccess(client);
    return LoggedIn;
  }

  // ----- any interleaving of logins -----

  /** Steps of logins that may overlap: the check, and later the outcome. */
  datatype Op = Check(client: string, at: int, passed: bool) | Fail(client: string, at: int) | Succeed(client: string)

  function Recorded(trace: seq<Op>): seq<Attempt> {
    if trace == [] then []
    else
      match Last(trace)
      case Check(_, _, _) => Recorded(Front(trace))
      case Fail(client, at) => Recorded(Front(trace)) + [Failure(client, at)]
      case Succeed(client) => Recorded(Front(trace)) + [Success(client)]
  }

  /** Logins of a client past the check and not yet decided. */
  function InFlight(trace: seq<Op>, client: string): int {
    if trace == [] then 0
    else
      var n := InFlight(Front(trace), client);
      if Last(trace).client != client then n
      else
        match Last(trace)
        case Check(_, _, passed) => if passed then n + 1 else n
        case _ => n - 1
  }

  function Clock(trace: seq<Op>, start: int): int {
    if trace == [] then start
    else
      match Last(trace)
      case Check(_, at, _) => at
      case Fail(_, at) => at
      case Succeed(_) => Clock(Front(trace), start)
  }

  /**
   * A possible run: time does not go back, every check answers from the record, outcomes come
   * from logins that passed, and at most `overlap` logins of one client are in flight at once.
   */
  ghost predicate Gated(trace: seq<Op>, start: int, attempts: int, window: int, overlap: nat) {
    trace == [] ||
    var before := Front(trace);
    && Gated(before, start, attempts, window, overlap)
    && match Last(trace)
       case Check(client, at, passed) =>
         && Clock(before, start) <= at
         && (passed <==> |FailuresInWindow(Recorded(before), client, at, window)| < attempts)
         && (passed ==> InFlight(before, client) < overlap)
       case Fail(client, at) => Clock(before, start) <= at && InFlight(before, client) >= 1
       case Succeed(client) => InFlight(before, client) >= 1
  }

  /** The most failures a window can hold. */
  function Bound(attempts: int, overlap: nat): nat {
    if attempts <= 0 || overlap == 0 then 0 else attempts - 1 + overlap
  }

  /** Failures in the window and logins in flight together stay within the bound, at every step. */
  lemma {:induction false} WindowIsBounded(trace: seq<Op>, start: int, attempts: int, window: int, overlap: nat,
                                           client: string, now: int)
    requires Gated(trace, start, attempts, window, overlap) && Clock(trace, start) <= now
    ensures InFlight(trace, client) >= 0
    ensures |FailuresInWindow(Recorded(trace), client, now, window)| + InFlight(trace, client) <=
            Bound(attempts, overlap)
  {
    if trace != [] {
      var before := Front(trace);
      WindowIsBounded(before, start, attempts, window, overlap, client, Clock(trace, start));
      WindowMovesOn(Since(Recorded(trace), client), Clock(trace, start), now, window);
      match Last(trace)
      case Check(_, _, _) =>
      case Fail(c, at) =>
        assert Front(Recorded(trace)) == Recorded(before);
        if c == client {
          InWindowAppend(Since(Recorded(before), client), [at], now, window);
          WindowMovesOn(Since(Recorded(before), client), at, now, window);
          assert |InWindow([at], now, window)| <= 1;
        }
      case Succeed(c) =>
        assert Front(Recorded(trace)) == Recorded(before);
    }
  }

  /** The failures of a client in a stretch of the trace. */
  function FailTimes(ops: seq<Op>, client: string): seq<int> {
    if ops == [] then []
    else if Last(ops).Fail? && Last(ops).client == client then FailTimes(Front(ops), client) + [Last(ops).at]
    else FailTimes(Front(ops), client)
  }

  ghost predicate NoSuccess(ops: seq<Op>, client: string) {
    forall i :: 0 <= i < |ops| ==> !(ops[i].Succeed? && ops[i].client == client)
  }

  lemma {:induction false} SinceStretch(before: seq<Op>, ops: seq<Op>, client: string)
    requires NoSuccess(ops, client)
    ensures Since(Recorded(before + ops), client) == Since(Recorded(before), client) + FailTimes(ops, client)
  {
    var trace := before + ops;
    if ops == [] {
      assert trace == before;
    } else {
      assert Front(trace) == before + Front(ops);
      assert !(ops[|ops| - 1].Succeed? && ops[|ops| - 1].client == client);
      SinceStretch(before, Front(ops), client);
      if !Last(ops).Check? {
        assert Front(Recorded(trace)) == Recorded(Front(trace));
      }
    }
  }

  lemma {:induction false} GatedPrefix(trace: seq<Op>, n: nat, start: int, attempts: int, window: int, overlap: nat)
    requires n <= |trace| && Gated(trace, start, attempts, window, overlap)
    ensures Gated(trace[..n], start, attempts, window, overlap)
    decreases |trace|
  {
    if n < |trace| {
      assert Front(trace)[..n] == trace[..n];
      GatedPrefix(Front(trace), n, start, attempts, window, overlap);
    } else {
      assert trace[..n] == trace;
    }
  }

  lemma LastFailureBounded(upTo: seq<Op>, start: int, attempts: int, window: int, overlap: nat,
                           client: string, i: nat, trace: seq<Op>, j: nat)
    requires Gated(trace, start, attempts, window, overlap)
    requires i < j <= |trace| && upTo == trace[..j] && NoSuccess(trace[i..j], client)
    requires trace[j - 1].Fail? && trace[j - 1].client == client
    requires var fails := FailTimes(trace[i..j], client);
             forall k :: 0 <= k < |fails| ==> Last(fails) - fails[k] < window
    ensures |FailTimes(trace[i..j], client)| <= Bound(attempts, overlap)
  {
    var ops, t := trace[i..j], trace[j - 1].at;
    var fails := FailTimes(ops, client);
    assert upTo == trace[..i] + ops;
    GatedPrefix(trace, j, start, attempts, window, overlap);
    assert Last(upTo) == trace[j - 1] && Last(ops) == trace[j - 1];
    assert Last(fails) == t;
    WindowIsBounded(upTo, start, attempts, window, overlap, client, t);
    SinceStretch(trace[..i], ops, client);
    InWindowAppend(Since(Recorded(trace[..i]), client), fails, t, window);
    NoneExpired(fails, t, window);
  }

  /**
   * The bound: in any run, a stretch without a success whose failures of one client all lie
   * within less than a window holds at most `attempts - 1 + overlap` of them.
   */
  lemma {:induction false} FailuresAreBounded(trace: seq<Op>, start: int, attempts: int, window: int, overlap: nat,
                                              client: string, i: nat, j: nat)
    requires Gated(trace, start, attempts, window, overlap)
    requires i <= j <= |trace| && NoSuccess(trace[i..j], client)
    requires var fails := FailTimes(trace[i..j], client);
             forall k :: 0 <= k < |fails| ==> Last(fails) - fails[k] < window
    ensures |FailTimes(trace[i..j], client)| <= Bound(attempts, overlap)
    decreases j
  {
    var ops := trace[i..j];
    if i < j {
      assert Front(ops) == trace[i..j - 1];
      if ops[|ops| - 1].Fail? && ops[|ops| - 1].client == client {
        LastFailureBounded(trace[..j], start, attempts, window, overlap, client, i, trace, j);
      } else {
        assert NoSuccess(Front(ops), client);
        assert FailTimes(ops, client) == FailTimes(trace[i..j - 1], client);
        FailuresAreBounded(trace, start, attempts, window, overlap, client, i, j - 1);
      }
    }
  }

  // ----- the bound is attained -----

  /** So many failures of a client, all at one time, and so many of its logins in flight. */
  ghost predicate Crowded(trace: seq<Op>, at: int, client: string, fails: nat, flying: nat) {
    && Clock(trace, at) == at
    && InFlight(trace, client) == flying
    && NoSuccess(trace, client)
    && Since(Recorded(trace), client) == FailTimes(trace, client)
    && |FailTimes(trace, client)| == fails
    && forall i :: 0 <= i < fails ==> FailTimes(trace, client)[i] == at
  }

  lemma CrowdCheck(trace: seq<Op>, at: int, attempts: int, window: int, overlap: nat, client: string,
                   fails: nat, flying: nat)
    returns (longer: seq<Op>)
    requires Gated(trace, at, attempts, window, overlap) && Crowded(trace, at, client, fails, flying)
    requires fails < attempts && flying < overlap && window >= 1
    ensures Gated(longer, at, attempts, window, overlap) && Crowded(longer, at, client, fails, flying + 1)
  {
    longer := trace + [Check(client, at, true)];
    FrontOfSnoc(trace, Check(client, at, true));
    NoneExpired(FailTimes(trace, client), at, window);
  }

  lemma CrowdFail(trace: seq<Op>, at: int, attempts: int, window: int, overlap: nat, client: string,
                  fails: nat, flying: nat)
    returns (longer: seq<Op>)
    requires Gated(trace, at, attempts, window, overlap) && Crowded(trace, at, client, fails, flying)
    requires flying >= 1
    ensures Gated(longer, at, attempts, window, overlap) && Crowded(longer, at, client, fails + 1, flying - 1)
  {
    longer := trace + [Fail(client, at)];
    FrontOfSnoc(trace, Fail(client, at));
    FrontOfSnoc(Recorded(trace), Failure(client, at));
  }

  /**
   * The bound is tight: for any positive limits there is a run, without a success and within one
   * moment, whose failures reach it. Logins fail one by one until one attempt is left, and then
   * `overlap` of them pass the check before the first of those fails.
   */
  lemma BoundIsReached(at: int, attempts: int, window: int, overlap: nat, client: string) returns (trace: seq<Op>)
    requires attempts >= 1 && window >= 1 && overlap >= 1
    ensures Gated(trace, at, attempts, window, overlap) && NoSuccess(trace, client)
    ensures |FailTimes(trace, client)| == Bound(attempts, overlap)
    ensures forall i :: 0 <= i < |FailTimes(trace, client)| ==> FailTimes(trace, client)[i] == at
  {
    trace := [];
    for n := 0 to attempts - 1
      invariant Gated(trace, at, attempts, window, overlap) && Crowded(trace, at, client, n, 0)
    {
      trace := CrowdCheck(trace, at, attempts, window, overlap, client, n, 0);
      trace := CrowdFail(trace, at, attempts, window, overlap, client, n, 1);
    }
    for n := 0 to overlap
      invariant Gated(trace, at, attempts, window, overlap) && Crowded(trace, at, client, attempts - 1, n)
    {
      trace := CrowdCheck(trace, at, attempts, window, overlap, client, attempts - 1, n);
    }
    for n := 0 to overlap
      invariant Gated(trace, at, attempts, window, overlap)
      invariant Crowded(trace, at, client, attempts - 1 + n, overlap - n)
    {
      trace := CrowdFail(trace, at, attempts, window, overlap, client, attempts - 1 + n, overlap - n);
    }
  }

  // ----- logins one after another -----

  datatype LoginCall = LoginCall(client: string, checkedAt: int, decidedAt: int, credentialsValid: bool)

  function OneLogin(before: seq<Op>, call: LoginCall, attempts: int, window: int): (ops: seq<Op>)
    ensures 1 <= |ops| <= 2
  {
    if |FailuresInWindow(Recorded(before), call.client, call.checkedAt, window)| >= attempts then
      [Check(call.client, call.checkedAt, false)]
    else if call.credentialsValid then
      [Check(call.client, call.checkedAt, true), Succeed(call.client)]
    else
      [Check(call.client, call.checkedAt, true), Fail(call.client, call.decidedAt)]
  }

  /** The trace of logins that never overlap, each deciding as `Login` does. */
  function LoginTrace(calls: seq<LoginCall>, attempts: int, window: int): seq<Op> {
    if calls == [] then []
    else
      var before := LoginTrace(Front(calls), attempts, window);
      before + OneLogin(before, Last(calls), attempts, window)
  }

  predicate InSequence(calls: seq<LoginCall>, start: int) {
    && (forall i :: 0 <= i < |calls| ==> start <= calls[i].checkedAt <= calls[i].decidedAt)
    && (forall i :: 0 < i < |calls| ==> calls[i - 1].decidedAt <= calls[i].checkedAt)
  }

  lemma InFlightStep(before: seq<Op>, op: Op, client: string)
    ensures InFlight(before + [op], client) ==
            InFlight(before, client) +
            if op.client != client then 0 else if op.Check? then (if op.passed then 1 else 0) else -1
  {
    FrontOfSnoc(before, op);
  }

  ghost predicate NoneInFlight(trace: seq<Op>) {
    forall client :: InFlight(trace, client) == 0
  }

  lemma BlockedIsGated(before: seq<Op>, client: string, at: int, start: int, attempts: int, window: int)
    requires Gated(before, start, attempts, window, 1) && NoneInFlight(before) && Clock(before, start) <= at
    requires |FailuresInWindow(Recorded(before), client, at, window)| >= attempts
    ensures var trace := before + [Check(client, at, false)];
            Gated(trace, start, attempts, window, 1) && NoneInFlight(trace) && Clock(trace, start) == at
  {
    FrontOfSnoc(before, Check(client, at, false));
    forall other
      ensures InFlight(before + [Check(client, at, false)], other) == 0
    {
      InFlightStep(before, Check(client, at, false), other);
    }
  }

  lemma PassedIsGated(before: seq<Op>, client: string, at: int, start: int, attempts: int, window: int)
    requires Gated(before, start, attempts, window, 1) && NoneInFlight(before) && Clock(before, start) <= at
    requires |FailuresInWindow(Recorded(before), client, at, window)| < attempts
    ensures var trace := before + [Check(client, at, true)];
            Gated(trace, start, attempts, window, 1) && Clock(trace, start) == at
    ensures forall other :: InFlight(before + [Check(client, at, true)], other) == if other == client then 1 else 0
  {
    FrontOfSnoc(before, Check(client, at, true));
    forall other
      ensures InFlight(before + [Check(client, at, true)], other) == if other == client then 1 else 0
    {
      InFlightStep(before, Check(client, at, true), other);
    }
  }

  lemma OutcomeIsGated(checked: seq<Op>, op: Op, at: int, start: int, attempts: int, window: int)
    requires Gated(checked, start, attempts, window, 1) && Clock(checked, start) <= at
    requires forall other :: InFlight(checked, other) == if other == op.client then 1 else 0
    requires op.Succeed? || (op.Fail? && op.at == at)
    ensures var trace := checked + [op];
            Gated(trace, start, attempts, window, 1) && NoneInFlight(trace) && Clock(trace, start) <= at
  {
    FrontOfSnoc(checked, op);
    forall other
      ensures InFlight(checked + [op], other) == 0
    {
      InFlightStep(checked, op, other);
    }
  }

  lemma OneLoginIsGated(before: seq<Op>, call: LoginCall, start: int, attempts: int, window: int)
    requires Gated(before, start, attempts, window, 1) && NoneInFlight(before)
    requires Clock(before, start) <= call.checkedAt <= call.decidedAt
    ensures var trace := before + OneLogin(before, call, attempts, window);
            && Gated(trace, start, attempts, window, 1) && NoneInFlight(trace)
            && Clock(trace, start) <= call.decidedAt
  {
    if |FailuresInWindow(Recorded(before), call.client, call.checkedAt, window)| >= attempts {
      BlockedIsGated(before, call.client, call.checkedAt, start, attempts, window);
    } else {
      var check := Check(call.client, call.checkedAt, true);
      var op := if call.credentialsValid then Succeed(call.client) else Fail(call.client, call.decidedAt);
      PassedIsGated(before, call.client, call.checkedAt, start, attempts, window);
      OutcomeIsGated(before + [check], op, call.decidedAt, start, attempts, window);
      assert before + [check, op] == before + [check] + [op];
    }
  }
 lemma {:induction false} SequentialLoginsAreGated(calls: seq<LoginCall>, start: int, attempts: int, window: int)
    requires InSequence(calls, start)
    ensures var trace := LoginTrace(calls, attempts, window);
            && Gated(trace, start, attempts, window, 1)
            && NoneInFlight(trace)
            && Clock(trace, start) <= if calls == [] then start else Last(calls).decidedAt
  {
    if calls != [] {
      var front, call := Front(calls), Last(calls);
      SequentialLoginsAreGated(front, start, attempts, window);
      var before := LoginTrace(front, attempts, window);
      if front != [] {
        assert calls[|calls| - 2].decidedAt <= call.checkedAt;
      }
      OneLoginIsGated(before, call, start, attempts, window);
    }
  }

  /** Logins that do not overlap: at most `attempts` failures of a client in less than a window. */
  lemma SequentialBound(calls: seq<LoginCall>, start: int, attempts: nat, window: int,
      client: string, i: nat, j: nat)
    requires InSequence(calls, start)
    requires i <= j <= |LoginTrace(calls, attempts, window)|
    requires NoSuccess(LoginTrace(calls, attempts, window)[i..j], client)
    requires var fails := FailTimes(LoginTrace(calls, attempts, window)[i..j], client);
             forall k :: 0 <= k < |fails| ==> Last(fails) - fails[k] < window
    ensures |FailTimes(LoginTrace(calls, attempts, window)[i..j], client)| <= attempts
  {
    SequentialLoginsAreGated(calls, start, attempts, window);
    FailuresAreBounded(LoginTrace(calls, attempts, window), start, attempts, window, 1, client, i, j);
  }

  // ----- what clients are answered -----

  /** The record that the first `k` logins leave on a fresh limiter. */
  function RecordAfter(calls: seq<LoginCall>, k: nat, attempts: int, window: int): seq<Attempt>
    requires k <= |calls|
  {
    Recorded(LoginTrace(calls[..k], attempts, window))
  }

  /** Each answer follows from the record that the logins before it left. */
  ghost predicate Answered(calls: seq<LoginCall>, statuses: seq<LoginStatus>, attempts: int, window: int) {
    && |statuses| <= |calls|
    && forall k :: 0 <= k < |statuses| ==>
         var recent := FailuresInWindow(RecordAfter(calls, k, attempts, window), calls[k].client,
                                        calls[k].checkedAt, window);
         && (statuses[k] == TooManyRequests <==> |recent| >= attempts)
         && (statuses[k] == Unauthorized <==> |recent| < attempts && !calls[k].credentialsValid)
  }

  lemma RecordedLogin(before: seq<Op>, call: LoginCall, attempts: int, window: int)
    ensures var blocked := |FailuresInWindow(Recorded(before), call.client, call.checkedAt, window)| >= attempts;
            Recorded(before + OneLogin(before, call, attempts, window)) ==
            if blocked then Recorded(before)
            else if call.credentialsValid then Recorded(before) + [Success(call.client)]
            else Recorded(before) + [Failure(call.client, call.decidedAt)]
  {
    var ops := OneLogin(before, call, attempts, window);
    FrontOfSnoc(before, ops[0]);
    if |ops| == 2 {
      FrontOfSnoc(before + [ops[0]], ops[1]);
      Associate(before, [ops[0]], [ops[1]]);
      assert ops == [ops[0]] + [ops[1]];
    } else {
      assert ops == [ops[0]];
    }
  }

  lemma RecordStep(calls: seq<LoginCall>, k: nat, attempts: int, window: int) returns (record: seq<Attempt>)
    requires k < |calls|
    ensures record == RecordAfter(calls, k, attempts, window)
    ensures var call, next := calls[k], RecordAfter(calls, k + 1, attempts, window);
            var blocked := |FailuresInWindow(record, call.client, call.checkedAt, window)| >= attempts;
            next == if blocked then record
                    else if call.credentialsValid then record + [Success(call.client)]
                    else record + [Failure(call.client, call.decidedAt)]
  {
    record := RecordAfter(calls, k, attempts, window);
    RecordedLogin(LoginTrace(calls[..k], attempts, window), calls[k], attempts, window);
    FrontOfSnoc(calls[..k], calls[k]);
    assert calls[..k + 1] == calls[..k] + [calls[k]];
  }

  lemma AnsweredStep(calls: seq<LoginCall>, statuses: seq<LoginStatus>, status: LoginStatus, attempts: int,
                     window: int)
    requires Answered(calls, statuses, attempts, window) && |statuses| < |calls|
    requires var k := |statuses|;
             var recent := FailuresInWindow(RecordAfter(calls, k, attempts, window), calls[k].client,
                                            calls[k].checkedAt, window);
             && (status == TooManyRequests <==> |recent| >= attempts)
             && (status == Unauthorized <==> |recent| < attempts && !calls[k].credentialsValid)
    ensures Answered(calls, statuses + [status], attempts, window)
  {
  }

  /** One more login, as `Login` records and answers it. */
  lemma LoginStep(calls: seq<LoginCall>, statuses: seq<LoginStatus>, status: LoginStatus, before: seq<Attempt>,
                  after: seq<Attempt>, attempts: int, window: int)
    requires Answered(calls, statuses, attempts, window) && |statuses| < |calls|
    requires before == RecordAfter(calls, |statuses|, attempts, window)
    requires var call := calls[|statuses|];
             var blocked := |FailuresInWindow(before, call.client, call.checkedAt, window)| >= attempts;
             && (status == TooManyRequests <==> blocked)
             && (status == Unauthorized <==> !blocked && !call.credentialsValid)
             && after == if blocked then before
                         else if call.credentialsValid then before + [Success(call.client)]
                         else before + [Failure(call.client, call.decidedAt)]
    ensures Answered(calls, statuses + [status], attempts, window)
    ensures after == RecordAfter(calls, |statuses| + 1, attempts, window)
  {
    var record := RecordStep(calls, |statuses|, attempts, window);
    AnsweredStep(calls, statuses, status, attempts, window);
  }

  lemma WholeRecord(calls: seq<LoginCall>, attempts: int, window: int)
    ensures RecordAfter(calls, |calls|, attempts, window) == Recorded(LoginTrace(calls, attempts, window))
    ensures RecordAfter(calls, 0, attempts, window) == []
  {
    assert calls[..|calls|] == calls && calls[..0] == [];
  }

  /** Logins one after another on a fresh limiter record and answer as their trace says. */
  method Logins(limiter: LoginRateLimiter, calls: seq<LoginCall>) returns (statuses: seq<LoginStatus>)
    requires limiter.Valid() && limiter.history == [] && InSequence(calls, limiter.clock)
    modifies limiter
    ensures limiter.Valid()
    ensures limiter.history == Recorded(LoginTrace(calls, limiter.attempts, limiter.window))
    ensures |statuses| == |calls| && Answered(calls, statuses, limiter.attempts, limiter.window)
  {
    statuses := [];
    WholeRecord(calls, limiter.attempts, limiter.window);
    for k := 0 to |calls|
      invariant limiter.Valid() && limiter.clock <= if k == 0 then old(limiter.clock) else calls[k - 1].decidedAt
      invariant limiter.history == RecordAfter(calls, k, limiter.attempts, limiter.window)
      invariant |statuses| == k && Answered(calls, statuses, limiter.attempts, limiter.window)
    {
      var call := calls[k];
      ghost var before := limiter.history;
      var status := Login(limiter, call.client, call.checkedAt, call.decidedAt, call.credentialsValid);
      LoginStep(calls, statuses, status, before, limiter.history, limiter.attempts, limiter.window);
      statuses := statuses + [status];
    }
    WholeRecord(calls, limiter.attempts, limiter.window);
  }

  /** The times at which logins of a client from `i` to `j` were told of a wrong password. */
  function WrongTimes(calls: seq<LoginCall>, statuses: seq<LoginStatus>, client: string, i: nat, j: nat): seq<int>
    requires i <= j <= |statuses| <= |calls|
    decreases j - i
  {
    if i == j then []
    else
      WrongTimes(calls, statuses, client, i, j - 1)
      + if calls[j - 1].client == client && statuses[j - 1] == Unauthorized then [calls[j - 1].decidedAt] else []
  }

  ghost predicate NoneLoggedIn(calls: seq<LoginCall>, statuses: seq<LoginStatus>, client: string, i: nat, j: nat)
    requires i <= j <= |statuses| <= |calls|
  {
    forall k :: i <= k < j && calls[k].client == client ==> statuses[k] != LoggedIn
  }

  lemma SinceStep(record: seq<Attempt>, e: Attempt, client: string)
    ensures Since(record + [e], client) ==
            if e.client != client then Since(record, client)
            else if e.Failure? then Since(record, client) + [e.at] else []
  {
    FrontOfSnoc(record, e);
  }

  /** One login of another client, or not a successful one. */
  lemma OneLoginIsRecorded(calls: seq<LoginCall>, statuses: seq<LoginStatus>, attempts: int, window: int,
                           client: string, k: nat) returns (told: seq<int>)
    requires k < |statuses| && Answered(calls, statuses, attempts, window)
    requires calls[k].client == client ==> statuses[k] != LoggedIn
    ensures told == if calls[k].client == client && statuses[k] == Unauthorized then [calls[k].decidedAt] else []
    ensures Since(RecordAfter(calls, k + 1, attempts, window), client) ==
            Since(RecordAfter(calls, k, attempts, window), client) + told
  {
    var call := calls[k];
    var record := RecordStep(calls, k, attempts, window);
    told := if call.client == client && statuses[k] == Unauthorized then [call.decidedAt] else [];
    AppendNothing(Since(record, client));
    SinceStep(record, Failure(call.client, call.decidedAt), client);
    SinceStep(record, Success(call.client), client);
  }

  /** Without a success the client's record grows by just these times. */
  lemma {:induction false} WrongTimesAreRecorded(calls: seq<LoginCall>, statuses: seq<LoginStatus>, attempts: int,
                                                 window: int, client: string, i: nat, j: nat)
    requires i <= j <= |statuses| && Answered(calls, statuses, attempts, window)
    requires NoneLoggedIn(calls, statuses, client, i, j)
    ensures Since(RecordAfter(calls, j, attempts, window), client) ==
            Since(RecordAfter(calls, i, attempts, window), client) + WrongTimes(calls, statuses, client, i, j)
    decreases j - i
  {
    if i == j {
      AppendNothing(Since(RecordAfter(calls, i, attempts, window), client));
    } else {
      WrongTimesAreRecorded(calls, statuses, attempts, window, client, i, j - 1);
      var told := OneLoginIsRecorded(calls, statuses, attempts, window, client, j - 1);
      Associate(Since(RecordAfter(calls, i, attempts, window), client),
                WrongTimes(calls, statuses, client, i, j - 1), told);
    }
  }

  function WrongLogins(calls: seq<LoginCall>, statuses: seq<LoginStatus>, client: string, i: nat, j: nat): set<int>
    requires i <= j <= |statuses| <= |calls|
  {
    set k | i <= k < j && calls[k].client == client && statuses[k] == Unauthorized
  }

  lemma WrongLoginsStep(calls: seq<LoginCall>, statuses: seq<LoginStatus>, client: string, i: nat, j: nat)
    requires i < j <= |statuses| <= |calls|
    ensures WrongLogins(calls, statuses, client, i, j) ==
            WrongLogins(calls, statuses, client, i, j - 1)
            + if calls[j - 1].client == client && statuses[j - 1] == Unauthorized then {j - 1} else {}
  {
  }

  /** There is one time for each wrong login. */
  lemma {:induction false} WrongTimesAre(
    calls: seq<LoginCall>, statuses: seq<LoginStatus>, client: string, i: nat, j: nat)
    requires i <= j <= |statuses| <= |calls|
    ensures |WrongTimes(calls, statuses, client, i, j)| == |WrongLogins(calls, statuses, client, i, j)|
    decreases j - i
  {
    if i < j {
      WrongTimesAre(calls, statuses, client, i, j - 1);
      WrongLoginsStep(calls, statuses, client, i, j);
    }
  }

  /** The times are those of the wrong logins. */
  lemma {:induction false} WrongTimeOf(
    calls: seq<LoginCall>, statuses: seq<LoginStatus>, client: string, i: nat, j: nat, n: nat) returns (k: nat)
    requires i <= j <= |statuses| <= |calls| && n < |WrongTimes(calls, statuses, client, i, j)|
    ensures i <= k < j && calls[k].client == client && statuses[k] == Unauthorized
    ensures calls[k].decidedAt == WrongTimes(calls, statuses, client, i, j)[n]
    decreases j - i
  {
    if n < |WrongTimes(calls, statuses, client, i, j - 1)| {
      k := WrongTimeOf(calls, statuses, client, i, j - 1, n);
    } else {
      k := j - 1;
    }
  }

  /** All the wrong logins of the stretch lie within less than the window. */
  ghost predicate WithinWindow(calls: seq<LoginCall>, statuses: seq<LoginStatus>, client: string, i: nat, j: nat,
                               window: int)
    requires i <= j <= |statuses| <= |calls|
  {
    forall k, l :: (i <= k <= l < j && calls[k].client == calls[l].client == client
                    && statuses[k] == statuses[l] == Unauthorized) ==>
                     calls[l].decidedAt - calls[k].decidedAt < window
  }

  /** A login that is told of a wrong password finds the earlier ones of the stretch in its window. */
  lemma EarlierCount(calls: seq<LoginCall>, statuses: seq<LoginStatus>, start: int, attempts: int, window: int,
                     client: string, i: nat, k: nat)
    requires InSequence(calls, start) && Answered(calls, statuses, attempts, window) && i <= k < |statuses|
    requires NoneLoggedIn(calls, statuses, client, i, k) && WithinWindow(calls, statuses, client, i, k + 1, window)
    requires calls[k].client == client && statuses[k] == Unauthorized
    ensures |WrongTimes(calls, statuses, client, i, k)| < attempts
  {
    var times, t := WrongTimes(calls, statuses, client, i, k), calls[k].checkedAt;
    forall n | 0 <= n < |times|
      ensures t - times[n] < window
    {
      var l := WrongTimeOf(calls, statuses, client, i, k, n);
    }
    WrongTimesAreRecorded(calls, statuses, attempts, window, client, i, k);
    InWindowAppend(Since(RecordAfter(calls, i, attempts, window), client), times, t, window);
    NoneExpired(times, t, window);
  }

  lemma {:induction false} WrongTimesAreBounded(
    calls: seq<LoginCall>, statuses: seq<LoginStatus>, start: int, attempts: nat, window: int, client: string,
    i: nat, j: nat)
    requires InSequence(calls, start) && Answered(calls, statuses, attempts, window) && i <= j <= |statuses|
    requires NoneLoggedIn(calls, statuses, client, i, j) && WithinWindow(calls, statuses, client, i, j, window)
    ensures |WrongTimes(calls, statuses, client, i, j)| <= attempts
    decreases j - i
  {
    if i < j {
      if calls[j - 1].client == client && statuses[j - 1] == Unauthorized {
        EarlierCount(calls, statuses, start, attempts, window, client, i, j - 1);
      } else {
        WrongTimesAreBounded(calls, statuses, start, attempts, window, client, i, j - 1);
      }
    }
  }

  /**
   * What a client can do: of logins one after another, among any of a client that were none
   * successful, at most `attempts` are told of a wrong password within less than the window.
   */
  lemma WrongLoginsAreBounded(
    calls: seq<LoginCall>, statuses: seq<LoginStatus>, start: int, attempts: nat, window: int, client: string,
    i: nat, j: nat)
    requires InSequence(calls, start) && Answered(calls, statuses, attempts, window) && i <= j <= |statuses|
    requires NoneLoggedIn(calls, statuses, client, i, j) && WithinWindow(calls, statuses, client, i, j, window)
    ensures |set k | i <= k < j && calls[k].client == client && statuses[k] == Unauthorized| <= attempts
  {
    WrongTimesAreBounded(calls, statuses, start, attempts, window, client, i, j);
    WrongTimesAre(calls, statuses, client, i, j);
    assert WrongLogins(calls, statuses, client, i, j) ==
           set k | i <= k < j && calls[k].client == client && statuses[k] == Unauthorized;
  }
}
