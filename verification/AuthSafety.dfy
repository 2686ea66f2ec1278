/** What holds in every state that a run of the authentication interceptor reaches. */
module AuthSafety {
  import opened Bytes
  import opened AuthState
  import opened AuthRuns

  // ----- Every call gets an answer of its own kind, about its own request -----

  predicate AnswerFits(call: Call, answer: Answer) {
    match answer
    case Adapted(request, _) => call == AdaptCall(request)
    case NotAdapted(_) => call.AdaptCall?
    case Retry | DoNotRetry | DoNotRetryWithError(_) => call.RetryCall?
  }

  predicate CallerFits(call: Call, caller: Caller) {
    match caller
    case Adapting(request) => call == AdaptCall(request)
    case Retrying | HasRead(_) => call.RetryCall?
    case Answering(answer) => AnswerFits(call, answer)
    case Gone => true
  }

  predicate OperationFits(calls: seq<Call>, op: AdaptOperation) {
    op.call < |calls| && calls[op.call] == AdaptCall(op.request)
  }

  predicate RetryFits(calls: seq<Call>, id: nat) {
    id < |calls| && calls[id].RetryCall?
  }

  predicate LogFits(calls: seq<Call>, a: Answered) {
    a.call < |calls| && AnswerFits(calls[a.call], a.answer)
  }

  ghost predicate OwnAnswers(s: System) {
    |s.callers| == |s.calls| &&
    (forall i :: 0 <= i < |s.calls| ==> CallerFits(s.calls[i], s.callers[i])) &&
    (forall i :: 0 <= i < |s.past.arrivedAdapts| ==> OperationFits(s.calls, s.past.arrivedAdapts[i])) &&
    (forall i :: 0 <= i < |s.past.arrivedRetries| ==> RetryFits(s.calls, s.past.arrivedRetries[i])) &&
    (forall i :: 0 <= i < |s.past.log| ==> LogFits(s.calls, s.past.log[i]))
  }

  lemma OwnAnswersKept(s: System, step: Step)
    requires Fifo(s) && OwnAnswers(s) && Next(s, step).Some?
    ensures OwnAnswers(Next(s, step).value)
  {
    match step {
      case EnterAdapt(i, r, checked, started) => AdaptFits(s, i, r, checked, started);
      case EnterRetry(i, same, checked, started) =>
      case RunItem => ItemFits(s);
      case _ =>
    }
  }

  lemma AdaptFits(s: System, i: nat, requiresRefresh: bool, checked: real, started: real)
    requires OwnAnswers(s) && At(s, i).Adapting?
    ensures OwnAnswers(AdaptStep(s, i, requiresRefresh, checked, started))
  {
    assert CallerFits(s.calls[i], s.callers[i]);
    assert OperationFits(s.calls, AdaptOperation(i, s.callers[i].request));
  }

  lemma ItemFits(s: System)
    requires Fifo(s) && OwnAnswers(s) && Next(s, RunItem).Some?
    ensures OwnAnswers(Next(s, RunItem).value)
  {
    if s.running.adapts != [] {
      var k := |s.past.servedAdapts|;
      assert s.past.arrivedAdapts[k] == s.running.adapts[0];
      assert OperationFits(s.calls, s.past.arrivedAdapts[k]);
    } else {
      var k := |s.past.servedRetries|;
      assert s.past.arrivedRetries[k] == s.running.retries[0];
      assert RetryFits(s.calls, s.past.arrivedRetries[k]);
    }
  }

  // ----- One refresh at a time, and nobody waits for none -----

  /** The refreshes that were started and not yet answered. */
  function Outstanding(s: System): nat {
    QueueStarts(s.queue) + s.inFlight
  }

  predicate SingleFlight(s: System) {
    s.running.Batch? && Outstanding(s) == if s.locked.isRefreshing then 1 else 0
  }

  predicate NoStrandedWaiters(s: System) {
    s.locked.adaptOperations != [] || s.locked.requestsToRetry != [] ==> s.locked.isRefreshing
  }

  /** Each started refresh left one timestamp. */
  predicate StartsRecorded(s: System) {
    |s.locked.refreshTimestamps| == s.past.rounds + Outstanding(s)
  }

  predicate Flight(s: System) {
    SingleFlight(s) && NoStrandedWaiters(s) && StartsRecorded(s)
  }

  /** A section that waits, starts a refresh or lets everybody go. */
  predicate FlightSection(m: MutableState, o: Outcome) {
    var started := Starts(m, o);
    |o.state.refreshTimestamps| == |m.refreshTimestamps| + started &&
    (started == 1 ==> !m.isRefreshing && o.state.isRefreshing) &&
    (started == 0 ==> o.state.isRefreshing == m.isRefreshing) &&
    (o.state.isRefreshing || (o.state.adaptOperations == [] && o.state.requestsToRetry == []))
  }

  lemma SectionFlight(s: System, o: Outcome, now: real)
    requires Flight(s) && FlightSection(s.locked, o)
    requires QueueStarts(s.queue + o.dispatched) == QueueStarts(s.queue) + Starts(s.locked, o)
    ensures Flight(Enter(s, o, now))
  {
  }

  lemma AdaptIsFlight(m: MutableState, op: AdaptOperation, requiresRefresh: bool, checked: real, started: real)
    requires m.isRefreshing || (m.adaptOperations == [] && m.requestsToRetry == [])
    ensures FlightSection(m, AdaptSection(m, op, requiresRefresh, checked, started).0)
  {
  }

  lemma AdaptFlight(s: System, id: nat, requiresRefresh: bool, checked: real, started: real)
    requires Flight(s) && At(s, id).Adapting?
    ensures Flight(AdaptStep(s, id, requiresRefresh, checked, started))
  {
    var op := AdaptOperation(id, s.callers[id].request);
    AdaptKeeps(s.locked, s.queue, op, requiresRefresh, checked, started);
    AdaptIsFlight(s.locked, op, requiresRefresh, checked, started);
    SectionFlight(s, AdaptSection(s.locked, op, requiresRefresh, checked, started).0, started);
  }

  lemma RetryFlight(s: System, id: nat, same: bool, checked: real, started: real)
    requires Flight(s) && At(s, id).HasRead?
    ensures Flight(RetryStep(s, id, same, checked, started))
  {
    if same {
      var credential := s.callers[id].credential;
      RetryKeeps(s.locked, s.queue, id, credential, checked, started);
      SectionFlight(s, RetrySection(s.locked, id, credential, checked, started), started);
    }
  }

  lemma AnswerFlight(s: System, m: MutableState, error: Option<AuthError>)
    requires Flight(s) && s.inFlight > 0 && m == s.locked.(credential := m.credential)
    ensures Flight(RoundOver(s, Release(m, error)))
  {
    ReleaseKeeps(m, s.queue, error);
  }

  lemma FlightKept(s: System, step: Step)
    requires Flight(s) && Next(s, step).Some?
    ensures Flight(Next(s, step).value)
  {
    match step {
      case EnterAdapt(id, requiresRefresh, checked, started) => AdaptFlight(s, id, requiresRefresh, checked, started);
      case EnterRetry(id, same, checked, started) => RetryFlight(s, id, same, checked, started);
      case RefreshSucceeded(credential) => AnswerFlight(s, s.locked.(credential := Some(credential)), None);
      case RefreshFailed(error) => AnswerFlight(s, s.locked, Some(error));
      case _ =>
    }
  }

  // ----- The refresh rate -----

  /** How many of the first `n` timestamps lie between `from` and `to`. */
  function Within(ts: seq<real>, n: nat, from: real, to: real): nat
    requires n <= |ts|
  {
    if n == 0 then 0 else Within(ts, n - 1, from, to) + if from <= ts[n - 1] <= to then 1 else 0
  }

  /** Refresh `j` started with fewer than `maximumAttempts` others in the interval before it. */
  predicate LimitedAt(ts: seq<real>, window: RefreshWindow, j: nat)
    requires j < |ts|
  {
    AttemptsSince(ts, j, ts[j] - window.interval) < window.maximumAttempts
  }

  ghost predicate Limited(ts: seq<real>, window: RefreshWindow) {
    forall j :: 0 <= j < |ts| ==> LimitedAt(ts, window, j)
  }

  ghost predicate RateLimited(s: System) {
    s.locked.refreshWindow.Some? ==> Limited(s.locked.refreshTimestamps, s.locked.refreshWindow.value)
  }

  lemma {:induction false} AttemptsMonotone(ts: seq<real>, n: nat, early: real, late: real)
    requires n <= |ts| && early <= late
    ensures AttemptsSince(ts, n, late) <= AttemptsSince(ts, n, early)
  {
    if n > 0 {
      AttemptsMonotone(ts, n - 1, early, late);
    }
  }

  lemma {:induction false} AttemptsOfPrefix(ts: seq<real>, more: seq<real>, n: nat, from: real)
    requires n <= |ts|
    ensures AttemptsSince(ts + more, n, from) == AttemptsSince(ts, n, from)
  {
    if n > 0 {
      AttemptsOfPrefix(ts, more, n - 1, from);
    }
  }

  /** The check came before the timestamp, so it counted no fewer refreshes than the timestamp's own interval holds. */
  lemma LimitedAgain(ts: seq<real>, window: RefreshWindow, checked: real, started: real)
    requires Limited(ts, window) && checked <= started
    requires AttemptsSince(ts, |ts|, checked - window.interval) < window.maximumAttempts
    ensures Limited(ts + [started], window)
  {
    var all := ts + [started];
    forall j | 0 <= j < |all|
      ensures LimitedAt(all, window, j)
    {
      AttemptsOfPrefix(ts, [started], j, all[j] - window.interval);
      if j < |ts| {
        assert LimitedAt(ts, window, j);
      } else {
        AttemptsMonotone(ts, j, checked - window.interval, started - window.interval);
      }
    }
  }

  lemma RefreshLimited(m: MutableState, credential: Credential, checked: real, started: real)
    requires m.refreshWindow.Some? ==> Limited(m.refreshTimestamps, m.refreshWindow.value)
    requires checked <= started
    ensures var t := Refresh(m, credential, checked, started).state;
            t.refreshWindow == m.refreshWindow &&
            (t.refreshWindow.Some? ==> Limited(t.refreshTimestamps, t.refreshWindow.value))
  {
    if m.refreshWindow.Some? && !Excessive(m, checked) {
      LimitedAgain(m.refreshTimestamps, m.refreshWindow.value, checked, started);
    }
  }

  lemma RateKept(s: System, step: Step)
    requires RateLimited(s) && Next(s, step).Some?
    ensures RateLimited(Next(s, step).value)
    ensures Next(s, step).value.locked.refreshWindow == s.locked.refreshWindow
  {
    match step {
      case EnterAdapt(id, requiresRefresh, checked, started) =>
        var waiting := Defer(s.locked, AdaptOperation(id, s.callers[id].request));
        if s.locked.credential.Some? {
          RefreshLimited(waiting, s.locked.credential.value, checked, started);
        }
      case EnterRetry(id, same, checked, started) =>
        var waiting := s.locked.(requestsToRetry := s.locked.requestsToRetry + [id]);
        RefreshLimited(waiting, s.callers[id].credential, checked, started);
      case _ =>
    }
  }

  /** A negative maximum allows no refresh at all, as zero does. */
  function MaximumOf(window: RefreshWindow): nat {
    if window.maximumAttempts < 0 then 0 else window.maximumAttempts
  }

  /** Hence no interval of that length, wherever it begins, holds more than `maximumAttempts`. */
  lemma {:induction false} LimitedWithin(ts: seq<real>, n: nat, window: RefreshWindow, from: real)
    requires Limited(ts, window) && n <= |ts|
    ensures Within(ts, n, from, from + window.interval) <= MaximumOf(window)
  {
    if n > 0 {
      LimitedWithin(ts, n - 1, window, from);
      var last, to := ts[n - 1], from + window.interval;
      if from <= last <= to {
        WithinIsSince(ts, n - 1, from, to);
        AttemptsMonotone(ts, n - 1, last - window.interval, from);
        assert LimitedAt(ts, window, n - 1);
      }
    }
  }

  lemma {:induction false} WithinIsSince(ts: seq<real>, n: nat, from: real, to: real)
    requires n <= |ts|
    ensures Within(ts, n, from, to) <= AttemptsSince(ts, n, from)
  {
    if n > 0 {
      WithinIsSince(ts, n - 1, from, to);
    }
  }

  // ----- All runs -----

  ghost predicate Safe(s: System) {
    Fifo(s) && Balanced(s) && OwnAnswers(s) && Flight(s) && RateLimited(s)
  }

  lemma SafeKept(s: System, step: Step)
    requires Safe(s) && Next(s, step).Some?
    ensures Safe(Next(s, step).value)
  {
    FifoKept(s, step);
    BalanceKept(s, step);
    OwnAnswersKept(s, step);
    FlightKept(s, step);
    RateKept(s, step);
  }

  lemma {:induction false} RunKeepsSafe(s: System, steps: seq<Step>)
    requires Safe(s) && Run(s, steps).Some?
    ensures Safe(Run(s, steps).value)
    ensures Run(s, steps).value.locked.refreshWindow == s.locked.refreshWindow
    decreases |steps|
  {
    if steps != [] {
      var before, last := steps[..|steps| - 1], steps[|steps| - 1];
      RunKeepsSafe(s, before);
      SafeKept(Run(s, before).value, last);
      RateKept(Run(s, before).value, last);
    }
  }

  lemma StartIsSafe(credential: Option<Credential>, window: Option<RefreshWindow>, now: real)
    ensures Safe(Start(credential, window, now))
  {
    var s := Start(credential, window, now);
    forall id: nat
      ensures BalancedAt(s, id)
    {
      assert !IsGone(s, id);
    }
  }

  /** Whatever the threads, the queue, the clock and the authenticator do: each call is in exactly one place, those that
      have waited were served in the order of their arrival, one refresh is out exactly while the flag says so, nobody
      waits without one, and no interval of the window's length holds too many refreshes. */
  lemma EveryRun(credential: Option<Credential>, window: Option<RefreshWindow>, now: real, steps: seq<Step>)
    requires Run(Start(credential, window, now), steps).Some?
    ensures var s := Run(Start(credential, window, now), steps).value;
            InOnePlace(s) && Fifo(s) && OwnAnswers(s) && SingleFlight(s) && NoStrandedWaiters(s) && StartsRecorded(s)
  {
    StartIsSafe(credential, window, now);
    RunKeepsSafe(Start(credential, window, now), steps);
    BalanceIsPlacement(Run(Start(credential, window, now), steps).value);
  }

  lemma RefreshRate(credential: Option<Credential>, window: RefreshWindow, now: real, steps: seq<Step>, from: real)
    requires Run(Start(credential, Some(window), now), steps).Some?
    ensures var ts := Run(Start(credential, Some(window), now), steps).value.locked.refreshTimestamps;
            Within(ts, |ts|, from, from + window.interval) <= MaximumOf(window)
  {
    StartIsSafe(credential, Some(window), now);
    RunKeepsSafe(Start(credential, Some(window), now), steps);
    var ts := Run(Start(credential, Some(window), now), steps).value.locked.refreshTimestamps;
    LimitedWithin(ts, |ts|, window, from);
  }

  // ----- The new credential -----

  predicate KeepsCredential(step: Step) {
    !step.SetCredential? && !step.RefreshSucceeded?
  }

  lemma {:induction false} CredentialStays(s: System, steps: seq<Step>)
    requires Run(s, steps).Some? && forall i :: 0 <= i < |steps| ==> KeepsCredential(steps[i])
    ensures Run(s, steps).value.locked.credential == s.locked.credential
    decreases |steps|
  {
    if steps != [] {
      CredentialStays(s, steps[..|steps| - 1]);
    }
  }

  /** After a successful refresh, and until the credential changes again, requests are adapted with the new one: those
      that waited for it, and all that come later. */
  lemma NewCredentialIsUsed(
    s: System, credential: Credential, refreshed: System, steps: seq<Step>, later: System, id: nat, time: real)
    requires Next(s, RefreshSucceeded(credential)) == Some(refreshed)
    requires Run(refreshed, steps) == Some(later) && forall i :: 0 <= i < |steps| ==> KeepsCredential(steps[i])
    requires At(later, id).Adapting? && !later.locked.isRefreshing && later.now <= time
    ensures var t := Next(later, EnterAdapt(id, false, time, time));
            t.Some? && At(t.value, id) == Answering(Adapted(later.callers[id].request, credential))
  {
    CredentialStays(refreshed, steps);
    assert refreshed.locked.credential == Some(credential);
  }

  // ----- Rest -----

  /** Nothing is left to do until another call comes. */
  predicate Idle(s: System) {
    s.queue == [] && AdaptsOf(s.running) == [] && RetriesOf(s.running) == [] && s.inFlight == 0 &&
    forall i :: 0 <= i < |s.callers| ==> s.callers[i].Gone?
  }

  /** Then every call was answered, exactly once. */
  lemma IdleMeansAnswered(s: System, id: nat)
    requires Safe(s) && Idle(s)
    ensures multiset(LogCalls(s.past.log))[id] == if id < |s.calls| then 1 else 0
  {
    assert BalancedAt(s, id);
    CameAndWent(s, id);
    assert CallsOf(AdaptsInside(s)) == [];
  }

  /** At no time is a call answered twice. */
  lemma NeverTwice(s: System, id: nat)
    requires Safe(s)
    ensures multiset(LogCalls(s.past.log))[id] <= 1
    ensures !IsGone(s, id) ==> multiset(LogCalls(s.past.log))[id] == 0
  {
    assert BalancedAt(s, id);
    CameAndWent(s, id);
  }
}
