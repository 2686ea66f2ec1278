/** The lock-protected state of the authentication interceptor, and the sections of code that run under its lock. */
module AuthState {
  import opened Bytes

  type Credential = nat
  type Request = nat

  /** At most `maximumAttempts` refreshes may start within `interval` seconds. */
  datatype RefreshWindow = RefreshWindow(interval: real, maximumAttempts: int)

  datatype AuthError = MissingCredential | ExcessiveRefresh | RefreshError(code: nat)

  /** A deferred adaptation: the call to answer and the request to adapt. */
  datatype AdaptOperation = AdaptOperation(call: nat, request: Request)

  /** What the dispatch queue is given: a refresh to start, or the waiting calls of a refresh that is over. They are
      replayed, or they fail with an error. */
  datatype Block =
    | StartRefresh(credential: Credential)
    | Batch(adapts: seq<AdaptOperation>, retries: seq<nat>, error: Option<AuthError>)

  datatype AdaptResult = Adapt(credential: Credential) | DoNotAdapt(error: AuthError) | AdaptDeferred

  datatype MutableState = MutableState(
    credential: Option<Credential>,
    isRefreshing: bool,
    refreshTimestamps: seq<real>,
    refreshWindow: Option<RefreshWindow>,
    adaptOperations: seq<AdaptOperation>,
    requestsToRetry: seq<nat>)

  /** What a locked section does: the new state and the blocks it dispatches. */
  datatype Outcome = Outcome(state: MutableState, dispatched: seq<Block>)

  // ----- The sections, as functions of the state -----

  /** How many of the first `n` timestamps are not before `from`. */
  function AttemptsSince(ts: seq<real>, n: nat, from: real): (count: nat)
    requires n <= |ts|
  {
    if n == 0 then 0 else AttemptsSince(ts, n - 1, from) + if from <= ts[n - 1] then 1 else 0
  }

  predicate Excessive(m: MutableState, now: real) {
    m.refreshWindow.Some? &&
    var window := m.refreshWindow.value;
    AttemptsSince(m.refreshTimestamps, |m.refreshTimestamps|, now - window.interval) >= window.maximumAttempts
  }

  /** The waiting calls leave as one batch. */
  function Release(m: MutableState, error: Option<AuthError>): Outcome {
    Outcome(m.(adaptOperations := [], requestsToRetry := [], isRefreshing := false),
            [Batch(m.adaptOperations, m.requestsToRetry, error)])
  }

  function Succeed(m: MutableState, credential: Credential): Outcome {
    Release(m.(credential := Some(credential)), None)
  }

  /** The clock is read when the window is checked and again for the timestamp. */
  function Refresh(m: MutableState, credential: Credential, checked: real, started: real): Outcome {
    if Excessive(m, checked) then Release(m, Some(ExcessiveRefresh))
    else Outcome(m.(refreshTimestamps := m.refreshTimestamps + [started], isRefreshing := true),
                 [StartRefresh(credential)])
  }

  function Defer(m: MutableState, op: AdaptOperation): MutableState {
    m.(adaptOperations := m.adaptOperations + [op])
  }

  function AdaptSection(m: MutableState, op: AdaptOperation, requiresRefresh: bool, checked: real, started: real)
    : (Outcome, AdaptResult)
  {
    if m.isRefreshing then (Outcome(Defer(m, op), []), AdaptDeferred)
    else if m.credential.None? then (Outcome(m, []), DoNotAdapt(MissingCredential))
    else if requiresRefresh then (Refresh(Defer(m, op), m.credential.value, checked, started), AdaptDeferred)
    else (Outcome(m, []), Adapt(m.credential.value))
  }

  function RetrySection(m: MutableState, call: nat, credential: Credential, checked: real, started: real): Outcome {
    var waiting := m.(requestsToRetry := m.requestsToRetry + [call]);
    if m.isRefreshing then Outcome(waiting, []) else Refresh(waiting, credential, checked, started)
  }

  // ----- The sections, on the fields they update -----

  class Interceptor {
    var credential: Option<Credential>
    var isRefreshing: bool
    var refreshTimestamps: seq<real>
    var refreshWindow: Option<RefreshWindow>
    var adaptOperations: seq<AdaptOperation>
    var requestsToRetry: seq<nat>

    /** The blocks that are not yet taken up, in the order of dispatch. */
    var queue: seq<Block>

    function State(): MutableState
      reads this
    {
      MutableState(credential, isRefreshing, refreshTimestamps, refreshWindow, adaptOperations, requestsToRetry)
    }

    /** The section that began in state `m` with the queue `before` has had this outcome. */
    predicate Reached(before: seq<Block>, outcome: Outcome)
      reads this
    {
      State() == outcome.state && queue == before + outcome.dispatched
    }

    constructor (credential: Option<Credential>, refreshWindow: Option<RefreshWindow>)
      ensures State() == MutableState(credential, false, [], refreshWindow, [], []) && queue == []
    {
      this.credential := credential;
      this.refreshWindow := refreshWindow;
      isRefreshing, refreshTimestamps, adaptOperations, requestsToRetry, queue := false, [], [], [], [];
    }

    /** The locked section of `adapt`. */
    method AdaptLocked(op: AdaptOperation, requiresRefresh: bool, checked: real, started: real)
      returns (result: AdaptResult)
      modifies this
      ensures var (outcome, r) := AdaptSection(old(State()), op, requiresRefresh, checked, started);
              Reached(old(queue), outcome) && result == r
    {
      if isRefreshing {
        adaptOperations := adaptOperations + [op];
        return AdaptDeferred;
      }
      if credential.None? {
        return DoNotAdapt(MissingCredential);
      }
      if requiresRefresh {
        adaptOperations := adaptOperations + [op];
        StartOrRefuse(credential.value, checked, started);
        return AdaptDeferred;
      }
      return Adapt(credential.value);
    }

    /** The locked section of `retry`. The credential was read before, outside of this section. */
    method RetryLocked(call: nat, credential: Credential, checked: real, started: real)
      modifies this
      ensures Reached(old(queue), RetrySection(old(State()), call, credential, checked, started))
    {
      requestsToRetry := requestsToRetry + [call];
      if isRefreshing {
        return;
      }
      StartOrRefuse(credential, checked, started);
    }

    /** `refresh` */
    method StartOrRefuse(credential: Credential, checked: real, started: real)
      modifies this
      ensures Reached(old(queue), Refresh(old(State()), credential, checked, started))
    {
      var excessive := IsRefreshExcessive(checked);
      if excessive {
        HandleRefreshFailure(ExcessiveRefresh);
        return;
      }
      refreshTimestamps := refreshTimestamps + [started];
      isRefreshing := true;
      queue := queue + [StartRefresh(credential)];
    }

    method IsRefreshExcessive(now: real) returns (excessive: bool)
      ensures excessive <==> Excessive(State(), now)
    {
      if refreshWindow.None? {
        return false;
      }
      var min := now - refreshWindow.value.interval;
      var attempts := 0;
      for i := 0 to |refreshTimestamps|
        invariant attempts == AttemptsSince(refreshTimestamps, i, min)
      {
        if min <= refreshTimestamps[i] {
          attempts := attempts + 1;
        }
      }
      excessive := attempts >= refreshWindow.value.maximumAttempts;
    }

    method HandleRefreshSuccess(credential: Credential)
      modifies this
      ensures Reached(old(queue), Succeed(old(State()), credential))
    {
      this.credential := Some(credential);
      var adapts, retries := adaptOperations, requestsToRetry;
      adaptOperations, requestsToRetry := [], [];
      isRefreshing := false;
      queue := queue + [Batch(adapts, retries, None)];
    }

    method HandleRefreshFailure(error: AuthError)
      modifies this
      ensures Reached(old(queue), Release(old(State()), Some(error)))
    {
      var adapts, retries := adaptOperations, requestsToRetry;
      adaptOperations, requestsToRetry := [], [];
      isRefreshing := false;
      queue := queue + [Batch(adapts, retries, Some(error))];
    }
  }
}
