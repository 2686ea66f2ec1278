/** The interceptor never gets stuck: once no more calls come, the steps that bring calls forward are bounded by the
    work that there is and the number of successful refreshes, and where they end every call has been answered. */
module AuthProgress {
  import opened Bytes
  import opened AuthState
  import opened AuthRuns
  import opened AuthSafety

  /** The steps that bring a call forward. A successful refresh sends the waiting calls around once more. */
  predicate Forward(step: Step) {
    match step
    case EnterAdapt(_, _, _, _) | ReadCredential(_, _) | EnterRetry(_, _, _, _) | Complete(_) => true
    case NextBlock | RunItem | RefreshFailed(_) => true
    case NewCall(_) | RefreshSucceeded(_) | SetCredential(_) | Tick(_) => false
  }

  // ----- How much there is left to do -----

  function CallerWork(c: Caller): nat {
    match c
    case Retrying => 8
    case Adapting(_) | HasRead(_) => 7
    case Answering(_) => 1
    case Gone => 0
  }

  function CallersWork(callers: seq<Caller>, n: nat): nat
    requires n <= |callers|
  {
    if n == 0 then 0 else CallersWork(callers, n - 1) + CallerWork(callers[n - 1])
  }

  function ItemsWork(b: Block): nat {
    if b.StartRefresh? then 2 else (if b.error.None? then 8 * |b.adapts| else 2 * |b.adapts|) + 2 * |b.retries|
  }

  function QueueWork(q: seq<Block>): nat {
    if q == [] then 0 else 1 + ItemsWork(q[0]) + QueueWork(q[1..])
  }

  function WaitingWork(m: MutableState): nat {
    3 * (|m.adaptOperations| + |m.requestsToRetry|)
  }

  function Work(s: System): nat {
    CallersWork(s.callers, |s.callers|) + QueueWork(s.queue) + ItemsWork(s.running) + 2 * s.inFlight +
    WaitingWork(s.locked)
  }

  lemma {:induction false} CallerMoves(callers: seq<Caller>, n: nat, i: nat, c: Caller)
    requires i < |callers| && n <= |callers|
    ensures CallersWork(callers[i := c], n) ==
            CallersWork(callers, n) + if i < n then CallerWork(c) - CallerWork(callers[i]) else 0
  {
    if n > 0 {
      CallerMoves(callers, n - 1, i, c);
    }
  }

  lemma {:induction false} QueueWorkAppend(q: seq<Block>, b: Block)
    ensures QueueWork(q + [b]) == QueueWork(q) + 1 + ItemsWork(b)
  {
    if q == [] {
      assert [b][1..] == [];
    } else {
      assert (q + [b])[1..] == q[1..] + [b];
      QueueWorkAppend(q[1..], b);
    }
  }

  /** A section that leaves `o` behind: the work in the queue and in the list of waiting calls. */
  function SectionWork(q: seq<Block>, o: Outcome): nat {
    QueueWork(q + o.dispatched) + WaitingWork(o.state)
  }

  lemma ReleaseWork(m: MutableState, q: seq<Block>, error: AuthError)
    ensures SectionWork(q, Release(m, Some(error))) <= QueueWork(q) + WaitingWork(m) + 1
  {
    QueueWorkAppend(q, Release(m, Some(error)).dispatched[0]);
  }

  lemma RefreshWork(m: MutableState, q: seq<Block>, credential: Credential, checked: real, started: real)
    ensures SectionWork(q, Refresh(m, credential, checked, started)) <= QueueWork(q) + WaitingWork(m) + 3
  {
    if Excessive(m, checked) {
      ReleaseWork(m, q, ExcessiveRefresh);
    } else {
      QueueWorkAppend(q, StartRefresh(credential));
    }
  }

  lemma AdaptWork(s: System, i: nat, requiresRefresh: bool, checked: real, started: real)
    requires At(s, i).Adapting?
    ensures Work(AdaptStep(s, i, requiresRefresh, checked, started)) < Work(s)
  {
    var op := AdaptOperation(i, s.callers[i].request);
    var t := AdaptStep(s, i, requiresRefresh, checked, started);
    CallerMoves(s.callers, |s.callers|, i, t.callers[i]);
    assert s.queue + [] == s.queue;
    if s.locked.credential.Some? {
      RefreshWork(Defer(s.locked, op), s.queue, s.locked.credential.value, checked, started);
    }
  }

  lemma RetryWork(s: System, i: nat, same: bool, checked: real, started: real)
    requires At(s, i).HasRead?
    ensures Work(RetryStep(s, i, same, checked, started)) < Work(s)
  {
    var t := RetryStep(s, i, same, checked, started);
    CallerMoves(s.callers, |s.callers|, i, t.callers[i]);
    assert s.queue + [] == s.queue;
    var waiting := s.locked.(requestsToRetry := s.locked.requestsToRetry + [i]);
    RefreshWork(waiting, s.queue, s.callers[i].credential, checked, started);
  }

  lemma ItemWork(s: System)
    requires Safe(s) && Next(s, RunItem).Some?
    ensures Work(Next(s, RunItem).value) < Work(s)
  {
    if s.running.adapts != [] {
      FrontIsGone(s);
      AdaptItemWork(s, s.running.adapts[0], s.running.error);
    }
  }

  lemma AdaptItemWork(s: System, op: AdaptOperation, error: Option<AuthError>)
    requires s.running.Batch? && s.running.adapts != [] && s.running.error == error && IsGone(s, op.call)
    ensures AdaptItem(s, op, error).Some?
    ensures Work(AdaptItem(s, op, error).value) < Work(s)
  {
    if error.None? {
      CallerMoves(s.callers, |s.callers|, op.call, Adapting(op.request));
    }
  }

  /** Each step forward leaves less to do. */
  lemma ForwardWorks(s: System, step: Step)
    requires Safe(s) && Forward(step) && Next(s, step).Some?
    ensures Work(Next(s, step).value) < Work(s)
  {
    match step {
      case EnterAdapt(i, requiresRefresh, checked, started) => AdaptWork(s, i, requiresRefresh, checked, started);
      case EnterRetry(i, same, checked, started) => RetryWork(s, i, same, checked, started);
      case ReadCredential(i, failed) =>
        CallerMoves(s.callers, |s.callers|, i, AfterRead(s.locked.credential, failed));
      case Complete(i) => CallerMoves(s.callers, |s.callers|, i, Gone);
      case RunItem => ItemWork(s);
      case RefreshFailed(error) => ReleaseWork(s.locked, s.queue, error);
      case NextBlock =>
    }
  }

  /** As long as anything is left to do, a step forward is possible. */
  lemma NeverStuck(s: System) returns (step: Step)
    requires Safe(s) && !Idle(s)
    ensures Forward(step) && Next(s, step).Some?
  {
    if i :| 0 <= i < |s.callers| && !s.callers[i].Gone? {
      match s.callers[i] {
        case Adapting(_) => step := EnterAdapt(i, false, s.now, s.now);
        case Retrying => step := ReadCredential(i, false);
        case HasRead(_) => step := EnterRetry(i, false, s.now, s.now);
        case Answering(_) => step := Complete(i);
      }
    } else if s.running.adapts != [] {
      FrontIsGone(s);
      step := RunItem;
    } else if s.running.retries != [] {
      step := RunItem;
    } else if s.queue != [] {
      step := NextBlock;
    } else {
      step := RefreshFailed(MissingCredential);
    }
  }

  // ----- What a successful refresh adds -----

  function Times(ids: seq<nat>, id: nat): nat {
    multiset(ids)[id]
  }

  lemma HeadOccurs(ids: seq<nat>)
    requires ids != []
    ensures Times(ids, ids[0]) > 0
  {
    assert ids[0] in multiset(ids);
  }

  lemma {:induction false} DistinctBelow(ids: seq<nat>, n: nat)
    requires forall id: nat :: Times(ids, id) <= if id < n then 1 else 0
    ensures |ids| <= n
    decreases n
  {
    if ids != [] {
      HeadOccurs(ids);
    }
    if n > 0 {
      var less := Without(ids, n - 1);
      DistinctBelow(less, n - 1);
    }
  }

  /** Takes out one number, which occurs once at most. */
  lemma Without(ids: seq<nat>, x: nat) returns (less: seq<nat>)
    requires Times(ids, x) <= 1
    ensures |ids| <= |less| + 1
    ensures forall id: nat :: Times(less, id) == if id == x then 0 else Times(ids, id)
  {
    if i :| 0 <= i < |ids| && ids[i] == x {
      less := ids[..i] + ids[i + 1..];
      assert ids == ids[..i] + [x] + ids[i + 1..];
      assert multiset(ids) == multiset(less) + multiset{x};
    } else {
      less := ids;
      assert x !in ids;
    }
  }

  lemma WaitsInPlace(s: System, id: nat)
    ensures Times(CallsOf(s.locked.adaptOperations), id) <= Placed(s, id)
  {
    var before := AdaptsOf(s.running) + QueueAdapts(s.queue);
    assert AdaptsInside(s) == before + s.locked.adaptOperations;
    assert CallsOf(AdaptsInside(s)) == CallsOf(before) + CallsOf(s.locked.adaptOperations);
  }

  /** A call waits at most once, so there are no more waiting operations than calls. */
  lemma FewWait(s: System)
    requires Safe(s)
    ensures |s.locked.adaptOperations| <= |s.calls|
  {
    BalanceIsPlacement(s);
    forall id: nat
      ensures Times(CallsOf(s.locked.adaptOperations), id) <= if id < |s.calls| then 1 else 0
    {
      WaitsInPlace(s, id);
      assert PlacedOnce(s, id);
    }
    DistinctBelow(CallsOf(s.locked.adaptOperations), |s.calls|);
  }

  /** It sends the waiting calls around once more. */
  lemma SuccessWorks(s: System, credential: Credential)
    requires Safe(s) && s.inFlight > 0
    ensures Work(Next(s, RefreshSucceeded(credential)).value) < Work(s) + 5 * |s.calls|
  {
    FewWait(s);
    var m := s.locked.(credential := Some(credential));
    QueueWorkAppend(s.queue, Release(m, None).dispatched[0]);
  }

  // ----- Runs in which no more calls come -----

  function Moves(steps: seq<Step>): nat {
    if steps == [] then 0
    else Moves(steps[..|steps| - 1]) + if Forward(steps[|steps| - 1]) then 1 else 0
  }

  function Successes(steps: seq<Step>): nat {
    if steps == [] then 0
    else Successes(steps[..|steps| - 1]) + if steps[|steps| - 1].RefreshSucceeded? then 1 else 0
  }

  predicate NoNewCalls(steps: seq<Step>) {
    forall i :: 0 <= i < |steps| ==> !steps[i].NewCall?
  }

  lemma StepWorks(s: System, step: Step)
    requires Safe(s) && Next(s, step).Some? && !step.NewCall?
    ensures Next(s, step).value.calls == s.calls
    ensures Work(Next(s, step).value) + (if Forward(step) then 1 else 0) <=
            Work(s) + if step.RefreshSucceeded? then 5 * |s.calls| else 0
  {
    if Forward(step) {
      ForwardWorks(s, step);
    } else if step.RefreshSucceeded? {
      SuccessWorks(s, step.credential);
    }
  }

  /** Five steps for each call and each successful refresh. */
  function Allowance(steps: seq<Step>, calls: nat): nat {
    if steps == [] then 0
    else Allowance(steps[..|steps| - 1], calls) + if steps[|steps| - 1].RefreshSucceeded? then 5 * calls else 0
  }

  lemma {:induction false} AllowanceIs(steps: seq<Step>, calls: nat)
    ensures Allowance(steps, calls) == Successes(steps) * (5 * calls)
  {
    if steps != [] {
      AllowanceIs(steps[..|steps| - 1], calls);
      OneMore(Successes(steps[..|steps| - 1]), 5 * calls);
    }
  }

  lemma OneMore(k: nat, n: nat)
    ensures (k + 1) * n == k * n + n
  {
  }

  lemma {:induction false} ForwardAllowed(s: System, steps: seq<Step>)
    requires Safe(s) && Run(s, steps).Some? && NoNewCalls(steps)
    ensures Safe(Run(s, steps).value) && Run(s, steps).value.calls == s.calls
    ensures Moves(steps) + Work(Run(s, steps).value) <= Work(s) + Allowance(steps, |s.calls|)
    decreases |steps|
  {
    if steps != [] {
      var before, last := steps[..|steps| - 1], steps[|steps| - 1];
      ForwardAllowed(s, before);
      StepWorks(Run(s, before).value, last);
      SafeKept(Run(s, before).value, last);
    }
  }

  /** However the credential and the clock change meanwhile, there are at most as many steps forward as there was work,
      and five more for each call and each successful refresh. */
  lemma ForwardEnds(s: System, steps: seq<Step>)
    requires Safe(s) && Run(s, steps).Some? && NoNewCalls(steps)
    ensures Moves(steps) + Work(Run(s, steps).value) <= Work(s) + Successes(steps) * (5 * |s.calls|)
  {
    ForwardAllowed(s, steps);
    AllowanceIs(steps, |s.calls|);
  }

  ghost predicate AtEnd(s: System) {
    forall step :: Forward(step) ==> Next(s, step).None?
  }

  /** Where it cannot go on, every call has its one answer, however many refreshes have succeeded. */
  lemma AllAnswered(s: System, steps: seq<Step>, id: nat)
    requires Safe(s) && Run(s, steps).Some? && NoNewCalls(steps)
    requires AtEnd(Run(s, steps).value)
    ensures multiset(LogCalls(Run(s, steps).value.past.log))[id] == if id < |s.calls| then 1 else 0
  {
    ForwardAllowed(s, steps);
    var t := Run(s, steps).value;
    if !Idle(t) {
      var step := NeverStuck(t);
      assert false;
    }
    IdleMeansAnswered(t, id);
  }
}
