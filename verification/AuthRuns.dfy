/** Runs of the authentication interceptor: any number of threads adapt and retry requests, one lock section at a time,
    while a serial queue works off what was dispatched to it and the authenticator answers each refresh once. */
module AuthRuns {
  import opened Bytes
  import opened AuthState

  datatype Call = AdaptCall(request: Request) | RetryCall

  datatype Answer =
    | Adapted(request: Request, credential: Credential)
    | NotAdapted(error: AuthError)
    | Retry
    | DoNotRetry
    | DoNotRetryWithError(error: AuthError)

  /** Where a call stands on the thread that works on it. It is `Gone` from there once it waits, or is answered. */
  datatype Caller =
    | Adapting(request: Request)
    | Retrying
    | HasRead(credential: Credential)
    | Answering(answer: Answer)
    | Gone

  datatype Answered = Answered(call: nat, answer: Answer)

  /** What has happened: the answers, the calls that have ever waited and those that were served, in order, and the
      number of refreshes that are over. */
  datatype History = History(
    log: seq<Answered>,
    arrivedAdapts: seq<AdaptOperation>,
    servedAdapts: seq<AdaptOperation>,
    arrivedRetries: seq<nat>,
    servedRetries: seq<nat>,
    rounds: nat)

  /** A call is known by its number in `calls`. The queue's own thread works off the block `running`; `worker` is the
      call that it is adapting, if any. */
  datatype System = System(
    locked: MutableState,
    queue: seq<Block>,
    running: Block,
    inFlight: nat,
    worker: Option<nat>,
    now: real,
    calls: seq<Call>,
    callers: seq<Caller>,
    past: History)

  /** What the environment decides is part of the step: what the authenticator thinks of a request or a credential, what
      it answers, and what the clock shows. */
  datatype Step =
    | NewCall(call: Call)
    | EnterAdapt(id: nat, requiresRefresh: bool, checked: real, started: real)
    | ReadCredential(id: nat, authenticationFailed: bool)
    | EnterRetry(id: nat, sameCredential: bool, checked: real, started: real)
    | Complete(id: nat)
    | NextBlock
    | RunItem
    | RefreshSucceeded(credential: Credential)
    | RefreshFailed(error: AuthError)
    | SetCredential(newValue: Option<Credential>)
    | Tick(time: real)

  function Start(credential: Option<Credential>, window: Option<RefreshWindow>, now: real): System {
    System(MutableState(credential, false, [], window, [], []), [], Batch([], [], None), 0, None, now, [], [],
           History([], [], [], [], [], 0))
  }

  function At(s: System, id: nat): Caller {
    if id < |s.callers| then s.callers[id] else Gone
  }

  function Next(s: System, step: Step): Option<System> {
    match step
    case NewCall(call) =>
      Some(s.(calls := s.calls + [call],
              callers := s.callers + [if call.AdaptCall? then Adapting(call.request) else Retrying]))
    case EnterAdapt(id, requiresRefresh, checked, started) =>
      if At(s, id).Adapting? && s.now <= checked <= started
      then Some(AdaptStep(s, id, requiresRefresh, checked, started)) else None
    case ReadCredential(id, authenticationFailed) =>
      if At(s, id).Retrying?
      then Some(s.(callers := s.callers[id := AfterRead(s.locked.credential, authenticationFailed)])) else None
    case EnterRetry(id, sameCredential, checked, started) =>
      if At(s, id).HasRead? && s.now <= checked <= started
      then Some(RetryStep(s, id, sameCredential, checked, started)) else None
    case Complete(id) =>
      if At(s, id).Answering?
      then Some(Log(s.(callers := s.callers[id := Gone]), Answered(id, s.callers[id].answer))) else None
    case NextBlock =>
      if Busy(s) || AdaptsOf(s.running) != [] || RetriesOf(s.running) != [] || s.queue == [] then None
      else Some(BlockStep(s.(queue := s.queue[1..]), s.queue[0]))
    case RunItem =>
      if Busy(s) || s.running.StartRefresh? then None
      else if s.running.adapts != [] then AdaptItem(s, s.running.adapts[0], s.running.error)
      else if s.running.retries != [] then Some(RetryItem(s, s.running.retries[0], s.running.error))
      else None
    case RefreshSucceeded(credential) =>
      if s.inFlight > 0 then Some(RoundOver(s, Succeed(s.locked, credential))) else None
    case RefreshFailed(error) =>
      if s.inFlight > 0 then Some(RoundOver(s, Release(s.locked, Some(error)))) else None
    case SetCredential(newValue) => Some(s.(locked := s.locked.(credential := newValue)))
    case Tick(time) => if s.now <= time then Some(s.(now := time)) else None
  }

  function AdaptStep(s: System, id: nat, requiresRefresh: bool, checked: real, started: real): System
    requires At(s, id).Adapting?
  {
    var op := AdaptOperation(id, s.callers[id].request);
    var (outcome, result) := AdaptSection(s.locked, op, requiresRefresh, checked, started);
    var caller :=
      match result
      case AdaptDeferred => Gone
      case Adapt(credential) => Answering(Adapted(op.request, credential))
      case DoNotAdapt(error) => Answering(NotAdapted(error));
    var past := if result.AdaptDeferred? then s.past.(arrivedAdapts := s.past.arrivedAdapts + [op]) else s.past;
    Enter(s, outcome, started).(callers := s.callers[id := caller], past := past)
  }

  /** The guards of `retry` up to the unlocked read of the credential. */
  function AfterRead(credential: Option<Credential>, authenticationFailed: bool): Caller {
    if !authenticationFailed then Answering(DoNotRetry)
    else if credential.None? then Answering(DoNotRetryWithError(MissingCredential))
    else HasRead(credential.value)
  }

  function RetryStep(s: System, id: nat, sameCredential: bool, checked: real, started: real): System
    requires At(s, id).HasRead?
  {
    if !sameCredential then s.(callers := s.callers[id := Answering(Retry)])
    else
      Enter(s, RetrySection(s.locked, id, s.callers[id].credential, checked, started), started).(
        callers := s.callers[id := Gone],
        past := s.past.(arrivedRetries := s.past.arrivedRetries + [id]))
  }

  function Enter(s: System, outcome: Outcome, now: real): System {
    s.(locked := outcome.state, queue := s.queue + outcome.dispatched, now := now)
  }

  /** The authenticator answers. */
  function RoundOver(s: System, outcome: Outcome): System
    requires s.inFlight > 0
  {
    Enter(s, outcome, s.now).(inFlight := s.inFlight - 1, past := s.past.(rounds := s.past.rounds + 1))
  }

  /** Whether the queue's thread is still adapting a request of a batch. */
  predicate Busy(s: System) {
    s.worker.Some? && !At(s, s.worker.value).Gone?
  }

  function Log(s: System, a: Answered): System {
    s.(past := s.past.(log := s.past.log + [a]))
  }

  /** The queue's thread takes up a block. */
  function BlockStep(s: System, b: Block): System {
    if b.StartRefresh? then s.(inFlight := s.inFlight + 1) else s.(running := b)
  }

  /** It goes through a batch one call at a time: the deferred adaptations, then the retries. */
  function AdaptItem(s: System, op: AdaptOperation, error: Option<AuthError>): Option<System>
    requires s.running.Batch? && s.running.adapts != []
  {
    var t := s.(running := s.running.(adapts := s.running.adapts[1..]),
                past := s.past.(servedAdapts := s.past.servedAdapts + [op]));
    if op.call >= |s.callers| then None
    else if error.Some? then Some(Log(t, Answered(op.call, NotAdapted(error.value))))
    else Some(t.(callers := s.callers[op.call := Adapting(op.request)], worker := Some(op.call)))
  }

  function RetryItem(s: System, id: nat, error: Option<AuthError>): System
    requires s.running.Batch? && s.running.retries != []
  {
    Log(s.(running := s.running.(retries := s.running.retries[1..]),
           past := s.past.(servedRetries := s.past.servedRetries + [id])),
        Answered(id, if error.None? then Retry else DoNotRetryWithError(error.value)))
  }

  function Run(s: System, steps: seq<Step>): Option<System>
    decreases |steps|
  {
    if steps == [] then Some(s)
    else
      var before := Run(s, steps[..|steps| - 1]);
      if before.None? then None else Next(before.value, steps[|steps| - 1])
  }

  // ----- What is on its way -----

  function AdaptsOf(b: Block): seq<AdaptOperation> {
    if b.Batch? then b.adapts else []
  }

  function RetriesOf(b: Block): seq<nat> {
    if b.Batch? then b.retries else []
  }

  function QueueAdapts(q: seq<Block>): seq<AdaptOperation> {
    if q == [] then [] else AdaptsOf(q[0]) + QueueAdapts(q[1..])
  }

  function QueueRetries(q: seq<Block>): seq<nat> {
    if q == [] then [] else RetriesOf(q[0]) + QueueRetries(q[1..])
  }

  function QueueStarts(q: seq<Block>): nat {
    if q == [] then 0 else QueueStarts(q[1..]) + if q[0].StartRefresh? then 1 else 0
  }

  lemma QueueFront(b: Block, rest: seq<Block>)
    ensures QueueAdapts([b] + rest) == AdaptsOf(b) + QueueAdapts(rest)
    ensures QueueRetries([b] + rest) == RetriesOf(b) + QueueRetries(rest)
    ensures QueueStarts([b] + rest) == QueueStarts(rest) + if b.StartRefresh? then 1 else 0
  {
    assert ([b] + rest)[1..] == rest;
  }

  lemma {:induction false} QueueAppend(q: seq<Block>, b: Block)
    ensures QueueAdapts(q + [b]) == QueueAdapts(q) + AdaptsOf(b)
    ensures QueueRetries(q + [b]) == QueueRetries(q) + RetriesOf(b)
    ensures QueueStarts(q + [b]) == QueueStarts(q) + if b.StartRefresh? then 1 else 0
    decreases |q|, 0
  {
    if q == [] {
      QueueFront(b, []);
      assert q + [b] == [b] + [];
    } else {
      AppendBehind(q[0], q[1..], b);
      assert q == [q[0]] + q[1..];
      assert q + [b] == [q[0]] + (q[1..] + [b]);
    }
  }

  lemma {:induction false} AppendBehind(front: Block, rest: seq<Block>, b: Block)
    ensures QueueAdapts([front] + (rest + [b])) == QueueAdapts([front] + rest) + AdaptsOf(b)
    ensures QueueRetries([front] + (rest + [b])) == QueueRetries([front] + rest) + RetriesOf(b)
    ensures QueueStarts([front] + (rest + [b])) ==
            QueueStarts([front] + rest) + if b.StartRefresh? then 1 else 0
    decreases |rest|, 1
  {
    QueueFront(front, rest);
    QueueFront(front, rest + [b]);
    QueueAppend(rest, b);
  }

  /** The operations that wait: in the batches of the queue, and in the locked state. */
  function AdaptsWaiting(m: MutableState, q: seq<Block>): seq<AdaptOperation> {
    QueueAdapts(q) + m.adaptOperations
  }

  function RetriesWaiting(m: MutableState, q: seq<Block>): seq<nat> {
    QueueRetries(q) + m.requestsToRetry
  }

  /** With those of the batch that the queue's thread is going through. */
  function AdaptsInside(s: System): seq<AdaptOperation> {
    AdaptsOf(s.running) + AdaptsWaiting(s.locked, s.queue)
  }

  function RetriesInside(s: System): seq<nat> {
    RetriesOf(s.running) + RetriesWaiting(s.locked, s.queue)
  }

  /** A section moves waiting calls from the state to the end of the queue, and may add one. */
  predicate Keeps(
    m: MutableState, q: seq<Block>, o: Outcome, adapts: seq<AdaptOperation>, retries: seq<nat>, starts: nat) {
    AdaptsWaiting(o.state, q + o.dispatched) == AdaptsWaiting(m, q) + adapts &&
    RetriesWaiting(o.state, q + o.dispatched) == RetriesWaiting(m, q) + retries &&
    QueueStarts(q + o.dispatched) == QueueStarts(q) + starts
  }

  lemma ReleaseKeeps(m: MutableState, q: seq<Block>, error: Option<AuthError>)
    ensures Keeps(m, q, Release(m, error), [], [], 0)
  {
    QueueAppend(q, Release(m, error).dispatched[0]);
  }

  lemma RefreshKeeps(m: MutableState, q: seq<Block>, credential: Credential, checked: real, started: real)
    ensures Keeps(m, q, Refresh(m, credential, checked, started), [], [], if Excessive(m, checked) then 0 else 1)
  {
    if Excessive(m, checked) {
      ReleaseKeeps(m, q, Some(ExcessiveRefresh));
    } else {
      QueueAppend(q, StartRefresh(credential));
    }
  }

  /** How many refreshes a section starts. */
  function Starts(m: MutableState, o: Outcome): nat {
    if |o.state.refreshTimestamps| > |m.refreshTimestamps| then 1 else 0
  }

  lemma AdaptKeeps(
    m: MutableState, q: seq<Block>, op: AdaptOperation, requiresRefresh: bool, checked: real, started: real)
    ensures var (o, result) := AdaptSection(m, op, requiresRefresh, checked, started);
            Keeps(m, q, o, if result.AdaptDeferred? then [op] else [], [], Starts(m, o))
  {
    assert q + [] == q;
    if !m.isRefreshing && m.credential.Some? && requiresRefresh {
      RefreshKeeps(Defer(m, op), q, m.credential.value, checked, started);
    }
  }

  lemma RetryKeeps(m: MutableState, q: seq<Block>, id: nat, credential: Credential, checked: real, started: real)
    ensures var o := RetrySection(m, id, credential, checked, started);
            Keeps(m, q, o, [], [id], Starts(m, o))
  {
    assert q + [] == q;
    var waiting := m.(requestsToRetry := m.requestsToRetry + [id]);
    if !m.isRefreshing {
      RefreshKeeps(waiting, q, credential, checked, started);
    }
  }

  // ----- First come, first served -----

  /** Whatever has ever waited was served, or is waiting, in the order of arrival. */
  predicate Fifo(s: System) {
    InOrder(s.past.arrivedAdapts, s.past.servedAdapts, AdaptsOf(s.running), AdaptsWaiting(s.locked, s.queue)) &&
    InOrder(s.past.arrivedRetries, s.past.servedRetries, RetriesOf(s.running), RetriesWaiting(s.locked, s.queue))
  }

  predicate InOrder<T(==)>(arrived: seq<T>, served: seq<T>, running: seq<T>, waiting: seq<T>) {
    arrived == served + (running + waiting)
  }

  lemma Arrive<T>(arrived: seq<T>, served: seq<T>, running: seq<T>, waiting: seq<T>, more: seq<T>)
    requires InOrder(arrived, served, running, waiting)
    ensures InOrder(arrived + more, served, running, waiting + more)
  {
  }

  lemma Serve<T>(arrived: seq<T>, served: seq<T>, running: seq<T>, waiting: seq<T>)
    requires InOrder(arrived, served, running, waiting) && running != []
    ensures InOrder(arrived, served + [running[0]], running[1..], waiting)
  {
    assert running == [running[0]] + running[1..];
  }

  lemma FifoKept(s: System, step: Step)
    requires Fifo(s) && Next(s, step).Some?
    ensures Fifo(Next(s, step).value)
  {
    match step {
      case EnterAdapt(id, requiresRefresh, checked, started) =>
        var op := AdaptOperation(id, s.callers[id].request);
        var (o, result) := AdaptSection(s.locked, op, requiresRefresh, checked, started);
        AdaptKeeps(s.locked, s.queue, op, requiresRefresh, checked, started);
        SectionFifo(s, o, if result.AdaptDeferred? then [op] else [], []);
      case EnterRetry(id, same, checked, started) =>
        if same {
          RetryKeeps(s.locked, s.queue, id, s.callers[id].credential, checked, started);
          SectionFifo(s, RetrySection(s.locked, id, s.callers[id].credential, checked, started), [], [id]);
        }
      case RefreshSucceeded(credential) =>
        ReleaseKeeps(s.locked.(credential := Some(credential)), s.queue, None);
        SectionFifo(s, Succeed(s.locked, credential), [], []);
      case RefreshFailed(error) =>
        ReleaseKeeps(s.locked, s.queue, Some(error));
        SectionFifo(s, Release(s.locked, Some(error)), [], []);
      case NextBlock => BlockFifo(s);
      case RunItem =>
        if s.running.adapts != [] {
          Serve(s.past.arrivedAdapts, s.past.servedAdapts, s.running.adapts, AdaptsWaiting(s.locked, s.queue));
        } else {
          Serve(s.past.arrivedRetries, s.past.servedRetries, s.running.retries, RetriesWaiting(s.locked, s.queue));
        }
      case _ =>
    }
  }

  lemma SectionFifo(s: System, o: Outcome, adapts: seq<AdaptOperation>, retries: seq<nat>)
    requires Fifo(s)
    requires AdaptsWaiting(o.state, s.queue + o.dispatched) == AdaptsWaiting(s.locked, s.queue) + adapts
    requires RetriesWaiting(o.state, s.queue + o.dispatched) == RetriesWaiting(s.locked, s.queue) + retries
    ensures InOrder(s.past.arrivedAdapts + adapts, s.past.servedAdapts, AdaptsOf(s.running),
                    AdaptsWaiting(o.state, s.queue + o.dispatched))
    ensures InOrder(s.past.arrivedRetries + retries, s.past.servedRetries, RetriesOf(s.running),
                    RetriesWaiting(o.state, s.queue + o.dispatched))
    ensures s.past.arrivedAdapts + [] == s.past.arrivedAdapts && s.past.arrivedRetries + [] == s.past.arrivedRetries
  {
    Arrive(s.past.arrivedAdapts, s.past.servedAdapts, AdaptsOf(s.running), AdaptsWaiting(s.locked, s.queue), adapts);
    Arrive(s.past.arrivedRetries, s.past.servedRetries, RetriesOf(s.running), RetriesWaiting(s.locked, s.queue),
           retries);
  }

  lemma BlockFifo(s: System)
    requires Fifo(s) && Next(s, NextBlock).Some?
    ensures Fifo(Next(s, NextBlock).value)
  {
    var b, rest := s.queue[0], s.queue[1..];
    assert AdaptsWaiting(s.locked, s.queue) == AdaptsOf(b) + AdaptsWaiting(s.locked, rest);
    assert RetriesWaiting(s.locked, s.queue) == RetriesOf(b) + RetriesWaiting(s.locked, rest);
    if b.StartRefresh? {
      assert AdaptsOf(b) == [] && RetriesOf(b) == [];
      assert [] + AdaptsWaiting(s.locked, rest) == AdaptsWaiting(s.locked, rest);
      assert [] + RetriesWaiting(s.locked, rest) == RetriesWaiting(s.locked, rest);
    } else {
      assert [] + AdaptsWaiting(s.locked, s.queue) == AdaptsWaiting(s.locked, s.queue);
      assert [] + RetriesWaiting(s.locked, s.queue) == RetriesWaiting(s.locked, s.queue);
    }
  }

  // ----- Every call in one place -----

  function CallsOf(ops: seq<AdaptOperation>): seq<nat> {
    seq(|ops|, i requires 0 <= i < |ops| => ops[i].call)
  }

  function LogCalls(log: seq<Answered>): seq<nat> {
    seq(|log|, i requires 0 <= i < |log| => log[i].call)
  }

  /** How often call `id` waits, or was answered. */
  function Placed(s: System, id: nat): nat {
    multiset(CallsOf(AdaptsInside(s)))[id] + multiset(RetriesInside(s))[id] +
    multiset(LogCalls(s.past.log))[id]
  }

  predicate IsGone(s: System, id: nat) {
    id < |s.callers| && s.callers[id].Gone?
  }

  predicate PlacedOnce(s: System, id: nat) {
    Placed(s, id) == if IsGone(s, id) then 1 else 0
  }

  /** Every call is in one place: on its thread, in one list of waiting calls or in the answer log. */
  ghost predicate InOnePlace(s: System) {
    forall id: nat :: PlacedOnce(s, id)
  }

  /** The same as a balance of what came and went. */
  predicate BalancedAt(s: System, id: nat) {
    Came(s, id) == Went(s, id) + if IsGone(s, id) then 1 else 0
  }

  ghost predicate Balanced(s: System) {
    |s.callers| == |s.calls| && forall id: nat :: BalancedAt(s, id)
  }

  function Came(s: System, id: nat): nat {
    multiset(CallsOf(s.past.arrivedAdapts))[id] + multiset(s.past.arrivedRetries)[id] +
    multiset(LogCalls(s.past.log))[id]
  }

  function Went(s: System, id: nat): nat {
    multiset(CallsOf(s.past.servedAdapts))[id] + multiset(s.past.servedRetries)[id]
  }

  lemma CameAndWent(s: System, id: nat)
    requires Fifo(s)
    ensures Came(s, id) == Went(s, id) + Placed(s, id)
  {
    var ids, inside := CallsOf(s.past.servedAdapts), CallsOf(AdaptsInside(s));
    assert CallsOf(s.past.arrivedAdapts) == ids + inside;
  }

  lemma BalanceIsPlacement(s: System)
    requires Fifo(s) && Balanced(s)
    ensures InOnePlace(s)
  {
    forall id: nat
      ensures PlacedOnce(s, id)
    {
      CameAndWent(s, id);
      assert BalancedAt(s, id);
    }
  }

  lemma BalanceKept(s: System, step: Step)
    requires Fifo(s) && Balanced(s) && Next(s, step).Some?
    ensures Balanced(Next(s, step).value)
  {
    forall id: nat
      ensures BalancedAt(Next(s, step).value, id)
    {
      StepBalanced(s, step, id);
    }
  }

  lemma StepBalanced(s: System, step: Step, id: nat)
    requires Fifo(s) && Balanced(s) && Next(s, step).Some?
    ensures BalancedAt(Next(s, step).value, id)
  {
    assert BalancedAt(s, id);
    match step {
      case EnterAdapt(i, r, checked, started) => AdaptBalanced(s, i, r, checked, started, id);
      case EnterRetry(i, same, checked, started) => RetryBalanced(s, i, same, checked, started, id);
      case RunItem => ItemBalanced(s, id);
      case Complete(i) => Logged(s.past.log, Answered(i, s.callers[i].answer), id);
      case _ => OtherBalanced(s, step, id);
    }
  }

  lemma OtherBalanced(s: System, step: Step, id: nat)
    requires BalancedAt(s, id) && Next(s, step).Some?
    requires !step.EnterAdapt? && !step.EnterRetry? && !step.RunItem? && !step.Complete?
    ensures BalancedAt(Next(s, step).value, id)
  {
    SameBalance(s, Next(s, step).value, id);
  }

  lemma SameBalance(s: System, t: System, id: nat)
    requires BalancedAt(s, id) && IsGone(s, id) == IsGone(t, id)
    requires t.past == s.past.(rounds := t.past.rounds)
    ensures BalancedAt(t, id)
  {
  }

  lemma RetryBalanced(s: System, i: nat, same: bool, checked: real, started: real, id: nat)
    requires At(s, i).HasRead? && BalancedAt(s, id)
    ensures BalancedAt(RetryStep(s, i, same, checked, started), id)
  {
    if same {
      CameRetry(s.past.arrivedRetries, i, id);
    } else {
      SameBalance(s, RetryStep(s, i, same, checked, started), id);
    }
  }

  lemma AdaptBalanced(s: System, i: nat, requiresRefresh: bool, checked: real, started: real, id: nat)
    requires At(s, i).Adapting? && BalancedAt(s, id)
    ensures BalancedAt(AdaptStep(s, i, requiresRefresh, checked, started), id)
  {
    CameAdapt(s.past.arrivedAdapts, AdaptOperation(i, s.callers[i].request), id);
  }

  lemma CameAdapt(ops: seq<AdaptOperation>, op: AdaptOperation, id: nat)
    ensures multiset(CallsOf(ops + [op]))[id] == multiset(CallsOf(ops))[id] + if op.call == id then 1 else 0
  {
    assert CallsOf(ops + [op]) == CallsOf(ops) + [op.call];
  }

  lemma CameRetry(ids: seq<nat>, i: nat, id: nat)
    ensures multiset(ids + [i])[id] == multiset(ids)[id] + if i == id then 1 else 0
  {
  }

  lemma Logged(log: seq<Answered>, a: Answered, id: nat)
    ensures multiset(LogCalls(log + [a]))[id] == multiset(LogCalls(log))[id] + if a.call == id then 1 else 0
  {
    assert LogCalls(log + [a]) == LogCalls(log) + [a.call];
  }

  lemma ItemBalanced(s: System, id: nat)
    requires Fifo(s) && Balanced(s) && Next(s, RunItem).Some?
    ensures BalancedAt(Next(s, RunItem).value, id)
  {
    assert BalancedAt(s, id);
    var error := s.running.error;
    if s.running.adapts != [] {
      var op := s.running.adapts[0];
      CameAdapt(s.past.servedAdapts, op, id);
      FrontIsGone(s);
      if error.Some? {
        Logged(s.past.log, Answered(op.call, NotAdapted(error.value)), id);
      }
    } else {
      var i := s.running.retries[0];
      CameRetry(s.past.servedRetries, i, id);
      Logged(s.past.log, Answered(i, if error.None? then Retry else DoNotRetryWithError(error.value)), id);
    }
  }

  lemma FrontIsGone(s: System)
    requires Fifo(s) && Balanced(s) && AdaptsOf(s.running) != []
    ensures IsGone(s, s.running.adapts[0].call)
  {
    var id := s.running.adapts[0].call;
    var ids := CallsOf(AdaptsInside(s));
    assert ids[0] == id;
    assert ids[0] in multiset(ids);
    CameAndWent(s, id);
    assert BalancedAt(s, id);
  }
}
