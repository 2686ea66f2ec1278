/** What each call is answered, over all runs: by the state that its own lock section found, or by how the refresh ended
    that it waited for. */
module AuthAnswers {
  import opened Bytes
  import opened AuthState
  import opened AuthRuns
  import opened AuthSafety

  /** How a refresh ends for those who wait for it. It may end before it has begun, when there were too many of them. */
  datatype End = Succeeded | Failed(error: AuthError)

  /** What a step decides about a call: its answer, or that it waits for the end of refresh `round`. */
  datatype Decision =
    | Now(call: nat, answer: Answer)
    | Waits(call: nat, adapts: bool, round: nat)

  /** At least `maximumAttempts` refreshes began within the interval before `checked`. */
  ghost predicate TooMany(m: MutableState, checked: real) {
    m.refreshWindow.Some? &&
    |set i: nat | i < |m.refreshTimestamps| &&
       checked - m.refreshWindow.value.interval <= m.refreshTimestamps[i]| >= m.refreshWindow.value.maximumAttempts
  }

  /** Whether a step asks for a refresh although none is out. */
  predicate AsksForRefresh(s: System, step: Step) {
    match step
    case EnterAdapt(_, requiresRefresh, _, _) =>
      !s.locked.isRefreshing && s.locked.credential.Some? && requiresRefresh
    case EnterRetry(_, sameCredential, _, _) => !s.locked.isRefreshing && sameCredential
    case _ => false
  }

  function CheckedAt(step: Step): real {
    match step
    case EnterAdapt(_, _, checked, _) => checked
    case EnterRetry(_, _, checked, _) => checked
    case _ => 0.0
  }

  /** The refresh, if any, that ends with this step. */
  ghost function EndOf(s: System, step: Step): Option<End> {
    match step
    case RefreshSucceeded(_) => Some(Succeeded)
    case RefreshFailed(error) => Some(Failed(error))
    case _ =>
      if AsksForRefresh(s, step) && TooMany(s.locked, CheckedAt(step)) then Some(Failed(ExcessiveRefresh)) else None
  }

  /** What a step decides when `round` refreshes have ended before. */
  function DecisionOf(s: System, step: Step, round: nat): Option<Decision> {
    match step
    case EnterAdapt(id, requiresRefresh, _, _) =>
      if id >= |s.callers| || !s.callers[id].Adapting? then None
      else if s.locked.isRefreshing then Some(Waits(id, true, round))
      else if s.locked.credential.None? then Some(Now(id, NotAdapted(MissingCredential)))
      else if requiresRefresh then Some(Waits(id, true, round))
      else Some(Now(id, Adapted(s.callers[id].request, s.locked.credential.value)))
    case ReadCredential(id, authenticationFailed) =>
      if !authenticationFailed then Some(Now(id, DoNotRetry))
      else if s.locked.credential.None? then Some(Now(id, DoNotRetryWithError(MissingCredential)))
      else None
    case EnterRetry(id, sameCredential, _, _) =>
      if sameCredential then Some(Waits(id, false, round)) else Some(Now(id, Retry))
    case _ => None
  }

  /** The ends of refreshes and the decisions of a run so far, in order. */
  datatype Track = Track(ends: seq<End>, decisions: seq<Decision>)

  ghost function Record(track: Track, s: System, step: Step): Track {
    var d, e := DecisionOf(s, step, |track.ends|), EndOf(s, step);
    Track(track.ends + if e.Some? then [e.value] else [], track.decisions + if d.Some? then [d.value] else [])
  }

  ghost function TrackOf(s: System, steps: seq<Step>): Track
    requires Run(s, steps).Some?
    decreases |steps|
  {
    if steps == [] then Track([], [])
    else
      var before := steps[..|steps| - 1];
      Record(TrackOf(s, before), Run(s, before).value, steps[|steps| - 1])
  }

  // ----- Batches and the refreshes they belong to -----

  function ErrorOf(end: End): Option<AuthError> {
    if end.Succeeded? then None else Some(end.error)
  }

  /** The batches that are not yet taken up. */
  function Batches(q: seq<Block>): seq<Block> {
    if q == [] then [] else (if q[0].Batch? then [q[0]] else []) + Batches(q[1..])
  }

  /** The batches that were taken up. */
  function Taken(s: System, ends: seq<End>): int {
    |ends| - |Batches(s.queue)|
  }

  /** One batch for each end, with its error; the one that is running is the last one taken up. */
  predicate BatchesOk(s: System, ends: seq<End>) {
    var q := Batches(s.queue);
    |q| <= |ends| &&
    (forall j :: 0 <= j < |q| ==> q[j].Batch? && q[j].error == ErrorOf(ends[|ends| - |q| + j])) &&
    s.running.Batch? &&
    (|q| < |ends| ==> s.running.error == ErrorOf(ends[|ends| - |q| - 1])) &&
    (|q| == |ends| ==> s.running.adapts == [] && s.running.retries == [])
  }

  /** Where a call is that waits for the end of refresh `round`. */
  predicate WaitsIn(b: Block, d: Decision)
    requires d.Waits?
  {
    b.Batch? && if d.adapts then exists op :: op in b.adapts && op.call == d.call else d.call in b.retries
  }

  predicate InBatch(s: System, ends: seq<End>, d: Decision)
    requires d.Waits?
  {
    var q := Batches(s.queue);
    if d.round == |ends| then WaitsIn(Batch(s.locked.adaptOperations, s.locked.requestsToRetry, None), d)
    else if |ends| - |q| <= d.round < |ends| then WaitsIn(q[d.round - (|ends| - |q|)], d)
    else d.round == |ends| - |q| - 1 && WaitsIn(s.running, d)
  }

  /** The answer that a decision leads to, once the refresh is over. After a successful one, deferred adaptations are
      not answered but begin again. */
  function AnswerOf(d: Decision, ends: seq<End>): Option<Answer> {
    match d
    case Now(_, answer) => Some(answer)
    case Waits(_, adapts, round) =>
      if round >= |ends| then None
      else if adapts then (if ends[round].Succeeded? then None else Some(NotAdapted(ends[round].error)))
      else Some(if ends[round].Succeeded? then Retry else DoNotRetryWithError(ends[round].error))
  }

  // ----- Where those are whose fate is decided -----

  predicate Logs(s: System, id: nat, answer: Answer) {
    Answered(id, answer) in s.past.log
  }

  /** An answer that was decided is given, or about to be. A call that waits is in the batch of its refresh, or was
      served from it. */
  predicate Carried(s: System, ends: seq<End>, d: Decision) {
    match d
    case Now(id, answer) => At(s, id) == Answering(answer) || Logs(s, id, answer)
    case Waits(id, _, round) =>
      round <= |ends| &&
      (InBatch(s, ends, d) ||
       (round < Taken(s, ends) && (AnswerOf(d, ends).Some? ==> Logs(s, id, AnswerOf(d, ends).value))))
  }

  ghost predicate AllCarried(s: System, track: Track) {
    forall d :: d in track.decisions ==> Carried(s, track.ends, d)
  }

  // ----- And whose fate it is -----

  predicate Decided(track: Track, id: nat, answer: Answer) {
    exists d :: d in track.decisions && d.call == id && AnswerOf(d, track.ends) == Some(answer)
  }

  /** Each call that waits in a batch waits for its refresh. */
  predicate BatchDecided(b: Block, track: Track, round: int) {
    b.Batch? && round >= 0 &&
    (forall op :: op in b.adapts ==> Waits(op.call, true, round) in track.decisions) &&
    (forall id :: id in b.retries ==> Waits(id, false, round) in track.decisions)
  }

  ghost predicate AllDecided(s: System, track: Track) {
    var q := Batches(s.queue);
    |q| <= |track.ends| &&
    (forall a :: a in s.past.log ==> Decided(track, a.call, a.answer)) &&
    (forall i :: 0 <= i < |s.callers| && s.callers[i].Answering? ==> Decided(track, i, s.callers[i].answer)) &&
    BatchDecided(Batch(s.locked.adaptOperations, s.locked.requestsToRetry, None), track, |track.ends|) &&
    (forall j :: 0 <= j < |q| ==> BatchDecided(q[j], track, Taken(s, track.ends) + j)) &&
    (|q| < |track.ends| ==> BatchDecided(s.running, track, Taken(s, track.ends) - 1))
  }

  // ----- Queues -----

  lemma BatchesFront(b: Block, rest: seq<Block>)
    ensures Batches([b] + rest) == (if b.Batch? then [b] else []) + Batches(rest)
  {
    assert ([b] + rest)[1..] == rest;
  }

  lemma {:induction false} BatchesAppend(q: seq<Block>, b: Block)
    ensures Batches(q + [b]) == Batches(q) + if b.Batch? then [b] else []
    decreases |q|
  {
    if q == [] {
      BatchesFront(b, []);
      assert q + [b] == [b] + [];
    } else {
      BatchesAppend(q[1..], b);
      BatchesFront(q[0], q[1..] + [b]);
      assert q + [b] == [q[0]] + (q[1..] + [b]);
    }
  }

  lemma {:induction false} AttemptsAreCounted(ts: seq<real>, n: nat, from: real)
    requires n <= |ts|
    ensures AttemptsSince(ts, n, from) == |set i: nat | i < n && from <= ts[i]|
    decreases n
  {
    var counted := set i: nat | i < n && from <= ts[i];
    if n == 0 {
      assert counted == {};
    } else {
      AttemptsAreCounted(ts, n - 1, from);
      var before := set i: nat | i < n - 1 && from <= ts[i];
      assert counted == before + if from <= ts[n - 1] then {n - 1} else {};
      assert n - 1 !in before;
    }
  }

  lemma ExcessiveIsTooMany(m: MutableState, checked: real)
    ensures Excessive(m, checked) <==> TooMany(m, checked)
  {
    if m.refreshWindow.Some? {
      var from := checked - m.refreshWindow.value.interval;
      AttemptsAreCounted(m.refreshTimestamps, |m.refreshTimestamps|, from);
      var ts := m.refreshTimestamps;
      assert (set i: nat | i < |ts| && checked - m.refreshWindow.value.interval <= ts[i]) ==
             set i: nat | i < |ts| && from <= ts[i];
    }
  }

  // ----- The kinds of steps -----

  /** A refresh ends: those who wait leave as one batch. */
  predicate Ends(s: System, t: System, adapts: seq<AdaptOperation>, retries: seq<nat>, end: End) {
    t.queue == s.queue + [Batch(adapts, retries, ErrorOf(end))] && t.running == s.running &&
    t.locked.adaptOperations == [] && t.locked.requestsToRetry == []
  }

  /** Nothing happens to the batches, but someone may begin to wait. */
  predicate GoesOn(s: System, t: System, adapts: seq<AdaptOperation>, retries: seq<nat>) {
    Batches(t.queue) == Batches(s.queue) && t.running == s.running &&
    t.locked.adaptOperations == adapts && t.locked.requestsToRetry == retries
  }

  /** A section, as one of the two, with those who wait once the step has come in. */
  ghost predicate SectionIs(s: System, step: Step, t: System, adapts: seq<AdaptOperation>, retries: seq<nat>) {
    t.past.log == s.past.log &&
    match EndOf(s, step)
    case Some(end) => Ends(s, t, adapts, retries, end)
    case None => GoesOn(s, t, adapts, retries)
  }

  lemma RefreshIs(s: System, m: MutableState, credential: Credential, checked: real, started: real, t: System)
    requires var o := Refresh(m, credential, checked, started);
             t.locked == o.state && t.queue == s.queue + o.dispatched && t.running == s.running
    ensures if Excessive(m, checked) then Ends(s, t, m.adaptOperations, m.requestsToRetry, Failed(ExcessiveRefresh))
            else GoesOn(s, t, m.adaptOperations, m.requestsToRetry)
  {
    BatchesAppend(s.queue, StartRefresh(credential));
    assert Batches(s.queue) + [] == Batches(s.queue);
  }

  lemma AdaptSectionIs(s: System, id: nat, requiresRefresh: bool, checked: real, started: real, t: System)
    requires Next(s, EnterAdapt(id, requiresRefresh, checked, started)) == Some(t)
    ensures var step := EnterAdapt(id, requiresRefresh, checked, started);
            var d := DecisionOf(s, step, 0);
            var op := AdaptOperation(id, s.callers[id].request);
            d.Some? &&
            SectionIs(s, step, t, s.locked.adaptOperations + if d.value.Waits? then [op] else [],
                      s.locked.requestsToRetry) &&
            t.callers == s.callers[id := if d.value.Now? then Answering(d.value.answer) else Gone]
  {
    var op := AdaptOperation(id, s.callers[id].request);
    assert s.queue + [] == s.queue;
    assert s.locked.adaptOperations + [] == s.locked.adaptOperations;
    if !s.locked.isRefreshing && s.locked.credential.Some? && requiresRefresh {
      ExcessiveIsTooMany(s.locked, checked);
      RefreshIs(s, Defer(s.locked, op), s.locked.credential.value, checked, started, t);
    }
  }

  lemma RetrySectionIs(s: System, id: nat, same: bool, checked: real, started: real, t: System)
    requires Next(s, EnterRetry(id, same, checked, started)) == Some(t)
    ensures var step := EnterRetry(id, same, checked, started);
            SectionIs(s, step, t, s.locked.adaptOperations, s.locked.requestsToRetry + if same then [id] else []) &&
            t.callers == s.callers[id := if same then Gone else Answering(Retry)]
  {
    if same {
      assert s.queue + [] == s.queue;
      ExcessiveIsTooMany(s.locked, checked);
      if !s.locked.isRefreshing {
        var waiting := s.locked.(requestsToRetry := s.locked.requestsToRetry + [id]);
        RefreshIs(s, waiting, s.callers[id].credential, checked, started, t);
      }
    } else {
      assert s.locked.requestsToRetry + [] == s.locked.requestsToRetry;
    }
  }

  // ----- Decisions are carried out -----

  /** Whoever waits in `b` waits in `c`. */
  predicate Includes(c: Block, b: Block) {
    b.Batch? && c.Batch? && (forall op :: op in b.adapts ==> op in c.adapts) &&
    forall id :: id in b.retries ==> id in c.retries
  }

  lemma StillWaits(b: Block, c: Block, d: Decision)
    requires d.Waits? && Includes(c, b) && WaitsIn(b, d)
    ensures WaitsIn(c, d)
  {
  }

  function Waiting(s: System): Block {
    Batch(s.locked.adaptOperations, s.locked.requestsToRetry, None)
  }

  lemma GoesOnCarries(s: System, t: System, ends: seq<End>, d: Decision)
    requires d.Waits? && Carried(s, ends, d)
    requires GoesOn(s, t, t.locked.adaptOperations, t.locked.requestsToRetry) && Includes(Waiting(t), Waiting(s))
    requires forall a :: a in s.past.log ==> a in t.past.log
    ensures Carried(t, ends, d)
  {
    if d.round == |ends| && InBatch(s, ends, d) {
      StillWaits(Waiting(s), Waiting(t), d);
    }
  }

  lemma EndsCarries(
    s: System, t: System, ends: seq<End>, end: End, adapts: seq<AdaptOperation>, retries: seq<nat>, d: Decision)
    requires d.Waits? && Carried(s, ends, d) && |Batches(s.queue)| <= |ends|
    requires Ends(s, t, adapts, retries, end) && Includes(Batch(adapts, retries, None), Waiting(s))
    requires forall a :: a in s.past.log ==> a in t.past.log
    ensures Carried(t, ends + [end], d)
  {
    var b := Batch(adapts, retries, ErrorOf(end));
    BatchesAppend(s.queue, b);
    if d.round == |ends| {
      if InBatch(s, ends, d) {
        StillWaits(Waiting(s), b, d);
      }
    }
  }

  /** Who begins to wait is in the batch that the next end will make, or has made. */
  lemma NewlyCarried(s: System, step: Step, t: System, ends: seq<End>, adapts: seq<AdaptOperation>,
                     retries: seq<nat>, d: Decision)
    requires SectionIs(s, step, t, adapts, retries) && |Batches(s.queue)| <= |ends|
    requires d.Waits? && d.round == |ends| && WaitsIn(Batch(adapts, retries, None), d)
    ensures var end := EndOf(s, step);
            Carried(t, ends + if end.Some? then [end.value] else [], d)
  {
    var end := EndOf(s, step);
    if end.Some? {
      var b := Batch(adapts, retries, ErrorOf(end.value));
      BatchesAppend(s.queue, b);
      StillWaits(Batch(adapts, retries, None), b, d);
    } else {
      assert ends + [] == ends;
    }
  }

  lemma SectionCarries(s: System, step: Step, t: System, ends: seq<End>, adapts: seq<AdaptOperation>,
                       retries: seq<nat>, d: Decision)
    requires SectionIs(s, step, t, adapts, retries) && |Batches(s.queue)| <= |ends|
    requires d.Waits? && Carried(s, ends, d) && Includes(Batch(adapts, retries, None), Waiting(s))
    ensures var end := EndOf(s, step);
            Carried(t, ends + if end.Some? then [end.value] else [], d)
  {
    var end := EndOf(s, step);
    if end.Some? {
      EndsCarries(s, t, ends, end.value, adapts, retries, d);
    } else {
      assert ends + [] == ends;
      GoesOnCarries(s, t, ends, d);
    }
  }

  lemma AdaptCarries(s: System, id: nat, requiresRefresh: bool, checked: real, started: real, t: System, track: Track)
    requires Next(s, EnterAdapt(id, requiresRefresh, checked, started)) == Some(t)
    requires AllCarried(s, track) && BatchesOk(s, track.ends)
    ensures AllCarried(t, Record(track, s, EnterAdapt(id, requiresRefresh, checked, started)))
  {
    var step := EnterAdapt(id, requiresRefresh, checked, started);
    AdaptSectionIs(s, id, requiresRefresh, checked, started, t);
    var new1 := DecisionOf(s, step, |track.ends|).value;
    var op := AdaptOperation(id, s.callers[id].request);
    var adapts := s.locked.adaptOperations + if new1.Waits? then [op] else [];
    var after := Record(track, s, step);
    forall d | d in after.decisions
      ensures Carried(t, after.ends, d)
    {
      if d == new1 && d.Waits? {
        assert op in adapts;
        NewlyCarried(s, step, t, track.ends, adapts, s.locked.requestsToRetry, d);
      } else if d.Waits? {
        SectionCarries(s, step, t, track.ends, adapts, s.locked.requestsToRetry, d);
      }
    }
  }

  lemma RetryCarries(s: System, id: nat, same: bool, checked: real, started: real, t: System, track: Track)
    requires Next(s, EnterRetry(id, same, checked, started)) == Some(t)
    requires AllCarried(s, track) && BatchesOk(s, track.ends)
    ensures AllCarried(t, Record(track, s, EnterRetry(id, same, checked, started)))
  {
    var step := EnterRetry(id, same, checked, started);
    RetrySectionIs(s, id, same, checked, started, t);
    var new1 := DecisionOf(s, step, |track.ends|).value;
    var retries := s.locked.requestsToRetry + if same then [id] else [];
    var after := Record(track, s, step);
    forall d | d in after.decisions
      ensures Carried(t, after.ends, d)
    {
      if d == new1 && d.Waits? {
        assert id in retries;
        NewlyCarried(s, step, t, track.ends, s.locked.adaptOperations, retries, d);
      } else if d.Waits? {
        SectionCarries(s, step, t, track.ends, s.locked.adaptOperations, retries, d);
      }
    }
  }

  /** An answer from the authenticator. */
  lemma RoundCarries(s: System, step: Step, t: System, track: Track)
    requires Next(s, step) == Some(t) && (step.RefreshSucceeded? || step.RefreshFailed?)
    requires AllCarried(s, track) && BatchesOk(s, track.ends)
    ensures AllCarried(t, Record(track, s, step))
  {
    var after := Record(track, s, step);
    forall d | d in after.decisions
      ensures Carried(t, after.ends, d)
    {
      if d.Waits? {
        EndsCarries(s, t, track.ends, EndOf(s, step).value, s.locked.adaptOperations, s.locked.requestsToRetry, d);
      }
    }
  }

  /** Steps that leave the batches and those who wait alone. */
  lemma OtherCarries(s: System, step: Step, t: System, track: Track)
    requires Next(s, step) == Some(t) && AllCarried(s, track)
    requires step.NewCall? || step.ReadCredential? || step.Complete? || step.SetCredential? || step.Tick?
    ensures AllCarried(t, Record(track, s, step))
  {
    var after := Record(track, s, step);
    assert after.ends == track.ends;
    forall d | d in after.decisions
      ensures Carried(t, after.ends, d)
    {
      if d.Waits? {
        GoesOnCarries(s, t, track.ends, d);
      } else if d in track.decisions {
        assert Carried(s, track.ends, d);
      }
    }
  }

  /** The queue's thread takes up a batch, or a refresh to start. */
  predicate TakesUp(s: System, t: System) {
    t.locked == s.locked && t.past == s.past && t.callers == s.callers &&
    RetriesOf(s.running) == [] && AdaptsOf(s.running) == [] &&
    if s.queue != [] && s.queue[0].Batch? then Batches(s.queue) == [t.running] + Batches(t.queue) && t.running.Batch?
    else Batches(s.queue) == Batches(t.queue) && t.running == s.running
  }

  lemma BlockTakesUp(s: System, t: System)
    requires Next(s, NextBlock) == Some(t)
    ensures TakesUp(s, t)
  {
    assert s.queue == [s.queue[0]] + s.queue[1..];
    BatchesFront(s.queue[0], s.queue[1..]);
    var rest := Batches(s.queue[1..]);
    assert [] + rest == rest;
  }

  lemma BlockBatches(s: System, t: System, ends: seq<End>)
    requires TakesUp(s, t) && BatchesOk(s, ends)
    ensures BatchesOk(t, ends)
  {
    var q, p := Batches(s.queue), Batches(t.queue);
    if s.queue != [] && s.queue[0].Batch? {
      assert q[0] == t.running && |ends| - |q| + 0 == |ends| - |p| - 1;
      forall j | 0 <= j < |p|
        ensures p[j].Batch? && p[j].error == ErrorOf(ends[|ends| - |p| + j])
      {
        assert p[j] == q[j + 1] && |ends| - |q| + (j + 1) == |ends| - |p| + j;
      }
    }
  }

  lemma SectionBatches(s: System, step: Step, t: System, ends: seq<End>, adapts: seq<AdaptOperation>,
                       retries: seq<nat>)
    requires SectionIs(s, step, t, adapts, retries) && BatchesOk(s, ends)
    ensures var end := EndOf(s, step);
            BatchesOk(t, ends + if end.Some? then [end.value] else [])
  {
    var end := EndOf(s, step);
    if end.Some? {
      BatchesAppend(s.queue, Batch(adapts, retries, ErrorOf(end.value)));
    } else {
      assert ends + [] == ends;
    }
  }

  /** The next batch is taken up when the last one is served. */
  lemma BlockCarries(s: System, t: System, track: Track)
    requires Next(s, NextBlock) == Some(t) && AllCarried(s, track) && BatchesOk(s, track.ends)
    ensures AllCarried(t, Record(track, s, NextBlock))
  {
    BlockTakesUp(s, t);
    var after := Record(track, s, NextBlock);
    assert after.ends == track.ends;
    forall d | d in after.decisions
      ensures Carried(t, after.ends, d)
    {
      assert Carried(s, track.ends, d);
      if d.Waits? {
        TakenUpCarries(s, t, track.ends, d);
      }
    }
  }

  lemma TakenUpCarries(s: System, t: System, ends: seq<End>, d: Decision)
    requires d.Waits? && TakesUp(s, t) && Carried(s, ends, d) && BatchesOk(s, ends)
    ensures Carried(t, ends, d)
  {
    var q, p := Batches(s.queue), Batches(t.queue);
    var k := d.round - (|ends| - |q|);
    if s.queue != [] && s.queue[0].Batch? && InBatch(s, ends, d) && d.round < |ends| {
      assert k >= 0;
      if k == 0 {
        assert q[0] == t.running && d.round == |ends| - |p| - 1;
      } else {
        assert q[k] == p[k - 1] && d.round - (|ends| - |p|) == k - 1;
      }
    }
  }

  /** One call of the running batch is served. */
  lemma ItemCarries(s: System, t: System, track: Track)
    requires Next(s, RunItem) == Some(t) && AllCarried(s, track) && BatchesOk(s, track.ends)
    requires s.running.adapts != [] ==> IsGone(s, s.running.adapts[0].call)
    ensures AllCarried(t, Record(track, s, RunItem)) && BatchesOk(t, track.ends)
  {
    var after := Record(track, s, RunItem);
    assert after.ends == track.ends;
    forall d | d in after.decisions
      ensures Carried(t, after.ends, d)
    {
      assert Carried(s, track.ends, d);
      ItemCarriesOne(s, t, track.ends, d);
    }
  }

  lemma ItemCarriesOne(s: System, t: System, ends: seq<End>, d: Decision)
    requires Next(s, RunItem) == Some(t) && Carried(s, ends, d) && BatchesOk(s, ends)
    requires s.running.adapts != [] ==> IsGone(s, s.running.adapts[0].call)
    ensures Carried(t, ends, d)
  {
    var r := s.running;
    assert forall a :: a in s.past.log ==> a in t.past.log;
    if d.Waits? && d.round == Taken(s, ends) - 1 && WaitsIn(r, d) {
      if d.adapts {
        var op :| op in r.adapts && op.call == d.call;
        assert op == r.adapts[0] || op in r.adapts[1..];
      } else if r.adapts == [] {
        assert d.call == r.retries[0] || d.call in r.retries[1..];
      }
    }
  }

  // ----- Whatever happens to a call was decided -----

  predicate Extended(track: Track, after: Track) {
    track.ends <= after.ends && forall d :: d in track.decisions ==> d in after.decisions
  }

  lemma DecidedStays(track: Track, after: Track, id: nat, answer: Answer)
    requires Extended(track, after) && Decided(track, id, answer)
    ensures Decided(after, id, answer)
  {
    var d :| d in track.decisions && d.call == id && AnswerOf(d, track.ends) == Some(answer);
    assert AnswerOf(d, after.ends) == Some(answer);
  }

  lemma RecordExtends(track: Track, s: System, step: Step)
    ensures Extended(track, Record(track, s, step))
  {
  }

  /** What was decided before stays so; the rest is about what is new in `t`. */
  lemma StaysDecided(s: System, t: System, track: Track, after: Track)
    requires AllDecided(s, track) && Extended(track, after)
    requires |Batches(t.queue)| <= |after.ends|
    requires forall a :: a in t.past.log ==> a in s.past.log || Decided(after, a.call, a.answer)
    requires forall i :: 0 <= i < |t.callers| && t.callers[i].Answering? ==>
               (i < |s.callers| && s.callers[i] == t.callers[i]) || Decided(after, i, t.callers[i].answer)
    requires BatchDecided(Waiting(t), after, |after.ends|)
    requires forall j :: 0 <= j < |Batches(t.queue)| ==>
               BatchDecided(Batches(t.queue)[j], after, Taken(t, after.ends) + j)
    requires |Batches(t.queue)| < |after.ends| ==> BatchDecided(t.running, after, Taken(t, after.ends) - 1)
    ensures AllDecided(t, after)
  {
    forall a | a in t.past.log
      ensures Decided(after, a.call, a.answer)
    {
      if a in s.past.log {
        DecidedStays(track, after, a.call, a.answer);
      }
    }
    forall i | 0 <= i < |t.callers| && t.callers[i].Answering?
      ensures Decided(after, i, t.callers[i].answer)
    {
      if i < |s.callers| && s.callers[i] == t.callers[i] {
        DecidedStays(track, after, i, t.callers[i].answer);
      }
    }
  }

  /** An answer that is decided at once. */
  lemma DecidedNow(after: Track, id: nat, answer: Answer)
    requires Now(id, answer) in after.decisions
    ensures Decided(after, id, answer)
  {
    assert AnswerOf(Now(id, answer), after.ends) == Some(answer);
  }

  /** The batches after a section. */
  lemma SectionDecides(s: System, step: Step, t: System, track: Track, after: Track, adapts: seq<AdaptOperation>,
                       retries: seq<nat>)
    requires SectionIs(s, step, t, adapts, retries) && AllDecided(s, track) && Extended(track, after)
    requires after.ends == track.ends + if EndOf(s, step).Some? then [EndOf(s, step).value] else []
    requires BatchDecided(Batch(adapts, retries, None), after, |track.ends|)
    ensures |Batches(t.queue)| <= |after.ends| && BatchDecided(Waiting(t), after, |after.ends|)
    ensures forall j :: 0 <= j < |Batches(t.queue)| ==>
              BatchDecided(Batches(t.queue)[j], after, Taken(t, after.ends) + j)
    ensures |Batches(t.queue)| < |after.ends| ==> BatchDecided(t.running, after, Taken(t, after.ends) - 1)
  {
    var q, p := Batches(s.queue), Batches(t.queue);
    var end := EndOf(s, step);
    if end.Some? {
      var b := Batch(adapts, retries, ErrorOf(end.value));
      BatchesAppend(s.queue, b);
      assert BatchDecided(b, after, |track.ends|);
    }
    assert Taken(t, after.ends) == Taken(s, track.ends);
    forall j | 0 <= j < |p|
      ensures BatchDecided(p[j], after, Taken(t, after.ends) + j)
    {
      if j < |q| {
        assert p[j] == q[j] && BatchDecided(q[j], track, Taken(s, track.ends) + j);
      }
    }
  }

  lemma AdaptDecides(s: System, id: nat, requiresRefresh: bool, checked: real, started: real, t: System, track: Track)
    requires Next(s, EnterAdapt(id, requiresRefresh, checked, started)) == Some(t)
    requires AllDecided(s, track)
    ensures AllDecided(t, Record(track, s, EnterAdapt(id, requiresRefresh, checked, started)))
  {
    var step := EnterAdapt(id, requiresRefresh, checked, started);
    AdaptSectionIs(s, id, requiresRefresh, checked, started, t);
    RecordExtends(track, s, step);
    var new1 := DecisionOf(s, step, |track.ends|).value;
    var op := AdaptOperation(id, s.callers[id].request);
    var adapts := s.locked.adaptOperations + if new1.Waits? then [op] else [];
    var after := Record(track, s, step);
    assert new1 in after.decisions;
    assert BatchDecided(Batch(adapts, s.locked.requestsToRetry, None), after, |track.ends|);
    SectionDecides(s, step, t, track, after, adapts, s.locked.requestsToRetry);
    if new1.Now? {
      DecidedNow(after, id, new1.answer);
    }
    StaysDecided(s, t, track, after);
  }

  lemma RetryDecides(s: System, id: nat, same: bool, checked: real, started: real, t: System, track: Track)
    requires Next(s, EnterRetry(id, same, checked, started)) == Some(t)
    requires AllDecided(s, track)
    ensures AllDecided(t, Record(track, s, EnterRetry(id, same, checked, started)))
  {
    var step := EnterRetry(id, same, checked, started);
    RetrySectionIs(s, id, same, checked, started, t);
    RecordExtends(track, s, step);
    var new1 := DecisionOf(s, step, |track.ends|).value;
    var retries := s.locked.requestsToRetry + if same then [id] else [];
    var after := Record(track, s, step);
    assert new1 in after.decisions;
    assert BatchDecided(Batch(s.locked.adaptOperations, retries, None), after, |track.ends|);
    SectionDecides(s, step, t, track, after, s.locked.adaptOperations, retries);
    if new1.Now? {
      DecidedNow(after, id, new1.answer);
    }
    StaysDecided(s, t, track, after);
  }

  lemma RoundDecides(s: System, step: Step, t: System, track: Track)
    requires Next(s, step) == Some(t) && (step.RefreshSucceeded? || step.RefreshFailed?)
    requires AllDecided(s, track)
    ensures AllDecided(t, Record(track, s, step))
  {
    var after := Record(track, s, step);
    RecordExtends(track, s, step);
    SectionDecides(s, step, t, track, after, s.locked.adaptOperations, s.locked.requestsToRetry);
    StaysDecided(s, t, track, after);
  }

  /** The batches stay as they are. */
  lemma SameBatchesDecided(s: System, t: System, track: Track, after: Track)
    requires AllDecided(s, track) && Extended(track, after) && after.ends == track.ends
    requires t.queue == s.queue && t.running == s.running && Waiting(t) == Waiting(s)
    ensures BatchDecided(Waiting(t), after, |after.ends|)
    ensures forall j :: 0 <= j < |Batches(t.queue)| ==>
              BatchDecided(Batches(t.queue)[j], after, Taken(t, after.ends) + j)
    ensures |Batches(t.queue)| < |after.ends| ==> BatchDecided(t.running, after, Taken(t, after.ends) - 1)
  {
    assert BatchDecided(Waiting(s), track, |track.ends|);
    forall j | 0 <= j < |Batches(t.queue)|
      ensures BatchDecided(Batches(t.queue)[j], after, Taken(t, after.ends) + j)
    {
      assert BatchDecided(Batches(s.queue)[j], track, Taken(s, track.ends) + j);
    }
  }

  lemma OtherDecides(s: System, step: Step, t: System, track: Track)
    requires Next(s, step) == Some(t) && AllDecided(s, track)
    requires step.NewCall? || step.ReadCredential? || step.Complete? || step.SetCredential? || step.Tick?
    ensures AllDecided(t, Record(track, s, step))
  {
    var after := Record(track, s, step);
    RecordExtends(track, s, step);
    assert after.ends == track.ends;
    if step.ReadCredential? && t.callers[step.id].Answering? {
      assert Now(step.id, t.callers[step.id].answer) in after.decisions;
      DecidedNow(after, step.id, t.callers[step.id].answer);
    }
    if step.Complete? {
      DecidedStays(track, after, step.id, s.callers[step.id].answer);
    }
    SameBatchesDecided(s, t, track, after);
    StaysDecided(s, t, track, after);
  }

  lemma BlockDecides(s: System, t: System, track: Track)
    requires Next(s, NextBlock) == Some(t) && AllDecided(s, track)
    ensures AllDecided(t, Record(track, s, NextBlock))
  {
    var after := Record(track, s, NextBlock);
    RecordExtends(track, s, NextBlock);
    assert after.ends == track.ends;
    BlockTakesUp(s, t);
    TakenUpDecided(s, t, track, after);
    StaysDecided(s, t, track, after);
  }

  lemma TakenUpDecided(s: System, t: System, track: Track, after: Track)
    requires TakesUp(s, t) && AllDecided(s, track) && Extended(track, after) && after.ends == track.ends
    ensures |Batches(t.queue)| <= |after.ends|
    ensures forall j :: 0 <= j < |Batches(t.queue)| ==>
              BatchDecided(Batches(t.queue)[j], after, Taken(t, after.ends) + j)
    ensures |Batches(t.queue)| < |after.ends| ==> BatchDecided(t.running, after, Taken(t, after.ends) - 1)
  {
    var q, p := Batches(s.queue), Batches(t.queue);
    var skipped := |q| - |p|;
    if skipped == 1 {
      assert q[0] == t.running && BatchDecided(q[0], track, Taken(s, track.ends) + 0);
    }
    forall j | 0 <= j < |p|
      ensures BatchDecided(p[j], after, Taken(t, after.ends) + j)
    {
      assert p[j] == q[j + skipped] && BatchDecided(q[j + skipped], track, Taken(s, track.ends) + (j + skipped));
    }
  }

  lemma ItemDecides(s: System, t: System, track: Track)
    requires Next(s, RunItem) == Some(t) && AllDecided(s, track) && BatchesOk(s, track.ends)
    ensures AllDecided(t, Record(track, s, RunItem))
  {
    var after := Record(track, s, RunItem);
    RecordExtends(track, s, RunItem);
    assert after.ends == track.ends;
    ItemIsDecided(s, t, track);
    FewerDecided(s, t, track, after);
    StaysDecided(s, t, track, after);
  }

  lemma FewerDecided(s: System, t: System, track: Track, after: Track)
    requires AllDecided(s, track) && Extended(track, after) && after.ends == track.ends
    requires |Batches(s.queue)| < |track.ends| && t.queue == s.queue && Waiting(t) == Waiting(s)
    requires Includes(s.running, t.running)
    ensures BatchDecided(Waiting(t), after, |after.ends|)
    ensures forall j :: 0 <= j < |Batches(t.queue)| ==>
              BatchDecided(Batches(t.queue)[j], after, Taken(t, after.ends) + j)
    ensures BatchDecided(t.running, after, Taken(t, after.ends) - 1)
  {
    SameBatchesDecided(s, t.(running := s.running), track, after);
  }

  /** What is logged for it was decided when it began to wait. */
  lemma ItemIsDecided(s: System, t: System, track: Track)
    requires Next(s, RunItem) == Some(t) && AllDecided(s, track) && BatchesOk(s, track.ends)
    ensures |Batches(s.queue)| < |track.ends|
    ensures forall a :: a in t.past.log ==> a in s.past.log || Decided(track, a.call, a.answer)
  {
    var round := Taken(s, track.ends) - 1;
    var r := s.running;
    assert BatchDecided(r, track, round);
    var d := if r.adapts != [] then Waits(r.adapts[0].call, true, round) else Waits(r.retries[0], false, round);
    assert d in track.decisions;
    if AnswerOf(d, track.ends).Some? {
      assert Decided(track, d.call, AnswerOf(d, track.ends).value);
    }
  }

  // ----- All runs -----

  ghost predicate Tracked(s: System, track: Track) {
    BatchesOk(s, track.ends) && AllCarried(s, track) && AllDecided(s, track)
  }

  lemma AdaptBatches(s: System, id: nat, requiresRefresh: bool, checked: real, started: real, t: System, track: Track)
    requires Next(s, EnterAdapt(id, requiresRefresh, checked, started)) == Some(t) && BatchesOk(s, track.ends)
    ensures BatchesOk(t, Record(track, s, EnterAdapt(id, requiresRefresh, checked, started)).ends)
  {
    var step := EnterAdapt(id, requiresRefresh, checked, started);
    AdaptSectionIs(s, id, requiresRefresh, checked, started, t);
    var op := AdaptOperation(id, s.callers[id].request);
    var waits := DecisionOf(s, step, 0).value.Waits?;
    SectionBatches(s, step, t, track.ends, s.locked.adaptOperations + if waits then [op] else [],
                   s.locked.requestsToRetry);
  }

  lemma RetryBatches(s: System, id: nat, same: bool, checked: real, started: real, t: System, track: Track)
    requires Next(s, EnterRetry(id, same, checked, started)) == Some(t) && BatchesOk(s, track.ends)
    ensures BatchesOk(t, Record(track, s, EnterRetry(id, same, checked, started)).ends)
  {
    RetrySectionIs(s, id, same, checked, started, t);
    SectionBatches(s, EnterRetry(id, same, checked, started), t, track.ends, s.locked.adaptOperations,
                   s.locked.requestsToRetry + if same then [id] else []);
  }

  lemma RoundBatches(s: System, step: Step, t: System, track: Track)
    requires Next(s, step) == Some(t) && (step.RefreshSucceeded? || step.RefreshFailed?) && BatchesOk(s, track.ends)
    ensures BatchesOk(t, Record(track, s, step).ends)
  {
    SectionBatches(s, step, t, track.ends, s.locked.adaptOperations, s.locked.requestsToRetry);
  }

  lemma BatchesKept(s: System, step: Step, t: System, track: Track)
    requires Next(s, step) == Some(t) && BatchesOk(s, track.ends)
    ensures BatchesOk(t, Record(track, s, step).ends)
  {
    match step {
      case EnterAdapt(id, required, checked, started) => AdaptBatches(s, id, required, checked, started, t, track);
      case EnterRetry(id, same, checked, started) => RetryBatches(s, id, same, checked, started, t, track);
      case RefreshSucceeded(_) => RoundBatches(s, step, t, track);
      case RefreshFailed(_) => RoundBatches(s, step, t, track);
      case NextBlock => TakenUpBatches(s, t, track);
      case RunItem => ServedBatches(s, t, track);
      case _ => QuietBatches(s, step, t, track);
    }
  }

  lemma TakenUpBatches(s: System, t: System, track: Track)
    requires Next(s, NextBlock) == Some(t) && BatchesOk(s, track.ends)
    ensures BatchesOk(t, Record(track, s, NextBlock).ends)
  {
    assert Record(track, s, NextBlock).ends == track.ends;
    BlockTakesUp(s, t);
    BlockBatches(s, t, track.ends);
  }

  lemma ServedBatches(s: System, t: System, track: Track)
    requires Next(s, RunItem) == Some(t) && BatchesOk(s, track.ends)
    ensures BatchesOk(t, Record(track, s, RunItem).ends)
  {
    assert Record(track, s, RunItem).ends == track.ends;
    assert t.queue == s.queue && t.running.Batch? && t.running.error == s.running.error;
  }

  lemma QuietBatches(s: System, step: Step, t: System, track: Track)
    requires Next(s, step) == Some(t) && BatchesOk(s, track.ends)
    requires step.NewCall? || step.ReadCredential? || step.Complete? || step.SetCredential? || step.Tick?
    ensures BatchesOk(t, Record(track, s, step).ends)
  {
    assert Record(track, s, step).ends == track.ends;
    assert t.queue == s.queue && t.running == s.running;
  }

  lemma TrackKept(s: System, step: Step, t: System, track: Track)
    requires Safe(s) && Next(s, step) == Some(t) && Tracked(s, track)
    ensures Tracked(t, Record(track, s, step))
  {
    BatchesKept(s, step, t, track);
    match step {
      case EnterAdapt(id, requiresRefresh, checked, started) =>
        AdaptCarries(s, id, requiresRefresh, checked, started, t, track);
        AdaptDecides(s, id, requiresRefresh, checked, started, t, track);
      case EnterRetry(id, same, checked, started) =>
        RetryCarries(s, id, same, checked, started, t, track);
        RetryDecides(s, id, same, checked, started, t, track);
      case RefreshSucceeded(_) =>
        RoundCarries(s, step, t, track);
        RoundDecides(s, step, t, track);
      case RefreshFailed(_) =>
        RoundCarries(s, step, t, track);
        RoundDecides(s, step, t, track);
      case NextBlock =>
        BlockCarries(s, t, track);
        BlockDecides(s, t, track);
      case RunItem =>
        if s.running.adapts != [] {
          FrontIsGone(s);
        }
        ItemCarries(s, t, track);
        ItemDecides(s, t, track);
      case _ =>
        OtherCarries(s, step, t, track);
        OtherDecides(s, step, t, track);
    }
  }

  lemma {:induction false} RunTracks(s: System, steps: seq<Step>)
    requires Safe(s) && Tracked(s, Track([], [])) && Run(s, steps).Some?
    ensures Safe(Run(s, steps).value) && Tracked(Run(s, steps).value, TrackOf(s, steps))
    decreases |steps|
  {
    if steps != [] {
      var before, last := steps[..|steps| - 1], steps[|steps| - 1];
      RunTracks(s, before);
      SafeKept(Run(s, before).value, last);
      TrackKept(Run(s, before).value, last, Run(s, steps).value, TrackOf(s, before));
    }
  }

  lemma StartIsTracked(credential: Option<Credential>, window: Option<RefreshWindow>, now: real)
    ensures Tracked(Start(credential, window, now), Track([], []))
  {
  }

  lemma {:induction false} LogsOnce(log: seq<Answered>, i: nat, j: nat)
    requires i < j < |log| && log[i].call == log[j].call
    ensures multiset(LogCalls(log))[log[i].call] >= 2
  {
    var calls := LogCalls(log);
    assert calls == calls[..j] + calls[j..];
    assert calls[..j][i] == log[i].call && calls[j..][0] == log[i].call;
  }

  /** A call that is in the log is neither on its thread nor in a batch, and has one answer. */
  lemma AnsweredIsDone(s: System, id: nat, a: Answer, b: Answer)
    requires Safe(s) && Logs(s, id, a)
    ensures IsGone(s, id) && id !in multiset(CallsOf(AdaptsInside(s))) && id !in multiset(RetriesInside(s))
    ensures Logs(s, id, b) ==> a == b
  {
    var log := s.past.log;
    var i :| 0 <= i < |log| && log[i] == Answered(id, a);
    assert LogCalls(log)[i] == id && id in multiset(LogCalls(log));
    assert BalancedAt(s, id);
    CameAndWent(s, id);
    if Logs(s, id, b) {
      var j :| 0 <= j < |log| && log[j] == Answered(id, b);
      if i < j {
        LogsOnce(log, i, j);
      } else if j < i {
        LogsOnce(log, j, i);
      }
    }
  }

  lemma {:induction false} QueueHolds(q: seq<Block>, j: nat)
    requires j < |Batches(q)|
    ensures Batches(q)[j].Batch?
    ensures forall op :: op in Batches(q)[j].adapts ==> op in QueueAdapts(q)
    ensures forall id :: id in Batches(q)[j].retries ==> id in QueueRetries(q)
    decreases |q|
  {
    if q[0].Batch? {
      if j > 0 {
        QueueHolds(q[1..], j - 1);
      }
    } else {
      QueueHolds(q[1..], j);
    }
  }

  /** Who is in a batch is inside. */
  lemma InBatchIsInside(s: System, ends: seq<End>, d: Decision)
    requires d.Waits? && BatchesOk(s, ends) && InBatch(s, ends, d)
    ensures d.call in multiset(CallsOf(AdaptsInside(s))) || d.call in multiset(RetriesInside(s))
  {
    var q := Batches(s.queue);
    if |ends| - |q| <= d.round < |ends| {
      QueueHolds(s.queue, d.round - (|ends| - |q|));
    }
    if d.adapts {
      var op :| op in AdaptsInside(s) && op.call == d.call;
      var i :| 0 <= i < |AdaptsInside(s)| && AdaptsInside(s)[i] == op;
      assert CallsOf(AdaptsInside(s))[i] == d.call;
    } else {
      assert d.call in RetriesInside(s);
    }
  }

  /** So the answer in the log is the one that was decided. */
  lemma AnswerIsTheOne(s: System, track: Track, d: Decision, answer: Answer)
    requires Safe(s) && Tracked(s, track) && d in track.decisions && Logs(s, d.call, answer)
    ensures AnswerOf(d, track.ends).Some? ==> answer == AnswerOf(d, track.ends).value
    ensures d.Waits? ==> d.round < |track.ends|
  {
    assert Carried(s, track.ends, d);
    AnsweredIsDone(s, d.call, answer, answer);
    if d.Waits? && InBatch(s, track.ends, d) {
      InBatchIsInside(s, track.ends, d);
      assert false;
    }
    if AnswerOf(d, track.ends).Some? {
      AnsweredIsDone(s, d.call, answer, AnswerOf(d, track.ends).value);
    }
  }

  // ----- From the steps of a run to its log -----

  /** The state before step `k`. */
  function Before(s: System, steps: seq<Step>, k: nat): System
    requires k <= |steps|
  {
    var r := Run(s, steps[..k]); if r.Some? then r.value else s
  }

  /** The refreshes that ended before step `k`. */
  ghost function EndsBefore(s: System, steps: seq<Step>, k: nat): seq<End>
    requires k <= |steps|
  {
    if Run(s, steps[..k]).Some? then TrackOf(s, steps[..k]).ends else []
  }

  ghost function EndsOf(s: System, steps: seq<Step>): seq<End> {
    EndsBefore(s, steps, |steps|)
  }

  /** What step `k` decides. */
  ghost function DecidedAt(s: System, steps: seq<Step>, k: nat): Option<Decision>
    requires k < |steps|
  {
    DecisionOf(Before(s, steps, k), steps[k], |EndsBefore(s, steps, k)|)
  }

  lemma ShorterRun(steps: seq<Step>, k: nat)
    requires k < |steps|
    ensures steps[..|steps| - 1][..k] == steps[..k]
    ensures k < |steps| - 1 ==> steps[..|steps| - 1][k] == steps[k]
  {
  }

  /** Each decision of a step is in the track of the run. */
  lemma {:induction false} DecisionIsTracked(s: System, steps: seq<Step>, k: nat)
    requires Run(s, steps).Some? && k < |steps|
    ensures Run(s, steps[..k]).Some?
    ensures DecidedAt(s, steps, k).Some? ==> DecidedAt(s, steps, k).value in TrackOf(s, steps).decisions
    decreases |steps|
  {
    var before := steps[..|steps| - 1];
    if k < |before| {
      ShorterRun(steps, k);
      DecisionIsTracked(s, before, k);
    } else {
      assert steps[..k] == before;
    }
  }

  /** And each one there comes from a step. */
  lemma {:induction false} TrackedIsDecision(s: System, steps: seq<Step>, d: Decision) returns (k: nat)
    requires Run(s, steps).Some? && d in TrackOf(s, steps).decisions
    ensures k < |steps| && DecidedAt(s, steps, k) == Some(d)
    decreases |steps|
  {
    var before := steps[..|steps| - 1];
    if d in TrackOf(s, before).decisions {
      k := TrackedIsDecision(s, before, d);
      ShorterRun(steps, k);
    } else {
      k := |steps| - 1;
      assert steps[..k] == before;
    }
  }

  /** In every run, a call that was answered got the answer that its last section decided, or the refresh that it waited
      for, and there is such a section for every answer. */
  lemma EveryAnswer(credential: Option<Credential>, window: Option<RefreshWindow>, now: real, steps: seq<Step>,
                    id: nat, answer: Answer)
    requires Run(Start(credential, window, now), steps).Some?
    requires Answered(id, answer) in Run(Start(credential, window, now), steps).value.past.log
    ensures var s := Start(credential, window, now);
            (exists k :: 0 <= k < |steps| && DecidedAt(s, steps, k).Some? && DecidedAt(s, steps, k).value.call == id &&
               AnswerOf(DecidedAt(s, steps, k).value, EndsOf(s, steps)) == Some(answer)) &&
            (forall k :: 0 <= k < |steps| && DecidedAt(s, steps, k).Some? && DecidedAt(s, steps, k).value.call == id ==>
               var due := AnswerOf(DecidedAt(s, steps, k).value, EndsOf(s, steps)); due.Some? ==> due.value == answer)
  {
    var s := Start(credential, window, now);
    var end, track := Run(s, steps).value, TrackOf(s, steps);
    WholeRun(credential, window, now, steps);
    var d :| d in track.decisions && d.call == id && AnswerOf(d, track.ends) == Some(answer);
    var k := TrackedIsDecision(s, steps, d);
    forall k | 0 <= k < |steps| && DecidedAt(s, steps, k).Some? && DecidedAt(s, steps, k).value.call == id
      ensures var due := AnswerOf(DecidedAt(s, steps, k).value, track.ends); due.Some? ==> due.value == answer
    {
      DecisionIsTracked(s, steps, k);
      AnswerIsTheOne(end, track, DecidedAt(s, steps, k).value, answer);
    }
  }

  lemma WholeRun(credential: Option<Credential>, window: Option<RefreshWindow>, now: real, steps: seq<Step>)
    requires Run(Start(credential, window, now), steps).Some?
    ensures var s := Start(credential, window, now);
            Safe(Run(s, steps).value) && Tracked(Run(s, steps).value, TrackOf(s, steps)) &&
            EndsOf(s, steps) == TrackOf(s, steps).ends
  {
    StartIsSafe(credential, window, now);
    StartIsTracked(credential, window, now);
    RunTracks(Start(credential, window, now), steps);
    assert steps[..|steps|] == steps;
  }

  /** A retry that waited is answered by the end of the refresh that it waited for: after a successful one its request
      is sent again, after a failed or refused one it fails with just that error. */
  lemma WaitingRetry(credential: Option<Credential>, window: Option<RefreshWindow>, now: real, steps: seq<Step>,
                     k: nat, id: nat, checked: real, started: real, answer: Answer)
    requires Run(Start(credential, window, now), steps).Some?
    requires k < |steps| && steps[k] == EnterRetry(id, true, checked, started)
    requires Answered(id, answer) in Run(Start(credential, window, now), steps).value.past.log
    ensures var s := Start(credential, window, now);
            var round, ends := |EndsBefore(s, steps, k)|, EndsOf(s, steps);
            round < |ends| &&
            answer == match ends[round]
                      case Succeeded => Retry
                      case Failed(error) => DoNotRetryWithError(error)
  {
    var s := Start(credential, window, now);
    WholeRun(credential, window, now, steps);
    DecisionIsTracked(s, steps, k);
    AnswerIsTheOne(Run(s, steps).value, TrackOf(s, steps), DecidedAt(s, steps, k).value, answer);
  }

  /** A request whose adaptation waited for a refresh that failed or was refused fails with that error. */
  lemma WaitingAdapt(credential: Option<Credential>, window: Option<RefreshWindow>, now: real, steps: seq<Step>,
                     k: nat, id: nat, requiresRefresh: bool, checked: real, started: real, answer: Answer)
    requires Run(Start(credential, window, now), steps).Some?
    requires k < |steps| && steps[k] == EnterAdapt(id, requiresRefresh, checked, started)
    requires var m := Before(Start(credential, window, now), steps, k).locked;
             m.isRefreshing || (m.credential.Some? && requiresRefresh)
    requires Answered(id, answer) in Run(Start(credential, window, now), steps).value.past.log
    ensures var s := Start(credential, window, now);
            var round, ends := |EndsBefore(s, steps, k)|, EndsOf(s, steps);
            round < |ends| && (ends[round].Failed? ==> answer == NotAdapted(ends[round].error))
  {
    var s := Start(credential, window, now);
    WholeRun(credential, window, now, steps);
    DecisionIsTracked(s, steps, k);
    StepWasPossible(s, steps, k);
    AnswerIsTheOne(Run(s, steps).value, TrackOf(s, steps), DecidedAt(s, steps, k).value, answer);
  }

  /** A request that did not wait is adapted with the credential of the moment, or fails if there is none. */
  lemma PromptAdapt(credential: Option<Credential>, window: Option<RefreshWindow>, now: real, steps: seq<Step>,
                    k: nat, id: nat, requiresRefresh: bool, checked: real, started: real, answer: Answer)
    requires Run(Start(credential, window, now), steps).Some?
    requires k < |steps| && steps[k] == EnterAdapt(id, requiresRefresh, checked, started)
    requires var m := Before(Start(credential, window, now), steps, k).locked;
             !m.isRefreshing && (m.credential.None? || !requiresRefresh)
    requires Answered(id, answer) in Run(Start(credential, window, now), steps).value.past.log
    ensures var s := Before(Start(credential, window, now), steps, k);
            id < |s.callers| && s.callers[id].Adapting? &&
            answer == match s.locked.credential
                      case None => NotAdapted(MissingCredential)
                      case Some(current) => Adapted(s.callers[id].request, current)
  {
    var s := Start(credential, window, now);
    WholeRun(credential, window, now, steps);
    DecisionIsTracked(s, steps, k);
    StepWasPossible(s, steps, k);
    AnswerIsTheOne(Run(s, steps).value, TrackOf(s, steps), DecidedAt(s, steps, k).value, answer);
  }

  lemma {:induction false} StepWasPossible(s: System, steps: seq<Step>, k: nat)
    requires Run(s, steps).Some? && k < |steps|
    ensures Run(s, steps[..k]).Some? && Next(Before(s, steps, k), steps[k]).Some?
    decreases |steps|
  {
    var before := steps[..|steps| - 1];
    if k < |before| {
      ShorterRun(steps, k);
      StepWasPossible(s, before, k);
    } else {
      assert steps[..k] == before;
    }
  }

  /** Step `k` is about a retry: its failure was not one of authentication; there was no credential; its request carried
      another credential; or it began to wait. */
  predicate NoAuthentication(step: Step, id: nat) {
    step == ReadCredential(id, false)
  }

  predicate NoCredential(s: System, step: Step, id: nat) {
    step == ReadCredential(id, true) && s.locked.credential.None?
  }

  predicate OtherCredential(step: Step, id: nat) {
    step.EnterRetry? && step.id == id && !step.sameCredential
  }

  predicate BeginsToWait(step: Step, id: nat) {
    step.EnterRetry? && step.id == id && step.sameCredential
  }

  /** A retry that never waited: it is not to be retried exactly if the failure was not one of authentication, it fails
      for want of a credential exactly if there was none, and its request is sent again exactly if that carried another
      credential. */
  lemma PromptRetry(credential: Option<Credential>, window: Option<RefreshWindow>, now: real, steps: seq<Step>,
                    id: nat, answer: Answer)
    requires Run(Start(credential, window, now), steps).Some?
    requires var end := Run(Start(credential, window, now), steps).value;
             id < |end.calls| && end.calls[id].RetryCall? && Answered(id, answer) in end.past.log
    requires forall k :: 0 <= k < |steps| ==> !BeginsToWait(steps[k], id)
    ensures answer == DoNotRetry <==> exists k :: 0 <= k < |steps| && NoAuthentication(steps[k], id)
    ensures answer == DoNotRetryWithError(MissingCredential) <==>
            exists k :: 0 <= k < |steps| && NoCredential(Before(Start(credential, window, now), steps, k), steps[k], id)
    ensures answer == Retry <==> exists k :: 0 <= k < |steps| && OtherCredential(steps[k], id)
    ensures answer in {DoNotRetry, DoNotRetryWithError(MissingCredential), Retry}
  {
    var s := Start(credential, window, now);
    forall j | 0 <= j < |steps|
      ensures NoAuthentication(steps[j], id) ==> answer == DoNotRetry
      ensures NoCredential(Before(s, steps, j), steps[j], id) ==> answer == DoNotRetryWithError(MissingCredential)
      ensures OtherCredential(steps[j], id) ==> answer == Retry
    {
      assert !BeginsToWait(steps[j], id);
      RetriesDoNotAdapt(credential, window, now, steps, j, id);
      PromptStep(credential, window, now, steps, j, id, answer);
    }
    var k := PromptCause(credential, window, now, steps, id, answer);
  }

  lemma PromptStep(credential: Option<Credential>, window: Option<RefreshWindow>, now: real, steps: seq<Step>,
                   j: nat, id: nat, answer: Answer)
    requires Run(Start(credential, window, now), steps).Some? && j < |steps|
    requires Answered(id, answer) in Run(Start(credential, window, now), steps).value.past.log
    requires (steps[j].EnterAdapt? ==> steps[j].id != id) && !BeginsToWait(steps[j], id)
    ensures NoAuthentication(steps[j], id) ==> answer == DoNotRetry
    ensures NoCredential(Before(Start(credential, window, now), steps, j), steps[j], id) ==>
              answer == DoNotRetryWithError(MissingCredential)
    ensures OtherCredential(steps[j], id) ==> answer == Retry
  {
    var s := Start(credential, window, now);
    WholeRun(credential, window, now, steps);
    DecisionIsTracked(s, steps, j);
    PromptDecision(Before(s, steps, j), steps[j], |EndsBefore(s, steps, j)|, id);
    var due := DecidedAt(s, steps, j);
    if due.Some? && due.value.call == id {
      AnswerIsTheOne(Run(s, steps).value, TrackOf(s, steps), due.value, answer);
    }
  }

  lemma PromptCause(credential: Option<Credential>, window: Option<RefreshWindow>, now: real, steps: seq<Step>,
                    id: nat, answer: Answer)
    returns (k: nat)
    requires Run(Start(credential, window, now), steps).Some?
    requires var end := Run(Start(credential, window, now), steps).value;
             id < |end.calls| && end.calls[id].RetryCall? && Answered(id, answer) in end.past.log
    requires forall k :: 0 <= k < |steps| ==> !BeginsToWait(steps[k], id)
    ensures k < |steps|
    ensures NoAuthentication(steps[k], id) || OtherCredential(steps[k], id) ||
            NoCredential(Before(Start(credential, window, now), steps, k), steps[k], id)
  {
    var s := Start(credential, window, now);
    WholeRun(credential, window, now, steps);
    var track := TrackOf(s, steps);
    var d :| d in track.decisions && d.call == id && AnswerOf(d, track.ends) == Some(answer);
    k := TrackedIsDecision(s, steps, d);
    assert !BeginsToWait(steps[k], id);
    RetriesDoNotAdapt(credential, window, now, steps, k, id);
    PromptDecision(Before(s, steps, k), steps[k], |EndsBefore(s, steps, k)|, id);
  }

  lemma PromptDecision(s: System, step: Step, round: nat, id: nat)
    requires (step.EnterAdapt? ==> step.id != id) && !BeginsToWait(step, id)
    ensures var d := DecisionOf(s, step, round);
            (NoAuthentication(step, id) ==> d == Some(Now(id, DoNotRetry))) &&
            (NoCredential(s, step, id) ==> d == Some(Now(id, DoNotRetryWithError(MissingCredential)))) &&
            (OtherCredential(step, id) ==> d == Some(Now(id, Retry))) &&
            (d.Some? && d.value.call == id ==>
              NoAuthentication(step, id) || NoCredential(s, step, id) || OtherCredential(step, id))
  {
  }

  /** A retry enters no section of `adapt`. */
  lemma RetriesDoNotAdapt(credential: Option<Credential>, window: Option<RefreshWindow>, now: real, steps: seq<Step>,
                          k: nat, id: nat)
    requires Run(Start(credential, window, now), steps).Some? && k < |steps|
    requires var end := Run(Start(credential, window, now), steps).value;
             id < |end.calls| && end.calls[id].RetryCall?
    ensures steps[k].EnterAdapt? ==> steps[k].id != id
  {
    var s := Start(credential, window, now);
    StepWasPossible(s, steps, k);
    StartIsSafe(credential, window, now);
    RunKeepsSafe(s, steps[..k]);
    var before := Before(s, steps, k);
    if steps[k].EnterAdapt? && steps[k].id == id {
      assert CallerFits(before.calls[id], before.callers[id]);
      CallsStay(s, steps, k);
      assert false;
    }
  }

  lemma {:induction false} CallsStay(s: System, steps: seq<Step>, k: nat)
    requires Run(s, steps).Some? && k <= |steps|
    ensures Run(s, steps[..k]).Some? && Run(s, steps[..k]).value.calls <= Run(s, steps).value.calls
    decreases |steps|
  {
    var before := if steps == [] then [] else steps[..|steps| - 1];
    if k < |steps| {
      assert before[..k] == steps[..k];
      CallsStay(s, before, k);
    } else {
      assert steps[..k] == steps;
    }
  }
}
