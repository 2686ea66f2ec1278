/** What single steps of the interceptor do: when a refresh begins, with which credential, and how a batch is served. */
module AuthSteps {
  import opened Bytes
  import opened AuthState
  import opened AuthRuns
  import opened AuthAnswers

  /** The credential that a section hands to the refresh: the current one, or for a retry the one it read before. */
  function CredentialFor(s: System, step: Step): Option<Credential> {
    match step
    case EnterAdapt(_, _, _, _) => s.locked.credential
    case EnterRetry(id, _, _, _) =>
      if At(s, id).HasRead? then Some(At(s, id).credential) else None
    case _ => None
  }

  function StartedAt(step: Step): real {
    match step
    case EnterAdapt(_, _, _, started) => started
    case EnterRetry(_, _, _, started) => started
    case _ => 0.0
  }

  /** A refresh begins exactly when a section asks for one while none is out and the window holds fewer than the
      maximum. It is given the credential of that section, and leaves the time at which it began. */
  lemma RefreshBegins(s: System, step: Step, t: System)
    requires Next(s, step) == Some(t) && (step.EnterAdapt? || step.EnterRetry?)
    ensures var began := AsksForRefresh(s, step) && !TooMany(s.locked, CheckedAt(step));
            if began then
              CredentialFor(s, step).Some? &&
              t.queue == s.queue + [StartRefresh(CredentialFor(s, step).value)] && t.locked.isRefreshing &&
              t.locked.refreshTimestamps == s.locked.refreshTimestamps + [StartedAt(step)]
            else
              t.locked.refreshTimestamps == s.locked.refreshTimestamps &&
              t.locked.isRefreshing == s.locked.isRefreshing &&
              forall i :: |s.queue| <= i < |t.queue| ==> !t.queue[i].StartRefresh?
    ensures t.locked.credential == s.locked.credential
  {
    ExcessiveIsTooMany(s.locked, CheckedAt(step));
  }

  /** No other step begins one. The authenticator is asked when the queue comes to it; its answer, or a refused refresh,
      lets everybody go, and a success brings the new credential. */
  lemma RefreshEnds(s: System, step: Step, t: System)
    requires Next(s, step) == Some(t)
    ensures !step.EnterAdapt? && !step.EnterRetry? ==> t.locked.refreshTimestamps == s.locked.refreshTimestamps
    ensures step.NextBlock? ==>
              t.inFlight == s.inFlight + (if s.queue[0].StartRefresh? then 1 else 0) && t.queue == s.queue[1..]
    ensures step.RefreshSucceeded? || step.RefreshFailed? ==>
              s.inFlight > 0 && t.inFlight == s.inFlight - 1 && !t.locked.isRefreshing
    ensures step.RefreshSucceeded? ==> t.locked.credential == Some(step.credential)
    ensures !step.RefreshSucceeded? && !step.SetCredential? ==> t.locked.credential == s.locked.credential
  {
  }

  /** The queue works off one thing after another: a batch is taken up when the one before is served and the adaptation
      that its thread works on is through. Of a batch, the deferred adaptations come first: each begins again, or fails
      with the error of the batch, and then the retries. */
  lemma BatchIsServed(s: System, step: Step, t: System)
    requires Next(s, step) == Some(t) && (step.NextBlock? || step.RunItem?)
    ensures s.worker.Some? && s.worker.value < |s.callers| ==> s.callers[s.worker.value].Gone?
    ensures step.NextBlock? && s.running.Batch? ==> s.running.adapts == [] && s.running.retries == []
    ensures step.RunItem? && s.running.adapts != [] ==>
              var op := s.running.adapts[0];
              t.running == Batch(s.running.adapts[1..], s.running.retries, s.running.error) &&
              op.call < |s.callers| &&
              if s.running.error.None? then
                t.callers == s.callers[op.call := Adapting(op.request)] && t.worker == Some(op.call) &&
                t.past.log == s.past.log
              else
                t.callers == s.callers &&
                t.past.log == s.past.log + [Answered(op.call, NotAdapted(s.running.error.value))]
    ensures step.RunItem? && s.running.adapts == [] ==>
              s.running.retries != [] &&
              t.running == Batch([], s.running.retries[1..], s.running.error) && t.callers == s.callers &&
              t.past.log == s.past.log + [Answered(s.running.retries[0],
                if s.running.error.None? then Retry else DoNotRetryWithError(s.running.error.value))]
  {
  }
}
