/** What crash-free runs add: every delivery is closed within five attempts, and nothing is interrupted. */
module OutboxCrashFree {
  import opened Wrappers
  import opened OutboxTables
  import opened OutboxSystem
  import opened OutboxLeases

  ghost predicate CrashFree(steps: seq<Step>) {
    forall i :: 0 <= i < |steps| ==> !steps[i].Crash?
  }

  /** Some worker has opened an attempt of this delivery and not concluded it. */
  ghost predicate Active(s: State, d: DeliveryId) {
    exists w :: ActiveBy(s, w, d)
  }

  ghost predicate ActiveBy(s: State, w: WorkerId, d: DeliveryId) {
    w in s.workers && s.workers[w].queue != [] && s.workers[w].queue[0] == d && !s.workers[w].phase.Queued?
  }

  ghost predicate Held(s: State, d: DeliveryId) {
    exists w :: Holds(s, w, d)
  }

  ghost predicate RowOk(s: State, d: DeliveryId)
    requires d in s.db.deliveries
  {
    var row := s.db.deliveries[d];
    var retries := Retries(s.db.attempts, d);
    && (row.status.Pending? ==> row.attemptCount == retries + if Active(s, d) then 1 else 0)
    && (!row.status.Pending? ==> row.attemptCount == retries + 1)
    && (row.leaseUntil.Some? ==> Held(s, d))
  }

  ghost predicate AttemptOpen(s: State, w: WorkerId)
    requires w in s.workers
  {
    var worker := s.workers[w];
    worker.phase.Queued? ||
    (worker.phase.attemptId < |s.db.attempts| && s.db.attempts[worker.phase.attemptId].outcome.Started?)
  }

  ghost predicate CrashFreeInv(s: State) {
    && LeaseInv(s)
    && (forall d :: d in s.db.deliveries ==> RowOk(s, d))
    && (forall w :: w in s.workers ==> AttemptOpen(s, w))
    && (forall i :: 0 <= i < |s.db.attempts| ==> !s.db.attempts[i].outcome.Interrupted?)
  }

  /** Without crashes a claimed row never carries a lease, so a claim leaves the attempts alone. */
  lemma ClaimsAreFresh(s: State, step: Step)
    requires CrashFreeInv(s) && TimeoutHolds(s) && Prompt(s) && Enabled(s, step) && step.Claim?
    ensures Apply(s, step).db.attempts == s.db.attempts
  {
    ClaimEffect(s.db, step.rows, step.at, step.owner);
    forall d | d in step.rows ensures s.db.deliveries[d].leaseUntil.None? {
      assert RowOk(s, d);
      if s.db.deliveries[d].leaseUntil.Some? {
        var w :| Holds(s, w, d);
        assert Leased(s, w, d) && Paced(s.workers[w], s.now);
        HeldIsNotDue(s, w, d, step.at);
      }
    }
  }

  lemma HeldFrame(s: State, step: Step, d: DeliveryId)
    requires Enabled(s, step) && !step.Crash? && Held(s, d)
    requires !(step.Conclude? && d == s.workers[step.w].queue[0])
    ensures Held(Apply(s, step), d)
  {
    var t := Apply(s, step);
    var w :| Holds(s, w, d);
    if step.Conclude? && w == step.w {
      var k :| 0 <= k < |s.workers[w].queue| && s.workers[w].queue[k] == d;
      assert t.workers[w].queue[k - 1] == d;
    }
    assert Holds(t, w, d);
  }

  lemma ActiveByFrame(s: State, step: Step, w: WorkerId, d: DeliveryId)
    requires Enabled(s, step) && !step.Crash?
    requires step.Open? || step.Conclude? ==> d != s.workers[step.w].queue[0]
    ensures ActiveBy(Apply(s, step), w, d) <==> ActiveBy(s, w, d)
  {
    if w in Apply(s, step).workers {
      QueueStep(s, step, w);
      if Elsewhere(step) { QuietPhase(s, step, w); }
    }
  }

  lemma ActiveFrame(s: State, step: Step, d: DeliveryId)
    requires Enabled(s, step) && !step.Crash?
    requires step.Open? || step.Conclude? ==> d != s.workers[step.w].queue[0]
    ensures Active(Apply(s, step), d) <==> Active(s, d)
  {
    forall w ensures ActiveBy(Apply(s, step), w, d) <==> ActiveBy(s, w, d) {
      ActiveByFrame(s, step, w, d);
    }
  }

  lemma OpenRow(s: State, step: Step, d: DeliveryId)
    requires CrashFreeInv(s) && Enabled(s, step) && step.Open? && d in s.db.deliveries
    ensures RowOk(Apply(s, step), d)
  {
    var t := Apply(s, step);
    var head := s.workers[step.w].queue[0];
    AppendAttempt(s.db.attempts, t.db.attempts[|s.db.attempts|], d);
    assert RowOk(s, d);
    if s.db.deliveries[d].leaseUntil.Some? { HeldFrame(s, step, d); }
    if d != head {
      ActiveFrame(s, step, d);
    } else {
      assert Holds(s, step.w, d) && Leased(s, step.w, d);
      if Active(s, d) {
        var w :| ActiveBy(s, w, d);
        assert Holds(s, w, d);
      }
      assert ActiveBy(t, step.w, d);
    }
  }

  /** A conclusion rewrites one attempt, and so moves the retry count of one delivery. */
  lemma {:induction false} ConcludeRetries(s: State, step: Step, d: DeliveryId)
    requires CrashFreeInv(s) && Enabled(s, step) && step.Conclude?
    ensures var head := s.workers[step.w].queue[0]; var p := s.workers[step.w].phase;
      Retries(Apply(s, step).db.attempts, d) == Retries(s.db.attempts, d) +
        if d == head && p.verdict.Refused? && ShouldRetry(p.verdict.retryable, p.no) then 1 else 0
  {
    var id := s.workers[step.w].phase.attemptId;
    assert WorkerOk(s, step.w) && AttemptOpen(s, step.w);
    var x := Apply(s, step).db.attempts[id];
    assert Apply(s, step).db.attempts == s.db.attempts[id := x];
    RetriesUpdate(s.db.attempts, id, x, d);
  }

  lemma ConcludeOtherRow(s: State, step: Step, d: DeliveryId)
    requires CrashFreeInv(s) && Enabled(s, step) && step.Conclude? && d in s.db.deliveries
    requires d != s.workers[step.w].queue[0]
    ensures RowOk(Apply(s, step), d)
  {
    assert RowOk(s, d);
    ConcludeRetries(s, step, d);
    ConcludedRow(s, step, d);
    ActiveFrame(s, step, d);
    if s.db.deliveries[d].leaseUntil.Some? { HeldFrame(s, step, d); }
  }

  lemma HeadNoLongerActive(s: State, step: Step)
    requires LeaseInv(s) && Enabled(s, step) && step.Conclude?
    ensures !Active(Apply(s, step), s.workers[step.w].queue[0])
  {
    var d := s.workers[step.w].queue[0];
    assert Holds(s, step.w, d);
    forall w ensures !ActiveBy(Apply(s, step), w, d) {
      if ActiveBy(Apply(s, step), w, d) {
        QueueStep(s, step, w);
        assert w != step.w ==> Holds(s, w, d);
      }
    }
  }

  lemma FinishRow(db: Tables, id: DeliveryId, attemptId: nat, no: nat, stage: Stage, verdict: Verdict, at: int)
    requires id in db.deliveries && attemptId < |db.attempts| && no >= 1
    ensures var row := Finish(db, id, attemptId, no, stage, verdict, at).deliveries[id];
      && row.leaseUntil.None?
      && row.attemptCount == db.deliveries[id].attemptCount
      && (row.status.Pending? <==> verdict.Refused? && ShouldRetry(verdict.retryable, no))
  {
  }

  /** What a conclusion writes into the row of its delivery. */
  lemma HeadRow(s: State, step: Step)
    requires Good(s) && Enabled(s, step) && step.Conclude?
    ensures var d := s.workers[step.w].queue[0]; var p := s.workers[step.w].phase;
      && d in Apply(s, step).db.deliveries
      && Apply(s, step).db.deliveries[d].leaseUntil.None?
      && Apply(s, step).db.deliveries[d].attemptCount == s.db.deliveries[d].attemptCount
      && (Apply(s, step).db.deliveries[d].status.Pending? <==>
            p.verdict.Refused? && ShouldRetry(p.verdict.retryable, p.no))
  {
    var p := s.workers[step.w].phase;
    FinishRow(s.db, s.workers[step.w].queue[0], p.attemptId, p.no, p.reached, p.verdict, step.at);
  }

  /** Concluding an attempt closes the row, or uses up one of its four retries. */
  lemma ConcludeHeadRow(s: State, step: Step)
    requires CrashFreeInv(s) && Enabled(s, step) && step.Conclude?
    ensures RowOk(Apply(s, step), s.workers[step.w].queue[0])
  {
    var d := s.workers[step.w].queue[0];
    assert ActiveBy(s, step.w, d) && Holds(s, step.w, d);
    assert RowOk(s, d) && Leased(s, step.w, d);
    HeadRow(s, step);
    ConcludeRetries(s, step, d);
    HeadNoLongerActive(s, step);
  }

  lemma QuietRow(s: State, step: Step, d: DeliveryId)
    requires CrashFreeInv(s) && TimeoutHolds(s) && Prompt(s) && Enabled(s, step) && !step.Crash?
    requires !step.Open? && !step.Conclude? && d in s.db.deliveries
    ensures RowOk(Apply(s, step), d)
  {
    var t := Apply(s, step);
    assert RowOk(s, d);
    ActiveFrame(s, step, d);
    if Held(s, d) { HeldFrame(s, step, d); }
    if step.Claim? {
      ClaimsAreFresh(s, step);
      ClaimEffect(s.db, step.rows, step.at, step.owner);
      if d in step.rows { assert Holds(t, step.w, d); }
    } else {
      QuietLease(s, step, d);
      QuietRetries(s, step, d);
    }
  }

  lemma {:induction false} QuietRetries(s: State, step: Step, d: DeliveryId)
    requires Good(s) && Enabled(s, step) && Elsewhere(step) && d in s.db.deliveries
    ensures Retries(Apply(s, step).db.attempts, d) == Retries(s.db.attempts, d)
    ensures Apply(s, step).db.deliveries[d].attemptCount == s.db.deliveries[d].attemptCount
  {
    if step.Advance? {
      var id := s.workers[step.w].phase.attemptId;
      RetriesUpdate(s.db.attempts, id, Apply(s, step).db.attempts[id], d);
    }
  }

  lemma {:induction false} NoRetries(attempts: seq<Attempt>, id: DeliveryId)
    requires forall i :: 0 <= i < |attempts| ==> attempts[i].deliveryId != id
    ensures Retries(attempts, id) == 0
  {
    if attempts != [] { NoRetries(attempts[..|attempts| - 1], id); }
  }

  lemma FreshRow(s: State, step: Step)
    requires CrashFreeInv(s) && Enabled(s, step) && step.Enqueue?
    ensures RowOk(Apply(s, step), step.id)
  {
    NoRetries(s.db.attempts, step.id);
    forall w ensures !ActiveBy(Apply(s, step), w, step.id) {
      if w in s.workers { assert WorkerOk(s, w); }
    }
  }

  lemma RowStep(s: State, step: Step, d: DeliveryId)
    requires CrashFreeInv(s) && TimeoutHolds(s) && Prompt(s) && Enabled(s, step) && !step.Crash?
    requires d in Apply(s, step).db.deliveries
    ensures RowOk(Apply(s, step), d)
  {
    NewRow(s, step);
    if step.Enqueue? && d == step.id { FreshRow(s, step); }
    else if step.Open? { OpenRow(s, step, d); }
    else if step.Conclude? {
      if d == s.workers[step.w].queue[0] { ConcludeHeadRow(s, step); } else { ConcludeOtherRow(s, step, d); }
    } else { QuietRow(s, step, d); }
  }

  /** No two workers have the same attempt open. */
  lemma OpenAttemptsDiffer(s: State, v: WorkerId, w: WorkerId)
    requires CrashFreeInv(s) && v in s.workers && w in s.workers && v != w
    requires !s.workers[v].phase.Queued? && !s.workers[w].phase.Queued?
    ensures s.workers[v].phase.attemptId != s.workers[w].phase.attemptId
  {
    assert WorkerOk(s, v) && WorkerOk(s, w);
    assert Holds(s, v, s.workers[v].queue[0]) && Holds(s, w, s.workers[w].queue[0]);
  }

  lemma AttemptOpenConclude(s: State, step: Step, w: WorkerId)
    requires Enabled(s, step) && step.Conclude? && w in Apply(s, step).workers && AttemptOpen(s, w)
    requires w != step.w && !s.workers[w].phase.Queued? ==> s.workers[w].phase.attemptId != s.workers[step.w].phase.attemptId
    ensures AttemptOpen(Apply(s, step), w)
  {
  }

  lemma AttemptOpenKept(s: State, step: Step, w: WorkerId)
    requires Enabled(s, step) && !step.Conclude? && w in Apply(s, step).workers
    requires step.Claim? ==> Apply(s, step).db.attempts == s.db.attempts
    requires w in s.workers ==> AttemptOpen(s, w)
    ensures AttemptOpen(Apply(s, step), w)
  {
    if Elsewhere(step) {
      QuietAttempts(s, step);
      QuietPhase(s, step, w);
    }
  }

  lemma AttemptOpenStep(s: State, step: Step, w: WorkerId)
    requires CrashFreeInv(s) && TimeoutHolds(s) && Prompt(s) && Enabled(s, step) && w in Apply(s, step).workers
    ensures AttemptOpen(Apply(s, step), w)
  {
    if step.Conclude? {
      assert AttemptOpen(s, w);
      if w != step.w && !s.workers[w].phase.Queued? { OpenAttemptsDiffer(s, w, step.w); }
      AttemptOpenConclude(s, step, w);
    } else {
      if step.Claim? { ClaimsAreFresh(s, step); }
      assert w in s.workers ==> AttemptOpen(s, w);
      AttemptOpenKept(s, step, w);
    }
  }

  lemma NoneInterrupted(s: State, step: Step, i: nat)
    requires Enabled(s, step) && i < |Apply(s, step).db.attempts|
    requires forall k :: 0 <= k < |s.db.attempts| ==> !s.db.attempts[k].outcome.Interrupted?
    requires step.Claim? ==> Apply(s, step).db.attempts == s.db.attempts
    ensures !Apply(s, step).db.attempts[i].outcome.Interrupted?
  {
    if Elsewhere(step) { QuietAttempts(s, step); }
  }

  lemma NothingInterrupted(s: State, step: Step, i: nat)
    requires CrashFreeInv(s) && TimeoutHolds(s) && Prompt(s) && Enabled(s, step)
    requires i < |Apply(s, step).db.attempts|
    ensures !Apply(s, step).db.attempts[i].outcome.Interrupted?
  {
    if step.Claim? { ClaimsAreFresh(s, step); }
    NoneInterrupted(s, step, i);
  }

  lemma CrashFreeStep(s: State, step: Step)
    requires CrashFreeInv(s) && TimeoutHolds(s) && Prompt(s) && Enabled(s, step) && !step.Crash?
    ensures CrashFreeInv(Apply(s, step))
  {
    var t := Apply(s, step);
    LeaseStep(s, step);
    forall d | d in t.db.deliveries ensures RowOk(t, d) { RowStep(s, step, d); }
    forall w | w in t.workers ensures AttemptOpen(t, w) { AttemptOpenStep(s, step, w); }
    forall i | 0 <= i < |t.db.attempts| ensures !t.db.attempts[i].outcome.Interrupted? { NothingInterrupted(s, step, i); }
  }

  lemma {:induction false} CrashFreeRun(states: seq<State>, steps: seq<Step>, i: nat)
    requires PromptRun(states, steps) && CrashFree(steps) && i < |states|
    ensures CrashFreeInv(states[i])
  {
    if i > 0 {
      CrashFreeRun(states, steps, i - 1);
      CrashFreeStep(states[i - 1], steps[i - 1]);
      assert states[i - 1 + 1] == Apply(states[i - 1], steps[i - 1]);
    }
  }

  /**
   * Without crashes a delivery gets at most five attempts, none is interrupted, and one that waits for
   * another attempt has used at most four, all of them retryable failures: the fifth always closes the row.
   */
  lemma {:induction false} ClosedWithinFiveAttempts(states: seq<State>, steps: seq<Step>, i: nat, d: DeliveryId)
    requires PromptRun(states, steps) && CrashFree(steps) && i < |states| && d in states[i].db.deliveries
    ensures states[i].db.deliveries[d].attemptCount <= 5
    ensures states[i].db.deliveries[d].status.Pending? && !Active(states[i], d) ==>
              states[i].db.deliveries[d].attemptCount == Retries(states[i].db.attempts, d) <= 4
    ensures !states[i].db.deliveries[d].status.Pending? ==>
              1 <= states[i].db.deliveries[d].attemptCount == Retries(states[i].db.attempts, d) + 1
    ensures forall k :: 0 <= k < |states[i].db.attempts| ==> !states[i].db.attempts[k].outcome.Interrupted?
  {
    CrashFreeRun(states, steps, i);
    assert RowOk(states[i], d);
    AtMostFourRetryableFailures(states[i].db, d);
  }

  /** Each conclusion closes the row or raises its retry count, which never passes four. */
  lemma ConclusionsMakeProgress(s: State, step: Step)
    requires CrashFreeInv(s) && TimeoutHolds(s) && Prompt(s) && Enabled(s, step) && step.Conclude?
    ensures var d := s.workers[step.w].queue[0]; var t := Apply(s, step);
      && d in t.db.deliveries
      && (t.db.deliveries[d].status.Pending? ==> Retries(t.db.attempts, d) == Retries(s.db.attempts, d) + 1)
      && Retries(t.db.attempts, d) <= 4
      && (s.db.deliveries[d].attemptCount >= 5 ==> !t.db.deliveries[d].status.Pending?)
  {
    var d := s.workers[step.w].queue[0];
    var p := s.workers[step.w].phase;
    assert ActiveBy(s, step.w, d) && Holds(s, step.w, d) && WorkerOk(s, step.w);
    assert RowOk(s, d) && Leased(s, step.w, d);
    GoodStep(s, step);
    HeadRow(s, step);
    ConcludeRetries(s, step, d);
    AtMostFourRetryableFailures(Apply(s, step).db, d);
  }
}
