/** How long a delivery waits: for its first claim, and between its automatic attempts. */
module OutboxWaits {
  import opened Wrappers
  import opened OutboxTables
  import opened OutboxSystem
  import opened OutboxLeases

  /** The step records a retryable failure of attempt `no`, one of the first four, at the head of its worker's queue. */
  predicate Defers(s: State, step: Step, d: DeliveryId, no: nat) {
    && Enabled(s, step) && step.Conclude? && d == s.workers[step.w].queue[0]
    && s.workers[step.w].phase.no == no && 1 <= no <= 4
    && s.workers[step.w].phase.verdict.Refused? && s.workers[step.w].phase.verdict.retryable
  }

  /** From when on a pending row without a lease can be claimed. */
  predicate WaitsUntil(row: Delivery, time: int) {
    row.status.Pending? && row.nextAttemptAt == time
  }

  /** After such a failure the row is due exactly from the end of the wait on. */
  lemma DueAfterWaitIff(s: State, step: Step, d: DeliveryId, no: nat, time: int)
    requires Defers(s, step, d, no)
    ensures d in Apply(s, step).db.deliveries
    ensures Due(Apply(s, step).db.deliveries[d], time) <==> time >= step.at + WaitAfter(no)
    ensures WaitsUntil(Apply(s, step).db.deliveries[d], step.at + WaitAfter(no))
  {
  }

  /** A new row is due from the moment it carries on. */
  lemma DueOnceEnqueuedIff(s: State, step: Step, time: int)
    requires Enabled(s, step) && step.Enqueue?
    ensures Due(Apply(s, step).db.deliveries[step.id], time) <==> time >= step.at
    ensures WaitsUntil(Apply(s, step).db.deliveries[step.id], step.at)
  {
  }

  /** Only a conclusion of the delivery itself moves its next attempt or its status. */
  lemma WaitKept(s: State, step: Step, d: DeliveryId, time: int)
    requires Enabled(s, step) && d in s.db.deliveries && WaitsUntil(s.db.deliveries[d], time)
    requires step.Conclude? ==> d != s.workers[step.w].queue[0]
    ensures d in Apply(s, step).db.deliveries && WaitsUntil(Apply(s, step).db.deliveries[d], time)
  {
    if step.Claim? { ClaimEffect(s.db, step.rows, step.at, step.owner); }
    if step.Conclude? { ConcludedRow(s, step, d); }
  }

  /** No step from i up to j concludes an attempt of the delivery. */
  ghost predicate NotConcluded(states: seq<State>, steps: seq<Step>, d: DeliveryId, i: nat, j: nat)
    requires Run(states, steps) && j <= |steps|
  {
    forall k :: i <= k < j && steps[k].Conclude? ==> d != states[k].workers[steps[k].w].queue[0]
  }

  lemma {:induction false} WaitStays(states: seq<State>, steps: seq<Step>, d: DeliveryId, time: int, i: nat, j: nat)
    requires Run(states, steps) && i <= j <= |steps| && NotConcluded(states, steps, d, i, j)
    requires d in states[i].db.deliveries && WaitsUntil(states[i].db.deliveries[d], time)
    ensures d in states[j].db.deliveries && WaitsUntil(states[j].db.deliveries[d], time)
    decreases j
  {
    if i < j {
      WaitStays(states, steps, d, time, i, j - 1);
      WaitKept(states[j - 1], steps[j - 1], d, time);
      assert states[j - 1 + 1] == Apply(states[j - 1], steps[j - 1]);
    }
  }

  /**
   * In every run, overrun leases included: after a retryable failure of attempt 1, 2, 3 or 4 the delivery is not
   * claimed before one minute, five, thirty or 120 have passed, unless another attempt of it is concluded first.
   */
  lemma ClaimWaits(states: seq<State>, steps: seq<Step>, d: DeliveryId, no: nat, i: nat, j: nat)
    requires Run(states, steps) && i < j < |steps|
    requires Defers(states[i], steps[i], d, no) && NotConcluded(states, steps, d, i + 1, j)
    requires steps[j].Claim? && d in steps[j].rows
    ensures steps[j].at >= steps[i].at + WaitAfter(no)
  {
    var time := steps[i].at + WaitAfter(no);
    DueAfterWaitIff(states[i], steps[i], d, no, time);
    assert states[i + 1] == Apply(states[i], steps[i]);
    WaitStays(states, steps, d, time, i + 1, j);
  }

  // ---------- without overrun leases nothing can come between ----------

  ghost predicate Unheld(s: State, d: DeliveryId) {
    forall w :: !Holds(s, w, d)
  }

  lemma UnheldStep(s: State, step: Step, d: DeliveryId)
    requires LeaseInv(s) && Enabled(s, step) && !(step.Claim? && d in step.rows)
    requires Unheld(s, d) || (step.Conclude? && d == s.workers[step.w].queue[0])
    ensures Unheld(Apply(s, step), d)
  {
    forall w ensures !Holds(Apply(s, step), w, d) {
      if Holds(Apply(s, step), w, d) {
        if step.Conclude? {
          assert Paced(s.workers[step.w], s.now);
          assert Holds(s, step.w, s.workers[step.w].queue[0]);
        }
        HeldBefore(s, step, w, d);
      }
    }
  }

  lemma UnheldIsNotConcluded(s: State, step: Step, d: DeliveryId)
    requires Enabled(s, step) && step.Conclude? && Unheld(s, d)
    ensures d != s.workers[step.w].queue[0]
  {
    assert Holds(s, step.w, s.workers[step.w].queue[0]);
  }

  lemma {:induction false} NobodyHolds(states: seq<State>, steps: seq<Step>, d: DeliveryId, i: nat, j: nat)
    requires PromptRun(states, steps) && i < j <= |steps|
    requires steps[i].Conclude? && d == states[i].workers[steps[i].w].queue[0]
    requires forall k :: i < k < j ==> !(steps[k].Claim? && d in steps[k].rows)
    ensures Unheld(states[j], d)
    decreases j
  {
    if j > i + 1 { NobodyHolds(states, steps, d, i, j - 1); }
    PromptRunKeepsLeases(states, steps, j - 1);
    UnheldStep(states[j - 1], steps[j - 1], d);
    assert states[j - 1 + 1] == Apply(states[j - 1], steps[j - 1]);
  }

  /** In a prompt run the next claim after a retryable failure always keeps the wait. */
  lemma NextClaimWaits(states: seq<State>, steps: seq<Step>, d: DeliveryId, no: nat, i: nat, j: nat)
    requires PromptRun(states, steps) && i < j < |steps| && Defers(states[i], steps[i], d, no)
    requires steps[j].Claim? && d in steps[j].rows
    requires forall k :: i < k < j ==> !(steps[k].Claim? && d in steps[k].rows)
    ensures steps[j].at >= steps[i].at + WaitAfter(no)
  {
    forall k | i + 1 <= k < j && steps[k].Conclude? ensures d != states[k].workers[steps[k].w].queue[0] {
      NobodyHolds(states, steps, d, i, k);
      UnheldIsNotConcluded(states[k], steps[k], d);
    }
    ClaimWaits(states, steps, d, no, i, j);
  }
}
