/** What the five minute lease guarantees, and the timing assumption it needs. */
module OutboxLeases {
  import opened Wrappers
  import opened OutboxTables
  import opened OutboxSystem

  /** Time a worker has spent outside its timed blocks since the clock reading of its claim. */
  function Overhead(worker: Worker, now: int): int {
    now - worker.claimedAt - worker.timed - if worker.phase.Timed? then now - worker.phase.entered else 0
  }

  /** The timing assumption: work outside the timed blocks stays under 100 seconds per batch. */
  ghost predicate Prompt(s: State) {
    forall w :: w in s.workers ==> Overhead(s.workers[w], s.now) < OVERHEAD_BUDGET
  }

  ghost predicate PromptRun(states: seq<State>, steps: seq<Step>) {
    && Run(states, steps)
    && forall i :: 0 <= i < |states| ==> Prompt(states[i])
  }

  ghost predicate Holds(s: State, w: WorkerId, id: DeliveryId) {
    w in s.workers && id in s.workers[w].queue
  }

  ghost predicate Paced(worker: Worker, now: int) {
    && 1 <= |worker.queue| <= MAX_BATCH - worker.done
    && worker.claimedAt <= now
    && Distinct(worker.queue)
    && worker.timed <= TIMEOUT * (worker.done + if worker.phase.Settled? then 1 else 0)
  }

  ghost predicate Leased(s: State, w: WorkerId, id: DeliveryId)
    requires w in s.workers
  {
    && id in s.db.deliveries
    && s.db.deliveries[id].status.Pending?
    && s.db.deliveries[id].nextAttemptAt <= s.now
    && s.db.deliveries[id].leaseUntil == Some(s.workers[w].claimedAt + LEASE)
  }

  /** An attempt that is still `started` belongs to a leased row, and to its holder's current attempt if one is alive. */
  ghost predicate StartedOk(s: State, i: nat)
    requires i < |s.db.attempts|
  {
    var id := s.db.attempts[i].deliveryId;
    && id in s.db.deliveries
    && s.db.deliveries[id].leaseUntil.Some?
    && forall w :: Holds(s, w, id) ==>
         && id == s.workers[w].queue[0]
         && !s.workers[w].phase.Queued?
         && s.workers[w].phase.attemptId == i
  }

  ghost predicate LeaseInv(s: State) {
    && Good(s)
    && (forall w :: w in s.workers ==> Paced(s.workers[w], s.now))
    && (forall w, d :: Holds(s, w, d) ==> Leased(s, w, d))
    && (forall v, w, d :: Holds(s, v, d) && Holds(s, w, d) ==> v == w)
    && (forall i :: 0 <= i < |s.db.attempts| && s.db.attempts[i].outcome.Started? ==> StartedOk(s, i))
  }

  /** 10 deliveries of at most 20 seconds plus under 100 seconds of other work fit in 300 seconds. */
  lemma LeaseOutlivesHolder(s: State, w: WorkerId)
    requires w in s.workers && Paced(s.workers[w], s.now) && TimeoutHolds(s) && Prompt(s)
    ensures s.now < s.workers[w].claimedAt + LEASE
  {
    var worker := s.workers[w];
    assert worker.done <= 9;
    assert worker.phase.Timed? ==> s.now - worker.phase.entered <= TIMEOUT;
  }

  lemma PacedStep(s: State, step: Step, w: WorkerId)
    requires Enabled(s, step) && w in Apply(s, step).workers
    requires w in s.workers ==> Paced(s.workers[w], s.now)
    requires w in s.workers && s.workers[w].phase.Timed? ==> 0 <= s.now - s.workers[w].phase.entered <= TIMEOUT
    ensures Paced(Apply(s, step).workers[w], Apply(s, step).now)
  {
  }

  /** What a prompt worker holds cannot be claimed by anyone else. */
  lemma HeldIsNotDue(s: State, w: WorkerId, d: DeliveryId, at: int)
    requires TimeoutHolds(s) && Prompt(s) && Holds(s, w, d) && at <= s.now
    requires Paced(s.workers[w], s.now) && Leased(s, w, d)
    ensures !Due(s.db.deliveries[d], at)
  {
    LeaseOutlivesHolder(s, w);
  }

  /** Queues only appear by a claim and only shrink by a conclusion. */
  lemma QueueStep(s: State, step: Step, w: WorkerId)
    requires Enabled(s, step) && w in Apply(s, step).workers
    ensures var queue := Apply(s, step).workers[w].queue;
      if step.Claim? && w == step.w then queue == step.rows
      else
        && w in s.workers
        && Apply(s, step).workers[w].claimedAt == s.workers[w].claimedAt
        && queue == if step.Conclude? && w == step.w then s.workers[w].queue[1..] else s.workers[w].queue
  {
  }

  lemma HeldBefore(s: State, step: Step, w: WorkerId, d: DeliveryId)
    requires Enabled(s, step) && Holds(Apply(s, step), w, d)
    requires step.Conclude? ==> Distinct(s.workers[step.w].queue)
    ensures (step.Claim? && w == step.w && d in step.rows)
         || (Holds(s, w, d) && Apply(s, step).workers[w].claimedAt == s.workers[w].claimedAt
             && !(step.Conclude? && step.w == w && d == s.workers[w].queue[0]))
  {
    QueueStep(s, step, w);
    if step.Conclude? && w == step.w {
      var k :| 0 <= k < |s.workers[w].queue[1..]| && s.workers[w].queue[1..][k] == d;
      assert d == s.workers[w].queue[k + 1];
    }
  }

  lemma OneHolderStep(s: State, step: Step, v: WorkerId, w: WorkerId, d: DeliveryId)
    requires LeaseInv(s) && TimeoutHolds(s) && Prompt(s) && Enabled(s, step)
    requires Holds(Apply(s, step), v, d) && Holds(Apply(s, step), w, d)
    ensures v == w
  {
    assert step.Conclude? ==> Paced(s.workers[step.w], s.now);
    HeldBefore(s, step, v, d);
    HeldBefore(s, step, w, d);
    if step.Claim? && v != w {
      var holder := if v == step.w then w else v;
      assert Leased(s, holder, d) && Paced(s.workers[holder], s.now);
      HeldIsNotDue(s, holder, d, step.at);
    }
  }

  /** The columns a lease rests on. */
  ghost predicate SameLease(a: Delivery, b: Delivery) {
    a.status == b.status && a.nextAttemptAt == b.nextAttemptAt && a.leaseUntil == b.leaseUntil
  }

  lemma QuietLease(s: State, step: Step, d: DeliveryId)
    requires Enabled(s, step) && !step.Claim? && !step.Conclude? && d in s.db.deliveries
    ensures d in Apply(s, step).db.deliveries
    ensures SameLease(s.db.deliveries[d], Apply(s, step).db.deliveries[d])
    ensures s.now <= Apply(s, step).now
  {
  }

  lemma LeasedClaim(s: State, step: Step, w: WorkerId, d: DeliveryId)
    requires TimeoutHolds(s) && Prompt(s) && Enabled(s, step) && step.Claim? && Holds(Apply(s, step), w, d)
    requires Holds(s, w, d) ==> Leased(s, w, d) && Paced(s.workers[w], s.now)
    ensures Leased(Apply(s, step), w, d)
  {
    HeldBefore(s, step, w, d);
    ClaimEffect(s.db, step.rows, step.at, step.owner);
    if w != step.w && d in step.rows { HeldIsNotDue(s, w, d, step.at); }
  }

  lemma LeasedConclude(s: State, step: Step, w: WorkerId, d: DeliveryId)
    requires LeaseInv(s) && Enabled(s, step) && step.Conclude? && Holds(Apply(s, step), w, d)
    ensures Leased(Apply(s, step), w, d)
  {
    assert Paced(s.workers[step.w], s.now);
    HeldBefore(s, step, w, d);
    assert Leased(s, w, d);
    ConcludedRow(s, step, d);
    if d == s.workers[step.w].queue[0] { assert Holds(s, step.w, d); }
  }

  lemma LeasedQuiet(s: State, step: Step, w: WorkerId, d: DeliveryId)
    requires Enabled(s, step) && !step.Claim? && !step.Conclude? && Holds(Apply(s, step), w, d)
    requires Holds(s, w, d) ==> Leased(s, w, d)
    ensures Leased(Apply(s, step), w, d)
  {
    HeldBefore(s, step, w, d);
    QuietLease(s, step, d);
  }

  lemma LeasedStep(s: State, step: Step, w: WorkerId, d: DeliveryId)
    requires LeaseInv(s) && TimeoutHolds(s) && Prompt(s) && Enabled(s, step) && Holds(Apply(s, step), w, d)
    ensures Leased(Apply(s, step), w, d)
  {
    if step.Claim? {
      assert Holds(s, w, d) ==> Leased(s, w, d) && Paced(s.workers[w], s.now);
      LeasedClaim(s, step, w, d);
    }
    else if step.Conclude? { LeasedConclude(s, step, w, d); }
    else { LeasedQuiet(s, step, w, d); }
  }

  lemma StartedClaim(s: State, step: Step, i: nat)
    requires LeaseInv(s) && TimeoutHolds(s) && Prompt(s) && Enabled(s, step) && step.Claim?
    requires i < |Apply(s, step).db.attempts| && Apply(s, step).db.attempts[i].outcome.Started?
    ensures StartedOk(Apply(s, step), i)
  {
    var t := Apply(s, step);
    ClaimEffect(s.db, step.rows, step.at, step.owner);
    assert StartedOk(s, i);
    var id := s.db.attempts[i].deliveryId;
    forall w | Holds(t, w, id)
      ensures id == t.workers[w].queue[0] && !t.workers[w].phase.Queued? && t.workers[w].phase.attemptId == i
    {
      HeldBefore(s, step, w, id);
    }
  }

  lemma StartedOpen(s: State, step: Step, i: nat)
    requires LeaseInv(s) && Enabled(s, step) && step.Open?
    requires i < |Apply(s, step).db.attempts| && Apply(s, step).db.attempts[i].outcome.Started?
    ensures StartedOk(Apply(s, step), i)
  {
    var t := Apply(s, step);
    var id := t.db.attempts[i].deliveryId;
    var head := s.workers[step.w].queue[0];
    assert Holds(s, step.w, head) && Leased(s, step.w, head);
    if i < |s.db.attempts| { assert StartedOk(s, i); }
    forall w | Holds(t, w, id)
      ensures id == t.workers[w].queue[0] && !t.workers[w].phase.Queued? && t.workers[w].phase.attemptId == i
    {
      HeldBefore(s, step, w, id);
    }
  }

  lemma StartedConclude(s: State, step: Step, i: nat)
    requires LeaseInv(s) && Enabled(s, step) && step.Conclude?
    requires i < |Apply(s, step).db.attempts| && Apply(s, step).db.attempts[i].outcome.Started?
    ensures StartedOk(Apply(s, step), i)
  {
    var t := Apply(s, step);
    var id := t.db.attempts[i].deliveryId;
    var closed := s.workers[step.w].queue[0];
    assert WorkerOk(s, step.w) && Paced(s.workers[step.w], s.now) && Holds(s, step.w, closed);
    assert StartedOk(s, i);
    assert id != closed;
    ConcludedRow(s, step, id);
    forall w | Holds(t, w, id)
      ensures id == t.workers[w].queue[0] && !t.workers[w].phase.Queued? && t.workers[w].phase.attemptId == i
    {
      HeldBefore(s, step, w, id);
    }
  }

  ghost predicate Elsewhere(step: Step) {
    !step.Claim? && !step.Open? && !step.Conclude?
  }

  /** Other steps change no outcome and no worker's current attempt. */
  lemma QuietAttempts(s: State, step: Step)
    requires Enabled(s, step) && Elsewhere(step)
    ensures |Apply(s, step).db.attempts| == |s.db.attempts|
    ensures forall i :: 0 <= i < |s.db.attempts| ==>
      && Apply(s, step).db.attempts[i].outcome == s.db.attempts[i].outcome
      && Apply(s, step).db.attempts[i].deliveryId == s.db.attempts[i].deliveryId
  {
  }

  lemma QuietPhase(s: State, step: Step, w: WorkerId)
    requires Enabled(s, step) && Elsewhere(step) && w in Apply(s, step).workers
    ensures w in s.workers
    ensures Apply(s, step).workers[w].phase.Queued? == s.workers[w].phase.Queued?
    ensures !s.workers[w].phase.Queued? ==> Apply(s, step).workers[w].phase.attemptId == s.workers[w].phase.attemptId
  {
  }

  lemma StartedQuiet(s: State, step: Step, i: nat)
    requires LeaseInv(s) && Enabled(s, step) && Elsewhere(step)
    requires i < |Apply(s, step).db.attempts| && Apply(s, step).db.attempts[i].outcome.Started?
    ensures StartedOk(Apply(s, step), i)
  {
    var t := Apply(s, step);
    QuietAttempts(s, step);
    assert StartedOk(s, i);
    var id := t.db.attempts[i].deliveryId;
    QuietLease(s, step, id);
    forall w | Holds(t, w, id)
      ensures id == t.workers[w].queue[0] && !t.workers[w].phase.Queued? && t.workers[w].phase.attemptId == i
    {
      QueueStep(s, step, w);
      assert Holds(s, w, id);
      QuietPhase(s, step, w);
    }
  }

  lemma StartedStep(s: State, step: Step, i: nat)
    requires LeaseInv(s) && TimeoutHolds(s) && Prompt(s) && Enabled(s, step)
    requires i < |Apply(s, step).db.attempts| && Apply(s, step).db.attempts[i].outcome.Started?
    ensures StartedOk(Apply(s, step), i)
  {
    if step.Claim? { StartedClaim(s, step, i); }
    else if step.Open? { StartedOpen(s, step, i); }
    else if step.Conclude? { StartedConclude(s, step, i); }
    else { StartedQuiet(s, step, i); }
  }

  lemma LeaseStep(s: State, step: Step)
    requires LeaseInv(s) && TimeoutHolds(s) && Prompt(s) && Enabled(s, step)
    ensures LeaseInv(Apply(s, step))
  {
    var t := Apply(s, step);
    GoodStep(s, step);
    forall w | w in t.workers ensures Paced(t.workers[w], t.now) {
      assert w in s.workers ==> Paced(s.workers[w], s.now) && WorkerOk(s, w);
      PacedStep(s, step, w);
    }
    forall w, d | Holds(t, w, d) ensures Leased(t, w, d) { LeasedStep(s, step, w, d); }
    forall v, w, d | Holds(t, v, d) && Holds(t, w, d) ensures v == w { OneHolderStep(s, step, v, w, d); }
    forall i | 0 <= i < |t.db.attempts| && t.db.attempts[i].outcome.Started? ensures StartedOk(t, i) {
      StartedStep(s, step, i);
    }
  }

  lemma {:induction false} PromptRunKeepsLeases(states: seq<State>, steps: seq<Step>, i: nat)
    requires PromptRun(states, steps) && i < |states|
    ensures LeaseInv(states[i])
  {
    if i > 0 {
      PromptRunKeepsLeases(states, steps, i - 1);
      LeaseStep(states[i - 1], steps[i - 1]);
      assert states[i - 1 + 1] == Apply(states[i - 1], steps[i - 1]);
    }
  }

  // ---------- the guarantees ----------

  /** No two live workers ever hold one delivery. */
  lemma OneHolder(states: seq<State>, steps: seq<Step>, i: nat, v: WorkerId, w: WorkerId, d: DeliveryId)
    requires PromptRun(states, steps) && i < |states|
    requires Holds(states[i], v, d) && Holds(states[i], w, d)
    ensures v == w
  {
    PromptRunKeepsLeases(states, steps, i);
  }

  /** A row without a lease has no attempt that is still `started`, so the claim loop may skip the search. */
  lemma UnleasedHasNothingStarted(states: seq<State>, steps: seq<Step>, i: nat, d: DeliveryId)
    requires PromptRun(states, steps) && i < |states|
    requires d in states[i].db.deliveries && states[i].db.deliveries[d].leaseUntil.None?
    ensures forall k :: 0 <= k < |states[i].db.attempts| && states[i].db.attempts[k].deliveryId == d ==>
              !states[i].db.attempts[k].outcome.Started?
    ensures forall now :: InterruptStarted(states[i].db.attempts, d, now) == states[i].db.attempts
  {
    PromptRunKeepsLeases(states, steps, i);
    assert forall k :: 0 <= k < |states[i].db.attempts| && states[i].db.attempts[k].outcome.Started? ==>
        StartedOk(states[i], k);
  }

  lemma ClosedRowKept(s: State, step: Step, d: DeliveryId)
    requires Enabled(s, step) && d in s.db.deliveries && !s.db.deliveries[d].status.Pending? && !step.Conclude?
    requires step.Open? ==> d != s.workers[step.w].queue[0]
    ensures d in Apply(s, step).db.deliveries && Apply(s, step).db.deliveries[d] == s.db.deliveries[d]
  {
    if step.Claim? { ClaimEffect(s.db, step.rows, step.at, step.owner); }
  }

  lemma ClosedRowStep(s: State, step: Step, d: DeliveryId)
    requires LeaseInv(s) && Enabled(s, step)
    requires d in s.db.deliveries && !s.db.deliveries[d].status.Pending?
    ensures d in Apply(s, step).db.deliveries && Apply(s, step).db.deliveries[d] == s.db.deliveries[d]
  {
    if step.Open? || step.Conclude? {
      assert Holds(s, step.w, s.workers[step.w].queue[0]);
      assert Leased(s, step.w, s.workers[step.w].queue[0]);
    }
    if step.Conclude? { ConcludedRow(s, step, d); } else { ClosedRowKept(s, step, d); }
  }

  /** Once a delivery is sent, failed or expired, no step of a prompt run changes its row again. */
  lemma {:induction false} ClosedRowsAreFinal(states: seq<State>, steps: seq<Step>, i: nat, j: nat, d: DeliveryId)
    requires PromptRun(states, steps) && i <= j < |states|
    requires d in states[i].db.deliveries && !states[i].db.deliveries[d].status.Pending?
    ensures d in states[j].db.deliveries && states[j].db.deliveries[d] == states[i].db.deliveries[d]
    decreases j
  {
    if i < j {
      ClosedRowsAreFinal(states, steps, i, j - 1, d);
      PromptRunKeepsLeases(states, steps, j - 1);
      ClosedRowStep(states[j - 1], steps[j - 1], d);
      assert states[j - 1 + 1] == Apply(states[j - 1], steps[j - 1]);
    }
  }

  /** The exact moment a live holder loses its protection: its delivery is claimable iff the claim is 300 s old. */
  lemma TakeoverExactly(s: State, w: WorkerId, d: DeliveryId)
    requires LeaseInv(s) && Holds(s, w, d)
    ensures Due(s.db.deliveries[d], s.now) <==> s.now - s.workers[w].claimedAt >= 300_000_000
  {
    assert Leased(s, w, d);
  }
}
