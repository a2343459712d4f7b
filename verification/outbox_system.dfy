/** Any number of dispatch workers, the clock, crashes and the mail provider as one transition system. */
module OutboxSystem {
  import opened Wrappers
  import opened OutboxTables

  const OVERHEAD_BUDGET := 100 * SECOND

  type WorkerId = nat

  /** Where a worker is with the head of its queue. */
  datatype Phase =
    | Queued
    | Opened(attemptId: nat, no: nat)
    | Timed(attemptId: nat, no: nat, entered: int, stage: Stage, checked: Option<int>, posted: bool)
    | Settled(attemptId: nat, no: nat, reached: Stage, verdict: Verdict)

  /** `done` counts finished deliveries; `timed` is the time spent in finished timed blocks. */
  datatype Worker = Worker(claimedAt: int, queue: seq<DeliveryId>, phase: Phase, done: nat, timed: int)

  /** One request that reached the mail provider's API. */
  datatype Post = Post(id: DeliveryId, key: string, at: int)

  datatype State = State(now: int, db: Tables, workers: map<WorkerId, Worker>, posts: seq<Post>)

  /** Every transaction is one step. A reading `at` that stamps a row may be older than the moment of the commit. */
  datatype Step =
    | Tick(to: int)
    | Enqueue(id: DeliveryId, key: string, context: Option<string>, at: int)
    | Claim(w: WorkerId, rows: seq<DeliveryId>, owner: string, at: int)
    | Open(w: WorkerId, at: int)
    | Enter(w: WorkerId)
    | Check(w: WorkerId, at: int)
    | Advance(w: WorkerId)
    | Send(w: WorkerId)
    | Leave(w: WorkerId, verdict: Verdict)
    | Conclude(w: WorkerId, at: int)
    | Crash(w: WorkerId)

  function ProviderKey(id: DeliveryId): string {
    "email-delivery/" + id
  }

  predicate Distinct<T(==)>(s: seq<T>) {
    forall i, j :: 0 <= i < j < |s| ==> s[i] != s[j]
  }

  predicate WorkerIn(s: State, w: WorkerId) {
    && w in s.workers
    && s.workers[w].queue != []
    && s.workers[w].queue[0] in s.db.deliveries
  }

  predicate InTimed(s: State, w: WorkerId) {
    && WorkerIn(s, w)
    && s.workers[w].phase.Timed?
    && s.workers[w].phase.attemptId < |s.db.attempts|
  }

  predicate Enabled(s: State, step: Step) {
    match step
    case Tick(to) => s.now <= to
    case Enqueue(id, key, context, at) =>
      && id !in s.db.deliveries
      && (forall d :: d in s.db.deliveries ==> s.db.deliveries[d].idempotencyKey != key)
      && at <= s.now
    case Claim(w, rows, owner, at) =>
      && w !in s.workers
      && 1 <= |rows| <= MAX_BATCH
      && Distinct(rows)
      && (forall d :: d in rows ==> d in s.db.deliveries && Due(s.db.deliveries[d], at))
      && at <= s.now
    case Open(w, at) => WorkerIn(s, w) && s.workers[w].phase.Queued? && at <= s.now
    case Enter(w) => WorkerIn(s, w) && s.workers[w].phase.Opened?
    case Check(w, at) =>
      InTimed(s, w) && s.workers[w].phase.checked.None? && s.workers[w].phase.entered <= at <= s.now
    case Advance(w) => InTimed(s, w) && s.workers[w].phase.checked.Some? && !s.workers[w].phase.stage.Smtp?
    case Send(w) => InTimed(s, w) && s.workers[w].phase.checked.Some? && s.workers[w].phase.stage.Smtp? && !s.workers[w].phase.posted
    case Leave(w, verdict) => InTimed(s, w) && (verdict.Accepted? ==> s.workers[w].phase.posted)
    case Conclude(w, at) =>
      && WorkerIn(s, w)
      && s.workers[w].phase.Settled?
      && s.workers[w].phase.attemptId < |s.db.attempts|
      && s.workers[w].phase.no >= 1
      && at <= s.now
    case Crash(w) => w in s.workers
  }

  function Settle(worker: Worker, verdict: Verdict, now: int): Worker
    requires worker.phase.Timed?
  {
    var p := worker.phase;
    worker.(phase := Settled(p.attemptId, p.no, p.stage, verdict), timed := worker.timed + now - p.entered)
  }

  function NextStage(stage: Stage): Stage {
    if stage.Prepare? then Render else Smtp
  }

  function WithWorker(s: State, w: WorkerId, worker: Worker): State {
    s.(workers := s.workers[w := worker])
  }

  function Apply(s: State, step: Step): State
    requires Enabled(s, step)
  {
    match step
    case Tick(to) => s.(now := to)
    case Enqueue(id, key, context, at) =>
      s.(db := s.db.(deliveries := s.db.deliveries[id := NewDelivery(key, context, at)]))
    case Claim(w, rows, owner, at) =>
      WithWorker(s, w, Worker(at, rows, Queued, 0, 0)).(db := ClaimRows(s.db, rows, at, owner))
    case Open(w, at) =>
      var worker := s.workers[w];
      var id := worker.queue[0];
      WithWorker(s, w, worker.(phase := Opened(|s.db.attempts|, s.db.deliveries[id].attemptCount + 1)))
        .(db := OpenAttempt(s.db, id, at))
    case Enter(w) =>
      var worker := s.workers[w];
      WithWorker(s, w, worker.(phase := Timed(worker.phase.attemptId, worker.phase.no, s.now, Prepare, None, false)))
    case Check(w, at) =>
      var worker := s.workers[w];
      var first := EarliestStart(s.db.attempts, worker.queue[0]);
      if first.Some? && at - first.value >= REPLAY_WINDOW
      then WithWorker(s, w, Settle(worker, WINDOW_EXPIRED, s.now))
      else WithWorker(s, w, worker.(phase := worker.phase.(checked := Some(at))))
    case Advance(w) =>
      var worker := s.workers[w];
      var stage := NextStage(worker.phase.stage);
      WithWorker(s, w, worker.(phase := worker.phase.(stage := stage)))
        .(db := SetStage(s.db, worker.phase.attemptId, stage))
    case Send(w) =>
      var worker := s.workers[w];
      WithWorker(s, w, worker.(phase := worker.phase.(posted := true)))
        .(posts := s.posts + [Post(worker.queue[0], ProviderKey(worker.queue[0]), s.now)])
    case Leave(w, verdict) =>
      WithWorker(s, w, Settle(s.workers[w], verdict, s.now))
    case Conclude(w, at) =>
      var worker := s.workers[w];
      var p := worker.phase;
      var db := Finish(s.db, worker.queue[0], p.attemptId, p.no, p.reached, p.verdict, at);
      if |worker.queue| == 1 then s.(db := db, workers := s.workers - {w})
      else WithWorker(s, w, worker.(queue := worker.queue[1..], phase := Queued, done := worker.done + 1)).(db := db)
    case Crash(w) => s.(workers := s.workers - {w})
  }

  // ---------- runs ----------

  const Initial := State(0, Tables(map[], []), map[], [])

  /** asyncio.timeout ends every timed block at most TIMEOUT after it was entered. */
  ghost predicate TimeoutHolds(s: State) {
    forall w :: w in s.workers && s.workers[w].phase.Timed? ==> s.now - s.workers[w].phase.entered <= TIMEOUT
  }

  /** A finite run: every step is enabled, and the timeout holds in every state. */
  ghost predicate Run(states: seq<State>, steps: seq<Step>) {
    && |states| == |steps| + 1
    && states[0] == Initial
    && (forall i :: 0 <= i < |states| ==> TimeoutHolds(states[i]))
    && (forall i :: 0 <= i < |steps| ==> Enabled(states[i], steps[i]) && states[i + 1] == Apply(states[i], steps[i]))
  }

  // ---------- what every run keeps, crashes and overrun leases included ----------

  ghost predicate HasAttempt(phase: Phase) {
    !phase.Queued?
  }

  ghost predicate WorkerOk(s: State, w: WorkerId)
    requires w in s.workers
  {
    var worker := s.workers[w];
    && worker.queue != []
    && (forall d :: d in worker.queue ==> d in s.db.deliveries)
    && (HasAttempt(worker.phase) ==>
          && worker.phase.attemptId < |s.db.attempts|
          && s.db.attempts[worker.phase.attemptId].deliveryId == worker.queue[0]
          && s.db.attempts[worker.phase.attemptId].attemptNo == worker.phase.no >= 1)
    && (worker.phase.Timed? ==> worker.phase.entered <= s.now && (worker.phase.stage.Prepare? || worker.phase.checked.Some?))
    && (worker.phase.Timed? && worker.phase.checked.Some? ==> CheckPassed(s, worker))
    && (worker.phase.Timed? && worker.phase.posted ==> Posted(s.posts, worker.queue[0]))
    && (worker.phase.Settled? && worker.phase.verdict.Accepted? ==> Posted(s.posts, worker.queue[0]))
  }

  ghost predicate CheckPassed(s: State, worker: Worker)
    requires worker.queue != [] && worker.phase.Timed? && worker.phase.checked.Some?
  {
    var first := FirstStart(s.db.attempts, worker.queue[0]);
    && worker.phase.entered <= worker.phase.checked.value <= s.now
    && first.Some?
    && worker.phase.checked.value - first.value < REPLAY_WINDOW
  }

  ghost predicate Posted(posts: seq<Post>, id: DeliveryId) {
    exists k :: 0 <= k < |posts| && posts[k].id == id
  }

  ghost predicate PostOk(s: State, p: Post) {
    var first := FirstStart(s.db.attempts, p.id);
    && p.key == ProviderKey(p.id)
    && p.id in s.db.deliveries
    && first.Some?
    && first.value <= p.at < first.value + REPLAY_WINDOW + TIMEOUT
    && p.at <= s.now
  }

  ghost predicate Good(s: State) {
    && Ledger(s.db)
    && (forall i :: 0 <= i < |s.db.attempts| ==> s.db.attempts[i].startedAt <= s.now)
    && (forall w :: w in s.workers ==> WorkerOk(s, w))
    && (forall k :: 0 <= k < |s.posts| ==> PostOk(s, s.posts[k]))
    && (forall d :: d in s.db.deliveries && s.db.deliveries[d].status.Sent? ==> Posted(s.posts, d))
    && (forall d, e :: d in s.db.deliveries && e in s.db.deliveries && d != e ==>
          s.db.deliveries[d].idempotencyKey != s.db.deliveries[e].idempotencyKey)
  }

  // ----- what a claim does to the tables -----

  ghost function ClaimedRow(row: Delivery, claimed: bool, now: int, owner: string): Delivery {
    if claimed then row.(leaseOwner := Some(owner), leaseUntil := Some(now + LEASE), updatedAt := now) else row
  }

  ghost function ClaimedAttempt(db: Tables, rows: seq<DeliveryId>, a: Attempt, now: int): Attempt
    requires forall d :: d in rows ==> d in db.deliveries
  {
    if a.deliveryId in rows && db.deliveries[a.deliveryId].leaseUntil.Some?
    then InterruptOne(a, a.deliveryId, now) else a
  }

  /** The net effect of a claim of distinct rows, without the loop. */
  lemma {:induction false} ClaimEffect(db: Tables, rows: seq<DeliveryId>, now: int, owner: string)
    requires forall d :: d in rows ==> d in db.deliveries
    requires Distinct(rows)
    ensures SameIdentity(db.attempts, ClaimRows(db, rows, now, owner).attempts)
    ensures forall d :: d in db.deliveries ==>
              ClaimRows(db, rows, now, owner).deliveries[d] == ClaimedRow(db.deliveries[d], d in rows, now, owner)
    ensures forall i :: 0 <= i < |db.attempts| ==>
              ClaimRows(db, rows, now, owner).attempts[i] == ClaimedAttempt(db, rows, db.attempts[i], now)
    ensures forall id :: Retries(ClaimRows(db, rows, now, owner).attempts, id) == Retries(db.attempts, id)
  {
    if rows != [] {
      var front, last := rows[..|rows| - 1], rows[|rows| - 1];
      ClaimEffect(db, front, now, owner);
      var mid := ClaimRows(db, front, now, owner);
      assert last !in front;
      assert forall d :: d in rows <==> d in front || d == last;
      forall id ensures Retries(ClaimRow(mid, last, now, owner).attempts, id) == Retries(mid.attempts, id) {
        RetriesInterrupt(mid.attempts, last, now, id);
      }
    }
  }

  // ----- the ledger -----

  lemma LedgerKept(a: Tables, b: Tables)
    requires Ledger(a) && SameIdentity(a.attempts, b.attempts)
    requires a.deliveries.Keys == b.deliveries.Keys
    requires forall d :: d in a.deliveries ==> a.deliveries[d].attemptCount == b.deliveries[d].attemptCount
    requires forall i :: 0 <= i < |b.attempts| && b.attempts[i].outcome.RetryableFailure? ==>
               a.attempts[i].outcome.RetryableFailure? || b.attempts[i].attemptNo < MAX_ATTEMPTS
    ensures Ledger(b)
  {
    forall d | d in b.deliveries ensures Numbers(b.attempts, d) == OneTo(b.deliveries[d].attemptCount) {
      SameIdentityKeeps(a.attempts, b.attempts, d);
    }
  }

  lemma {:induction false} NoNumbers(attempts: seq<Attempt>, id: DeliveryId)
    requires forall i :: 0 <= i < |attempts| ==> attempts[i].deliveryId != id
    ensures Numbers(attempts, id) == []
  {
    if attempts != [] { NoNumbers(attempts[..|attempts| - 1], id); }
  }

  lemma LedgerOpen(db: Tables, id: DeliveryId, at: int)
    requires Ledger(db) && id in db.deliveries
    ensures Ledger(OpenAttempt(db, id, at))
  {
    var r := OpenAttempt(db, id, at);
    var x := r.attempts[|db.attempts|];
    forall d | d in r.deliveries ensures Numbers(r.attempts, d) == OneTo(r.deliveries[d].attemptCount) {
      AppendAttempt(db.attempts, x, d);
    }
  }

  lemma LedgerConclude(db: Tables, id: DeliveryId, attemptId: nat, no: nat, stage: Stage, verdict: Verdict, at: int)
    requires Ledger(db) && id in db.deliveries && attemptId < |db.attempts| && no >= 1
    requires db.attempts[attemptId].deliveryId == id && db.attempts[attemptId].attemptNo == no
    ensures Ledger(Finish(db, id, attemptId, no, stage, verdict, at))
    ensures SameIdentity(db.attempts, Finish(db, id, attemptId, no, stage, verdict, at).attempts)
  {
    LedgerKept(db, Finish(db, id, attemptId, no, stage, verdict, at));
  }

  lemma {:induction false} LedgerClaim(db: Tables, rows: seq<DeliveryId>, at: int, owner: string)
    requires Ledger(db) && Distinct(rows) && forall d :: d in rows ==> d in db.deliveries
    ensures Ledger(ClaimRows(db, rows, at, owner))
  {
    ClaimEffect(db, rows, at, owner);
    LedgerKept(db, ClaimRows(db, rows, at, owner));
  }

  lemma LedgerStep(s: State, step: Step)
    requires Good(s) && Enabled(s, step)
    ensures Ledger(Apply(s, step).db)
  {
    match step
    case Enqueue(id, key, context, at) =>
      NoNumbers(s.db.attempts, id);
    case Claim(w, rows, owner, at) =>
      LedgerClaim(s.db, rows, at, owner);
    case Open(w, at) =>
      LedgerOpen(s.db, s.workers[w].queue[0], at);
    case Advance(w) =>
      LedgerKept(s.db, Apply(s, step).db);
    case Conclude(w, at) =>
      assert WorkerOk(s, w);
      var p := s.workers[w].phase;
      LedgerConclude(s.db, s.workers[w].queue[0], p.attemptId, p.no, p.reached, p.verdict, at);
    case _ =>
  }

  // ----- how a step moves the facts the other invariants rest on -----

  /** First starts, once set, never move, and attempts keep their identity. */
  ghost predicate Grows(s: State, t: State) {
    && s.now <= t.now
    && (forall d :: d in s.db.deliveries ==> d in t.db.deliveries)
    && |s.db.attempts| <= |t.db.attempts|
    && (forall i :: 0 <= i < |s.db.attempts| ==>
          && t.db.attempts[i].deliveryId == s.db.attempts[i].deliveryId
          && t.db.attempts[i].attemptNo == s.db.attempts[i].attemptNo)
    && (forall d :: FirstStart(s.db.attempts, d).Some? ==> FirstStart(t.db.attempts, d) == FirstStart(s.db.attempts, d))
    && s.posts <= t.posts
  }

  lemma FirstStartKept(a: Tables, b: Tables)
    requires SameIdentity(a.attempts, b.attempts)
    ensures forall d :: FirstStart(b.attempts, d) == FirstStart(a.attempts, d)
  {
    forall d ensures FirstStart(b.attempts, d) == FirstStart(a.attempts, d) {
      SameIdentityKeeps(a.attempts, b.attempts, d);
    }
  }

  ghost predicate StartsPast(attempts: seq<Attempt>, now: int) {
    forall i :: 0 <= i < |attempts| ==> attempts[i].startedAt <= now
  }

  /** A step that keeps every attempt's delivery, number and start. */
  lemma SameAttemptsGrow(s: State, t: State)
    requires s.now <= t.now && s.posts <= t.posts && SameIdentity(s.db.attempts, t.db.attempts)
    requires forall d :: d in s.db.deliveries ==> d in t.db.deliveries
    requires StartsPast(s.db.attempts, s.now)
    ensures Grows(s, t) && StartsPast(t.db.attempts, t.now)
  {
    FirstStartKept(s.db, t.db);
  }

  lemma ClaimGrows(s: State, step: Step)
    requires Enabled(s, step) && step.Claim? && StartsPast(s.db.attempts, s.now)
    ensures Grows(s, Apply(s, step)) && StartsPast(Apply(s, step).db.attempts, Apply(s, step).now)
  {
    ClaimEffect(s.db, step.rows, step.at, step.owner);
    SameAttemptsGrow(s, Apply(s, step));
  }

  lemma OpenGrows(s: State, step: Step)
    requires Enabled(s, step) && step.Open? && StartsPast(s.db.attempts, s.now)
    requires s.workers[step.w].queue[0] in s.db.deliveries
    ensures Grows(s, Apply(s, step)) && StartsPast(Apply(s, step).db.attempts, Apply(s, step).now)
  {
    var t := Apply(s, step);
    var x := t.db.attempts[|s.db.attempts|];
    forall d | FirstStart(s.db.attempts, d).Some? ensures FirstStart(t.db.attempts, d) == FirstStart(s.db.attempts, d) {
      AppendAttempt(s.db.attempts, x, d);
    }
  }

  lemma StepGrows(s: State, step: Step)
    requires Good(s) && Enabled(s, step)
    ensures Grows(s, Apply(s, step)) && StartsPast(Apply(s, step).db.attempts, Apply(s, step).now)
  {
    assert StartsPast(s.db.attempts, s.now);
    if step.Claim? { ClaimGrows(s, step); }
    else if step.Open? {
      assert WorkerOk(s, step.w);
      OpenGrows(s, step);
    } else { OtherGrows(s, step); }
  }

  lemma OtherGrows(s: State, step: Step)
    requires Enabled(s, step) && !step.Claim? && !step.Open? && StartsPast(s.db.attempts, s.now)
    ensures Grows(s, Apply(s, step)) && StartsPast(Apply(s, step).db.attempts, Apply(s, step).now)
  {
    assert SameIdentity(s.db.attempts, Apply(s, step).db.attempts);
    SameAttemptsGrow(s, Apply(s, step));
  }

  lemma PostedGrows(a: seq<Post>, b: seq<Post>, id: DeliveryId)
    requires a <= b && Posted(a, id)
    ensures Posted(b, id)
  {
    var k :| 0 <= k < |a| && a[k].id == id;
    assert b[k] == a[k];
  }

  /** A worker that the step did not touch stays in order. */
  lemma BystanderOk(s: State, t: State, w: WorkerId)
    requires w in s.workers && WorkerOk(s, w) && Grows(s, t)
    requires w in t.workers && t.workers[w] == s.workers[w]
    ensures WorkerOk(t, w)
  {
    var worker := s.workers[w];
    if Posted(s.posts, worker.queue[0]) {
      PostedGrows(s.posts, t.posts, worker.queue[0]);
    }
  }

  lemma {:induction false} AttemptHasStart(attempts: seq<Attempt>, i: nat)
    requires i < |attempts|
    ensures FirstStart(attempts, attempts[i].deliveryId).Some?
    decreases |attempts|
  {
    if i < |attempts| - 1 {
      AttemptHasStart(attempts[..|attempts| - 1], i);
    }
  }

  lemma ActorOk(s: State, step: Step, w: WorkerId)
    requires Good(s) && Enabled(s, step)
    requires !step.Tick? && !step.Enqueue? && step.w == w && w in Apply(s, step).workers
    ensures WorkerOk(Apply(s, step), w)
  {
    if !step.Claim? { assert WorkerOk(s, w); }
    StepGrows(s, step);
    if step.Check? { ActorChecks(s, step); }
    else if step.Send? { ActorSends(s, step); }
    else if step.Claim? || step.Open? || step.Conclude? { ActorCommits(s, step); }
    else { ActorMoves(s, step); }
  }

  lemma ActorChecks(s: State, step: Step)
    requires Enabled(s, step) && step.Check? && WorkerOk(s, step.w)
    ensures WorkerOk(Apply(s, step), step.w)
  {
    var worker := s.workers[step.w];
    AttemptHasStart(s.db.attempts, worker.phase.attemptId);
    EarliestNotLater(s.db.attempts, worker.queue[0]);
  }

  lemma ActorSends(s: State, step: Step)
    requires Enabled(s, step) && step.Send? && WorkerOk(s, step.w)
    ensures WorkerOk(Apply(s, step), step.w)
  {
    assert Apply(s, step).posts[|s.posts|].id == s.workers[step.w].queue[0];
  }

  lemma ActorCommits(s: State, step: Step)
    requires Enabled(s, step) && (step.Claim? || step.Open? || step.Conclude?) && step.w in Apply(s, step).workers
    requires !step.Claim? ==> WorkerOk(s, step.w)
    requires Grows(s, Apply(s, step))
    ensures WorkerOk(Apply(s, step), step.w)
  {
  }

  lemma ActorMoves(s: State, step: Step)
    requires Enabled(s, step) && (step.Enter? || step.Advance? || step.Leave? || step.Crash?)
    requires step.w in Apply(s, step).workers && WorkerOk(s, step.w) && Grows(s, Apply(s, step))
    ensures WorkerOk(Apply(s, step), step.w)
  {
  }

  lemma WorkersStep(s: State, step: Step)
    requires Good(s) && Enabled(s, step)
    ensures forall w :: w in Apply(s, step).workers ==> WorkerOk(Apply(s, step), w)
  {
    var t := Apply(s, step);
    StepGrows(s, step);
    forall w | w in t.workers ensures WorkerOk(t, w) {
      if !step.Tick? && !step.Enqueue? && step.w == w {
        ActorOk(s, step, w);
      } else {
        BystanderOk(s, t, w);
      }
    }
  }

  lemma PostsStep(s: State, step: Step)
    requires Good(s) && TimeoutHolds(s) && Enabled(s, step)
    ensures forall k :: 0 <= k < |Apply(s, step).posts| ==> PostOk(Apply(s, step), Apply(s, step).posts[k])
  {
    var t := Apply(s, step);
    StepGrows(s, step);
    forall k | 0 <= k < |t.posts| ensures PostOk(t, t.posts[k]) {
      if k < |s.posts| {
        assert PostOk(s, s.posts[k]);
      } else {
        assert step.Send? && WorkerOk(s, step.w);
        var worker := s.workers[step.w];
        assert CheckPassed(s, worker);
        FirstStartBound(s.db.attempts, worker.queue[0], s.now);
      }
    }
  }

  lemma {:induction false} FirstStartBound(attempts: seq<Attempt>, id: DeliveryId, now: int)
    requires forall i :: 0 <= i < |attempts| ==> attempts[i].startedAt <= now
    ensures FirstStart(attempts, id).Some? ==> FirstStart(attempts, id).value <= now
  {
    if attempts != [] {
      FirstStartBound(attempts[..|attempts| - 1], id, now);
    }
  }

  ghost predicate SameIdentityRow(a: Delivery, b: Delivery) {
    a.idempotencyKey == b.idempotencyKey && a.status == b.status
  }

  lemma QuietRows(s: State, step: Step, d: DeliveryId)
    requires Enabled(s, step) && d in s.db.deliveries && !step.Conclude?
    ensures d in Apply(s, step).db.deliveries
    ensures SameIdentityRow(s.db.deliveries[d], Apply(s, step).db.deliveries[d])
  {
    if step.Claim? {
      ClaimEffect(s.db, step.rows, step.at, step.owner);
    }
  }

  lemma ConcludedRow(s: State, step: Step, d: DeliveryId)
    requires Enabled(s, step) && d in s.db.deliveries && step.Conclude?
    ensures d in Apply(s, step).db.deliveries
    ensures d != s.workers[step.w].queue[0] ==> Apply(s, step).db.deliveries[d] == s.db.deliveries[d]
    ensures d == s.workers[step.w].queue[0] ==>
      && Apply(s, step).db.deliveries[d].idempotencyKey == s.db.deliveries[d].idempotencyKey
      && (Apply(s, step).db.deliveries[d].status.Sent? <==> s.workers[step.w].phase.verdict.Accepted?)
  {
  }

  /** A step changes the status of at most the delivery it concludes, and no key. */
  lemma RowsStep(s: State, step: Step, d: DeliveryId)
    requires Good(s) && Enabled(s, step) && d in s.db.deliveries
    ensures d in Apply(s, step).db.deliveries
    ensures Apply(s, step).db.deliveries[d].idempotencyKey == s.db.deliveries[d].idempotencyKey
    ensures Apply(s, step).db.deliveries[d].status != s.db.deliveries[d].status ==>
              step.Conclude? && d == s.workers[step.w].queue[0]
    ensures Apply(s, step).db.deliveries[d].status.Sent? && !s.db.deliveries[d].status.Sent? ==>
              step.Conclude? && s.workers[step.w].phase.verdict.Accepted?
  {
    if step.Conclude? { ConcludedRow(s, step, d); } else { QuietRows(s, step, d); }
  }

  lemma NewRow(s: State, step: Step)
    requires Good(s) && Enabled(s, step)
    ensures Apply(s, step).db.deliveries.Keys == s.db.deliveries.Keys + if step.Enqueue? then {step.id} else {}
  {
  }

  lemma SentStep(s: State, step: Step, d: DeliveryId)
    requires Good(s) && Enabled(s, step)
    requires d in Apply(s, step).db.deliveries && Apply(s, step).db.deliveries[d].status.Sent?
    ensures Posted(Apply(s, step).posts, d)
  {
    StepGrows(s, step);
    if d !in s.db.deliveries {
      NewRow(s, step);
    } else {
      RowsStep(s, step, d);
      if step.Conclude? { assert WorkerOk(s, step.w); }
      PostedGrows(s.posts, Apply(s, step).posts, d);
    }
  }

  lemma KeysStep(s: State, step: Step, d: DeliveryId, e: DeliveryId)
    requires Good(s) && Enabled(s, step)
    requires d in Apply(s, step).db.deliveries && e in Apply(s, step).db.deliveries && d != e
    ensures Apply(s, step).db.deliveries[d].idempotencyKey != Apply(s, step).db.deliveries[e].idempotencyKey
  {
    if d in s.db.deliveries { RowsStep(s, step, d); } else { NewRow(s, step); }
    if e in s.db.deliveries { RowsStep(s, step, e); } else { NewRow(s, step); }
  }

  lemma GoodStep(s: State, step: Step)
    requires Good(s) && TimeoutHolds(s) && Enabled(s, step)
    ensures Good(Apply(s, step))
  {
    LedgerStep(s, step);
    StepGrows(s, step);
    WorkersStep(s, step);
    PostsStep(s, step);
    var t := Apply(s, step);
    forall d | d in t.db.deliveries && t.db.deliveries[d].status.Sent? ensures Posted(t.posts, d) {
      SentStep(s, step, d);
    }
    forall d, e | d in t.db.deliveries && e in t.db.deliveries && d != e
      ensures t.db.deliveries[d].idempotencyKey != t.db.deliveries[e].idempotencyKey
    {
      KeysStep(s, step, d, e);
    }
  }

  /** The invariant of all runs: crashes, timeouts, retries and overrun leases included. */
  lemma {:induction false} RunIsGood(states: seq<State>, steps: seq<Step>, i: nat)
    requires Run(states, steps) && i < |states|
    ensures Good(states[i])
  {
    if i > 0 {
      RunIsGood(states, steps, i - 1);
      GoodStep(states[i - 1], steps[i - 1]);
      assert states[i - 1 + 1] == Apply(states[i - 1], steps[i - 1]);
    }
  }
}
