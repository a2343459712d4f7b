/** The timing assumption is needed: finish_failure checks neither the lease nor the status of the row. */
module OutboxOverrun {
  import opened Wrappers
  import opened OutboxTables
  import opened OutboxSystem
  import opened OutboxLeases

  ghost predicate Reachable(s: State) {
    exists states, steps :: Run(states, steps) && states[|states| - 1] == s
  }

  lemma Start()
    ensures Reachable(Initial)
  {
    assert Run([Initial], []);
    assert [Initial][0] == Initial;
  }

  lemma Extend(s: State, step: Step)
    requires Reachable(s) && Enabled(s, step) && TimeoutHolds(Apply(s, step))
    ensures Reachable(Apply(s, step))
  {
    var t := Apply(s, step);
    var states, steps :| Run(states, steps) && states[|states| - 1] == s;
    var states', steps' := states + [t], steps + [step];
    forall i | 0 <= i < |steps'|
      ensures Enabled(states'[i], steps'[i]) && states'[i + 1] == Apply(states'[i], steps'[i])
    {
      if i < |steps| {
        assert states'[i] == states[i] && states'[i + 1] == states[i + 1] && steps'[i] == steps[i];
      }
    }
    assert Run(states', steps') && states'[|states'| - 1] == t;
  }

  lemma Reach(s: State, step: Step, t: State)
    requires Reachable(s) && Enabled(s, step) && Apply(s, step) == t && TimeoutHolds(t)
    ensures Reachable(t)
  {
    Extend(s, step);
  }

  const MAIL: DeliveryId := "d"
  const GAVE_UP := Refused("connection", true, false)

  // The delivery's row and its two attempts as the run moves on.
  const QUEUED_ROW := NewDelivery("k", None, 0)
  const LEASED_ROW := QUEUED_ROW.(leaseOwner := Some("a"), leaseUntil := Some(LEASE))
  const TRIED_ROW := LEASED_ROW.(attemptCount := 1)
  const RETAKEN_ROW := TRIED_ROW.(leaseOwner := Some("b"), leaseUntil := Some(LEASE + LEASE), updatedAt := LEASE)
  const RETRIED_ROW := RETAKEN_ROW.(attemptCount := 2)
  const SENT_ROW := RETRIED_ROW.(status := Sent, sentAt := Some(LEASE), leaseOwner := None, leaseUntil := None)
  const FIRST := Attempt(MAIL, 1, Prepare, Started, None, 0, None)
  const CUT := FIRST.(outcome := Interrupted, finishedAt := Some(LEASE))
  const SECOND_TRY := Attempt(MAIL, 2, Prepare, Started, None, LEASE, None)
  const DELIVERED := SECOND_TRY.(stage := Smtp, outcome := Succeeded, finishedAt := Some(LEASE))

  function Slow(phase: Phase): Worker { Worker(0, [MAIL], phase, 0, 0) }
  function Fast(phase: Phase): Worker { Worker(LEASE, [MAIL], phase, 0, 0) }
  function Timing(stage: Stage, checked: Option<int>, posted: bool): Phase { Timed(1, 2, LEASE, stage, checked, posted) }
  function Table(row: Delivery, attempts: seq<Attempt>): Tables { Tables(map[MAIL := row], attempts) }
  function Alone(now: int, db: Tables, phase: Phase): State { State(now, db, map[0 := Slow(phase)], []) }
  function Both(db: Tables, phase: Phase, posts: seq<Post>): State {
    State(LEASE, db, map[0 := Slow(STALLED), 1 := Fast(phase)], posts)
  }

  const STALLED := Settled(0, 1, Prepare, GAVE_UP)
  const POSTED := [Post(MAIL, ProviderKey(MAIL), LEASE)]

  lemma SlowClaims()
    ensures Reachable(Alone(0, Table(LEASED_ROW, []), Queued))
  {
    Start();
    var s := State(0, Table(QUEUED_ROW, []), map[], []);
    Reach(Initial, Enqueue(MAIL, "k", None, 0), s);
    assert [MAIL][..0] == [];
    assert ClaimRows(s.db, [], 0, "a") == s.db;
    Reach(s, Claim(0, [MAIL], "a", 0), Alone(0, Table(LEASED_ROW, []), Queued));
  }

  lemma SlowOpens()
    ensures Reachable(Alone(0, Table(TRIED_ROW, [FIRST]), Opened(0, 1)))
  {
    SlowClaims();
    Reach(Alone(0, Table(LEASED_ROW, []), Queued), Open(0, 0), Alone(0, Table(TRIED_ROW, [FIRST]), Opened(0, 1)));
  }

  lemma SlowEnters()
    ensures Reachable(Alone(0, Table(TRIED_ROW, [FIRST]), Timed(0, 1, 0, Prepare, None, false)))
  {
    SlowOpens();
    Reach(Alone(0, Table(TRIED_ROW, [FIRST]), Opened(0, 1)), Enter(0),
          Alone(0, Table(TRIED_ROW, [FIRST]), Timed(0, 1, 0, Prepare, None, false)));
  }

  /** Worker 0's attempt fails with a retryable error at time 0, and it stalls before it can record that. */
  lemma SlowStalls()
    ensures Reachable(Alone(LEASE, Table(TRIED_ROW, [FIRST]), STALLED))
  {
    SlowEnters();
    Reach(Alone(0, Table(TRIED_ROW, [FIRST]), Timed(0, 1, 0, Prepare, None, false)), Leave(0, GAVE_UP),
          Alone(0, Table(TRIED_ROW, [FIRST]), STALLED));
    Reach(Alone(0, Table(TRIED_ROW, [FIRST]), STALLED), Tick(LEASE), Alone(LEASE, Table(TRIED_ROW, [FIRST]), STALLED));
  }

  /** Worker 1 takes the expired lease over at 300 seconds. */
  lemma FastClaims()
    ensures Reachable(Both(Table(RETAKEN_ROW, [CUT]), Queued, []))
  {
    SlowStalls();
    var s := Alone(LEASE, Table(TRIED_ROW, [FIRST]), STALLED);
    assert [MAIL][..0] == [];
    assert ClaimRows(s.db, [], LEASE, "b") == s.db;
    assert InterruptStarted([FIRST], MAIL, LEASE) == [CUT];
    Reach(s, Claim(1, [MAIL], "b", LEASE), Both(Table(RETAKEN_ROW, [CUT]), Queued, []));
  }

  lemma FastEnters()
    ensures Reachable(Both(Table(RETRIED_ROW, [CUT, SECOND_TRY]), Timing(Prepare, None, false), []))
  {
    FastClaims();
    var db := Table(RETRIED_ROW, [CUT, SECOND_TRY]);
    Reach(Both(Table(RETAKEN_ROW, [CUT]), Queued, []), Open(1, LEASE), Both(db, Opened(1, 2), []));
    Reach(Both(db, Opened(1, 2), []), Enter(1), Both(db, Timing(Prepare, None, false), []));
  }

  lemma FastChecks()
    ensures Reachable(Both(Table(RETRIED_ROW, [CUT, SECOND_TRY]), Timing(Prepare, Some(LEASE), false), []))
  {
    FastEnters();
    var attempts := [CUT, SECOND_TRY];
    assert attempts[..1] == [CUT] && [CUT][..0] == [];
    assert EarliestStart([CUT], MAIL) == Some(0);
    assert EarliestStart(attempts, MAIL) == Some(0);
    Reach(Both(Table(RETRIED_ROW, attempts), Timing(Prepare, None, false), []), Check(1, LEASE),
          Both(Table(RETRIED_ROW, attempts), Timing(Prepare, Some(LEASE), false), []));
  }

  lemma FastRenders()
    ensures Reachable(Both(Table(RETRIED_ROW, [CUT, SECOND_TRY.(stage := Render)]), Timing(Render, Some(LEASE), false), []))
  {
    FastChecks();
    Reach(Both(Table(RETRIED_ROW, [CUT, SECOND_TRY]), Timing(Prepare, Some(LEASE), false), []), Advance(1),
          Both(Table(RETRIED_ROW, [CUT, SECOND_TRY.(stage := Render)]), Timing(Render, Some(LEASE), false), []));
  }

  lemma FastSends()
    ensures Reachable(Both(Table(RETRIED_ROW, [CUT, SECOND_TRY.(stage := Smtp)]), Timing(Smtp, Some(LEASE), true), POSTED))
  {
    FastRenders();
    var db := Table(RETRIED_ROW, [CUT, SECOND_TRY.(stage := Smtp)]);
    Reach(Both(Table(RETRIED_ROW, [CUT, SECOND_TRY.(stage := Render)]), Timing(Render, Some(LEASE), false), []), Advance(1),
          Both(db, Timing(Smtp, Some(LEASE), false), []));
    Reach(Both(db, Timing(Smtp, Some(LEASE), false), []), Send(1), Both(db, Timing(Smtp, Some(LEASE), true), POSTED));
  }

  const RESULT := State(LEASE, Table(SENT_ROW, [CUT, DELIVERED]), map[0 := Slow(STALLED)], POSTED)

  /** Worker 1 marks the delivery sent while worker 0 is still alive. */
  lemma FastConcludes()
    ensures Reachable(RESULT)
  {
    FastSends();
    var db := Table(RETRIED_ROW, [CUT, SECOND_TRY.(stage := Smtp)]);
    var settled := Both(db, Settled(1, 2, Smtp, Accepted), POSTED);
    Reach(Both(db, Timing(Smtp, Some(LEASE), true), POSTED), Leave(1, Accepted), settled);
    assert settled.workers - {1} == map[0 := Slow(STALLED)];
    Reach(settled, Conclude(1, LEASE), RESULT);
  }

  // ---------- what a step can do to a closed row ----------

  /** The step is about the delivery at the head of its worker's queue, whatever the row says by now. */
  predicate AtHead(s: State, step: Step, d: DeliveryId)
    requires Enabled(s, step)
  {
    (step.Open? || step.Conclude?) && d == s.workers[step.w].queue[0]
  }

  /** What a verdict makes of a row's status. */
  function StatusAfter(verdict: Verdict, no: nat): Status {
    if verdict.Accepted? then Sent
    else if ShouldRetry(verdict.retryable, no) then Pending
    else if verdict.expired then Expired
    else Failed
  }

  lemma HeadChanges(s: State, step: Step, d: DeliveryId)
    requires Enabled(s, step) && d in s.db.deliveries && AtHead(s, step, d)
    requires step.Conclude? ==> step.at != s.db.deliveries[d].updatedAt
    ensures d in Apply(s, step).db.deliveries && Apply(s, step).db.deliveries[d] != s.db.deliveries[d]
  {
  }

  /**
   * A step rewrites a closed row only by opening or concluding it at the head of a queue, and then always does,
   * unless the conclusion carries the very moment of the last change.
   */
  lemma ClosedRowChanges(s: State, step: Step, d: DeliveryId)
    requires Enabled(s, step) && d in s.db.deliveries && !s.db.deliveries[d].status.Pending?
    ensures d in Apply(s, step).db.deliveries
    ensures Apply(s, step).db.deliveries[d] != s.db.deliveries[d] ==> AtHead(s, step, d)
    ensures AtHead(s, step, d) && (step.Conclude? ==> step.at != s.db.deliveries[d].updatedAt) ==>
              Apply(s, step).db.deliveries[d] != s.db.deliveries[d]
  {
    if AtHead(s, step, d) {
      if step.Conclude? { ConcludedRow(s, step, d); } else { QuietRows(s, step, d); }
      if step.Conclude? ==> step.at != s.db.deliveries[d].updatedAt { HeadChanges(s, step, d); }
    } else if step.Conclude? {
      ConcludedRow(s, step, d);
    } else {
      ClosedRowKept(s, step, d);
    }
  }

  /** The status of a row after a step: only a conclusion at the head of a queue decides it, by its verdict alone. */
  lemma StatusStep(s: State, step: Step, d: DeliveryId)
    requires Enabled(s, step) && d in s.db.deliveries
    ensures d in Apply(s, step).db.deliveries
    ensures Apply(s, step).db.deliveries[d].status ==
            if step.Conclude? && AtHead(s, step, d)
            then StatusAfter(s.workers[step.w].phase.verdict, s.workers[step.w].phase.no)
            else s.db.deliveries[d].status
  {
    if step.Conclude? { ConcludedRow(s, step, d); } else { QuietRows(s, step, d); }
  }

  /** A step puts a row that is closed back to pending. */
  ghost predicate ReopensClosed(s: State, step: Step, d: DeliveryId) {
    && Enabled(s, step)
    && d in s.db.deliveries && !s.db.deliveries[d].status.Pending?
    && d in Apply(s, step).db.deliveries && Apply(s, step).db.deliveries[d].status.Pending?
  }

  /** Exactly when: a worker concludes it at the head of its queue with a retryable failure of one of the first four attempts. */
  lemma ReopensIff(s: State, step: Step, d: DeliveryId)
    requires Enabled(s, step) && d in s.db.deliveries && !s.db.deliveries[d].status.Pending?
    ensures ReopensClosed(s, step, d) <==>
            && step.Conclude? && AtHead(s, step, d)
            && s.workers[step.w].phase.verdict.Refused? && s.workers[step.w].phase.verdict.retryable
            && s.workers[step.w].phase.no < MAX_ATTEMPTS
  {
    StatusStep(s, step, d);
  }

  ghost predicate Reopens(s: State, step: Step, d: DeliveryId) {
    ReopensClosed(s, step, d) && s.db.deliveries[d].status.Sent?
  }

  /**
   * Without the timing assumption a closed row is not final: there is a run in which the late failure of a
   * stalled worker puts a delivery that is already sent back to pending.
   */
  lemma OverrunReopensSentRow()
    ensures exists s, step, d :: Reachable(s) && Reopens(s, step, d)
  {
    FastConcludes();
    var step := Conclude(0, LEASE);
    assert Reopens(RESULT, step, MAIL);
  }
}
