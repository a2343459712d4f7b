/** A delivery whose attempt comes too late: it expires, loses its context, and its retry has nothing to send. */
module OutboxExpiry {
  import opened Wrappers
  import opened OutboxTables
  import opened OutboxSystem
  import opened OutboxLeases
  import opened OutboxService

  /** A prompt run leads through `first`, after its first step, to `s`. */
  ghost predicate Reaches(first: State, s: State) {
    exists states, steps ::
      PromptRun(states, steps) && |states| > 1 && states[1] == first && states[|states| - 1] == s
  }

  lemma Extend(states: seq<State>, steps: seq<Step>, step: Step)
    requires PromptRun(states, steps) && Enabled(states[|states| - 1], step)
    requires var t := Apply(states[|states| - 1], step); TimeoutHolds(t) && Prompt(t)
    ensures PromptRun(states + [Apply(states[|states| - 1], step)], steps + [step])
  {
    var states', steps' := states + [Apply(states[|states| - 1], step)], steps + [step];
    forall i | 0 <= i < |steps'|
      ensures Enabled(states'[i], steps'[i]) && states'[i + 1] == Apply(states'[i], steps'[i])
    {
      if i < |steps| {
        assert states'[i] == states[i] && states'[i + 1] == states[i + 1] && steps'[i] == steps[i];
      }
    }
  }

  lemma Reach(first: State, s: State, step: Step, t: State)
    requires Reaches(first, s) && Enabled(s, step) && Apply(s, step) == t && TimeoutHolds(t) && Prompt(t)
    ensures Reaches(first, t)
  {
    var states, steps :| PromptRun(states, steps) && |states| > 1 && states[1] == first && states[|states| - 1] == s;
    Extend(states, steps, step);
    assert (states + [t])[1] == first;
  }

  const MAIL: DeliveryId := "d"
  const AGAIN: DeliveryId := "e"
  const LATE := REPLAY_WINDOW

  function QueuedRow(context: string): Delivery { NewDelivery("k", Some(context), 0) }
  function LeasedRow(context: string): Delivery {
    QueuedRow(context).(leaseOwner := Some("a"), leaseUntil := Some(LEASE))
  }
  function TriedRow(context: string): Delivery { LeasedRow(context).(attemptCount := 1) }
  function RetakenRow(context: string): Delivery {
    TriedRow(context).(leaseOwner := Some("b"), leaseUntil := Some(LATE + LEASE), updatedAt := LATE)
  }
  const EXPIRED_ROW := NewDelivery("k", None, 0).(
    status := Expired, attemptCount := 2, lastError := Some(WINDOW_EXPIRED.category), updatedAt := LATE)

  const FIRST := Attempt(MAIL, 1, Prepare, Started, None, 0, None)
  const CUT := FIRST.(outcome := Interrupted, finishedAt := Some(LATE))
  const SECOND_TRY := Attempt(MAIL, 2, Prepare, Started, None, LATE, None)
  const GIVEN_UP :=
    SECOND_TRY.(outcome := PermanentFailure, error := Some(WINDOW_EXPIRED.category), finishedAt := Some(LATE))

  function Table(row: Delivery, attempts: seq<Attempt>): Tables { Tables(map[MAIL := row], attempts) }
  function Idle(now: int, row: Delivery, attempts: seq<Attempt>): State { State(now, Table(row, attempts), map[], []) }
  function Early(row: Delivery, attempts: seq<Attempt>, phase: Phase): State {
    State(0, Table(row, attempts), map[0 := Worker(0, [MAIL], phase, 0, 0)], [])
  }
  function Late(row: Delivery, attempts: seq<Attempt>, phase: Phase): State {
    State(LATE, Table(row, attempts), map[1 := Worker(LATE, [MAIL], phase, 0, 0)], [])
  }

  lemma Queues(context: string)
    ensures Reaches(Idle(0, QueuedRow(context), []), Idle(0, QueuedRow(context), []))
  {
    assert TimeoutHolds(Initial) && Prompt(Initial);
    assert PromptRun([Initial], []);
    Extend([Initial], [], Enqueue(MAIL, "k", Some(context), 0));
    assert Apply(Initial, Enqueue(MAIL, "k", Some(context), 0)) == Idle(0, QueuedRow(context), []);
    assert ([Initial] + [Idle(0, QueuedRow(context), [])])[1] == Idle(0, QueuedRow(context), []);
  }

  lemma FirstClaims(context: string)
    ensures Reaches(Idle(0, QueuedRow(context), []), Early(LeasedRow(context), [], Queued))
  {
    Queues(context);
    var first := Idle(0, QueuedRow(context), []);
    assert [MAIL][..0] == [];
    assert ClaimRows(first.db, [], 0, "a") == first.db;
    Reach(first, first, Claim(0, [MAIL], "a", 0), Early(LeasedRow(context), [], Queued));
  }

  /** The first worker starts an attempt and dies. */
  lemma FirstDies(context: string)
    ensures Reaches(Idle(0, QueuedRow(context), []), Idle(LATE, TriedRow(context), [FIRST]))
  {
    FirstClaims(context);
    var first, tried := Idle(0, QueuedRow(context), []), TriedRow(context);
    Reach(first, Early(LeasedRow(context), [], Queued), Open(0, 0), Early(tried, [FIRST], Opened(0, 1)));
    Reach(first, Early(tried, [FIRST], Opened(0, 1)), Crash(0), Idle(0, tried, [FIRST]));
    Reach(first, Idle(0, tried, [FIRST]), Tick(LATE), Idle(LATE, tried, [FIRST]));
  }

  /** The second one claims the delivery 23 hours after the first attempt began. */
  lemma SecondClaims(context: string)
    ensures Reaches(Idle(0, QueuedRow(context), []), Late(RetakenRow(context), [CUT], Queued))
  {
    FirstDies(context);
    var s := Idle(LATE, TriedRow(context), [FIRST]);
    assert [MAIL][..0] == [];
    assert ClaimRows(s.db, [], LATE, "b") == s.db;
    assert InterruptStarted([FIRST], MAIL, LATE) == [CUT];
    Reach(Idle(0, QueuedRow(context), []), s, Claim(1, [MAIL], "b", LATE), Late(RetakenRow(context), [CUT], Queued));
  }

  function StaleRow(context: string): Delivery { RetakenRow(context).(attemptCount := 2) }

  const STALE := Timed(1, 2, LATE, Prepare, None, false)

  lemma SecondStarts(context: string)
    ensures Reaches(Idle(0, QueuedRow(context), []), Late(StaleRow(context), [CUT, SECOND_TRY], STALE))
  {
    SecondClaims(context);
    var first, opening := Idle(0, QueuedRow(context), []), Late(StaleRow(context), [CUT, SECOND_TRY], Opened(1, 2));
    Reach(first, Late(RetakenRow(context), [CUT], Queued), Open(1, LATE), opening);
    Reach(first, opening, Enter(1), Late(StaleRow(context), [CUT, SECOND_TRY], STALE));
  }

  lemma SecondGivesUp(context: string)
    ensures Reaches(Idle(0, QueuedRow(context), []), Idle(LATE, EXPIRED_ROW, [CUT, GIVEN_UP]))
  {
    SecondStarts(context);
    var first := Idle(0, QueuedRow(context), []);
    var row, attempts := StaleRow(context), [CUT, SECOND_TRY];
    assert attempts[..1] == [CUT] && [CUT][..0] == [];
    assert EarliestStart([CUT], MAIL) == Some(0);
    assert EarliestStart(attempts, MAIL) == Some(0);
    var settled := Late(row, attempts, Settled(1, 2, Prepare, WINDOW_EXPIRED));
    Reach(first, Late(row, attempts, STALE), Check(1, LATE), settled);
    Reach(first, settled, Conclude(1, LATE), Idle(LATE, EXPIRED_ROW, [CUT, GIVEN_UP]));
  }

  /** A retry of this delivery makes a successor of it in the last step, as RetryFailed does. */
  ghost predicate LosesContext(states: seq<State>, d: DeliveryId, successor: DeliveryId, token: string,
                               context: string)
  {
    && |states| > 2
    && d in states[1].db.deliveries && states[1].db.deliveries[d] == NewDelivery("k", Some(context), states[1].now)
    && var before, after := states[|states| - 2], states[|states| - 1];
       && d in before.db.deliveries && successor !in before.db.deliveries
       && before.db.deliveries[d].status.Expired? && Retryable(before.db.deliveries[d])
       && after.db.deliveries == before.db.deliveries[successor := NewDelivery(ManualKey(d, token), None, after.now)]
       && before.db.deliveries[d].context.None?
  }

  /**
   * Whatever context a delivery was enqueued with, there is a prompt run in which a late attempt lets it expire
   * and a retry, which is not refused, makes a successor without any.
   */
  lemma ExpiredLosesContext(context: string, token: string)
    ensures exists states, steps :: PromptRun(states, steps) && LosesContext(states, MAIL, AGAIN, token, context)
  {
    SecondGivesUp(context);
    var first, s := Idle(0, QueuedRow(context), []), Idle(LATE, EXPIRED_ROW, [CUT, GIVEN_UP]);
    var states, steps :| PromptRun(states, steps) && |states| > 1 && states[1] == first && states[|states| - 1] == s;
    var key := ManualKey(MAIL, token);
    assert key[0] == 'm' && "k"[0] == 'k';
    Extend(states, steps, Enqueue(AGAIN, key, s.db.deliveries[MAIL].context, LATE));
    var t := Apply(s, Enqueue(AGAIN, key, s.db.deliveries[MAIL].context, LATE));
    var states' := states + [t];
    assert |states'| - 2 == |states| - 1 && states'[|states'| - 2] == s && states'[|states'| - 1] == t;
    assert s != first;
    assert |states| != 2;
    assert LosesContext(states', MAIL, AGAIN, token, context);
  }
}
