/** The dispatch loop is a path of the transition system, so what holds of every run holds of every dispatch. */
module OutboxRefinement {
  import opened Wrappers
  import opened OutboxTables
  import opened OutboxSystem
  import opened OutboxService

  /** Steps that are possible one after the other, with no timed block over its limit. */
  ghost predicate Path(s: State, steps: seq<Step>)
    decreases |steps|
  {
    TimeoutHolds(s) && (steps == [] || (Enabled(s, steps[0]) && Path(Apply(s, steps[0]), steps[1..])))
  }

  ghost function End(s: State, steps: seq<Step>): State
    requires Path(s, steps)
    decreases |steps|
  {
    if steps == [] then s else End(Apply(s, steps[0]), steps[1..])
  }

  lemma {:induction false} PathConcat(s: State, a: seq<Step>, b: seq<Step>)
    requires Path(s, a) && Path(End(s, a), b)
    ensures Path(s, a + b) && End(s, a + b) == End(End(s, a), b)
    decreases |a|
  {
    if a == [] {
      assert a + b == b;
    } else {
      assert (a + b)[1..] == a[1..] + b;
      PathConcat(Apply(s, a[0]), a[1..], b);
    }
  }

  lemma {:induction false} OneStep(s: State, step: Step)
    requires TimeoutHolds(s) && Enabled(s, step) && TimeoutHolds(Apply(s, step))
    ensures Path(s, [step]) && End(s, [step]) == Apply(s, step)
  {
    assert [step][1..] == [];
    assert Path(Apply(s, step), []);
  }

  /** Nobody else is inside a timed block. */
  ghost predicate Alone(s: State, w: WorkerId) {
    forall v :: v in s.workers && v != w ==> !s.workers[v].phase.Timed?
  }

  /** The clock readings of one dispatched delivery are in order, and the block ends in time. */
  predicate Timely(e: Execution, now: int) {
    now <= e.openedAt <= e.checkedAt <= e.openedAt + TIMEOUT && e.checkedAt <= e.concludedAt
  }

  /** The steps inside the timed block, after it was entered. */
  function BlockSteps(attempts: seq<Attempt>, id: DeliveryId, w: WorkerId, e: Execution): seq<Step> {
    if e.end.LostBeforeCheck? then [Leave(w, e.end.refused)]
    else if WindowPassed(attempts, id, e.checkedAt) then [Tick(e.checkedAt), Check(w, e.checkedAt)]
    else
      [Tick(e.checkedAt), Check(w, e.checkedAt)] + WorkSteps(w, e.end)
  }

  /** The work after a passed check, for each way it can end. */
  function WorkSteps(w: WorkerId, end: BlockEnd): seq<Step> {
    match end
    case LostBeforeCheck(v) => []
    case PreparationFails(v) => [Leave(w, v)]
    case StopsAtRender(v) => [Advance(w), Leave(w, v)]
    case StopsAtSmtp(v) => [Advance(w), Advance(w), Leave(w, v)]
    case ProviderAccepts => [Advance(w), Advance(w), Send(w), Leave(w, Accepted)]
  }

  function RowSteps(db: Tables, id: DeliveryId, w: WorkerId, e: Execution): seq<Step>
    requires id in db.deliveries
  {
    [Tick(e.openedAt), Open(w, e.openedAt), Enter(w)] +
    BlockSteps(OpenAttempt(db, id, e.openedAt).attempts, id, w, e) +
    [Tick(e.concludedAt), Conclude(w, e.concludedAt)]
  }

  /** The worker holds these deliveries and is about to open an attempt for the first. */
  ghost predicate Ready(s: State, w: WorkerId) {
    WorkerIn(s, w) && s.workers[w].phase.Queued? && Alone(s, w)
  }

  // ---------- the parts of one dispatch ----------

  /** Inside the block, with the attempt that was just opened. */
  ghost predicate Inside(s: State, w: WorkerId, k: nat, no: nat, entered: int, stage: Stage,
                         checked: Option<int>, posted: bool) {
    && WorkerIn(s, w) && Alone(s, w) && k < |s.db.attempts|
    && s.workers[w].phase == Timed(k, no, entered, stage, checked, posted)
    && entered <= s.now <= entered + TIMEOUT
  }

  lemma {:induction false} Opens(s: State, w: WorkerId, e: Execution)
    requires Ready(s, w) && Timely(e, s.now)
    ensures var steps := [Tick(e.openedAt), Open(w, e.openedAt), Enter(w)];
      var id := s.workers[w].queue[0];
      && Path(s, steps)
      && End(s, steps).db == OpenAttempt(s.db, id, e.openedAt) && End(s, steps).now == e.openedAt
      && End(s, steps).workers.Keys == s.workers.Keys && End(s, steps).workers[w].queue == s.workers[w].queue
      && Inside(End(s, steps), w, |s.db.attempts|, s.db.deliveries[id].attemptCount + 1, e.openedAt, Prepare, None, false)
  {
    var a, b, c := Tick(e.openedAt), Open(w, e.openedAt), Enter(w);
    var s1 := Apply(s, a);
    var s2 := Apply(s1, b);
    OneStep(s, a);
    OneStep(s1, b);
    OneStep(s2, c);
    PathConcat(s1, [b], [c]);
    PathConcat(s, [a], [b] + [c]);
    assert [a] + ([b] + [c]) == [a, b, c];
  }

  /** The block is over. */
  ghost predicate Outside(s: State, w: WorkerId, k: nat, no: nat, reached: Stage, verdict: Verdict) {
    && WorkerIn(s, w) && Alone(s, w) && k < |s.db.attempts| && no >= 1
    && s.workers[w].phase == Settled(k, no, reached, verdict)
  }

  /** Nothing but the worker's own phase, the clock and the posts has changed. */
  ghost predicate SameWork(s: State, t: State, w: WorkerId) {
    && t.workers.Keys == s.workers.Keys && w in s.workers
    && t.workers[w].queue == s.workers[w].queue
    && s.now <= t.now
  }

  lemma {:induction false} Leaves(s: State, w: WorkerId, k: nat, no: nat, entered: int, stage: Stage, checked: Option<int>,
               posted: bool, v: Verdict)
    requires Inside(s, w, k, no, entered, stage, checked, posted) && no >= 1 && (v.Accepted? ==> posted)
    ensures Path(s, [Leave(w, v)])
    ensures Outside(End(s, [Leave(w, v)]), w, k, no, stage, v) && SameWork(s, End(s, [Leave(w, v)]), w)
    ensures End(s, [Leave(w, v)]).db == s.db && End(s, [Leave(w, v)]).now == s.now
  {
    OneStep(s, Leave(w, v));
  }

  lemma {:induction false} Checks(s: State, w: WorkerId, k: nat, no: nat, entered: int, at: int)
    requires Inside(s, w, k, no, entered, Prepare, None, false) && no >= 1 && s.now <= at <= entered + TIMEOUT
    ensures var steps := [Tick(at), Check(w, at)];
      && Path(s, steps) && End(s, steps).db == s.db && SameWork(s, End(s, steps), w) && End(s, steps).now == at
      && if WindowPassed(s.db.attempts, s.workers[w].queue[0], at)
         then Outside(End(s, steps), w, k, no, Prepare, WINDOW_EXPIRED)
         else Inside(End(s, steps), w, k, no, entered, Prepare, Some(at), false)
  {
    var a, b := Tick(at), Check(w, at);
    OneStep(s, a);
    OneStep(Apply(s, a), b);
    PathConcat(s, [a], [b]);
    assert [a] + [b] == [a, b];
  }

  lemma {:induction false} Advances(s: State, w: WorkerId, k: nat, no: nat, entered: int, stage: Stage, checked: Option<int>)
    requires Inside(s, w, k, no, entered, stage, checked, false) && checked.Some? && !stage.Smtp?
    ensures Path(s, [Advance(w)]) && SameWork(s, End(s, [Advance(w)]), w)
    ensures Inside(End(s, [Advance(w)]), w, k, no, entered, NextStage(stage), checked, false)
    ensures End(s, [Advance(w)]).db == SetStage(s.db, k, NextStage(stage)) && End(s, [Advance(w)]).now == s.now
  {
    OneStep(s, Advance(w));
  }

  lemma {:induction false} Sends(s: State, w: WorkerId, k: nat, no: nat, entered: int, checked: Option<int>)
    requires Inside(s, w, k, no, entered, Smtp, checked, false) && checked.Some?
    ensures Path(s, [Send(w)]) && SameWork(s, End(s, [Send(w)]), w)
    ensures Inside(End(s, [Send(w)]), w, k, no, entered, Smtp, checked, true)
    ensures End(s, [Send(w)]).db == s.db && End(s, [Send(w)]).now == s.now
  {
    OneStep(s, Send(w));
  }

  /** The worker goes on with the rest of its queue. */
  ghost predicate MovesOn(t: State, w: WorkerId, rest: seq<DeliveryId>) {
    w in t.workers && t.workers[w].queue == rest && t.workers[w].phase.Queued? && Alone(t, w)
  }

  lemma {:induction false} Concludes(s: State, w: WorkerId, k: nat, no: nat, reached: Stage, v: Verdict, at: int)
    requires Outside(s, w, k, no, reached, v) && s.now <= at
    ensures var steps := [Tick(at), Conclude(w, at)];
      var queue := s.workers[w].queue;
      && Path(s, steps) && End(s, steps).db == Finish(s.db, queue[0], k, no, reached, v, at) && End(s, steps).now == at
      && (|queue| == 1 ==> End(s, steps).workers == s.workers - {w})
      && (|queue| > 1 ==> End(s, steps).workers.Keys == s.workers.Keys && MovesOn(End(s, steps), w, queue[1..]))
  {
    var a, b := Tick(at), Conclude(w, at);
    OneStep(s, a);
    OneStep(Apply(s, a), b);
    PathConcat(s, [a], [b]);
    assert [a] + [b] == [a, b];
  }

  // ---------- the block ----------

  /** Where a block of work leaves the attempt: only its stage may have moved. */
  ghost predicate Worked(s: State, t: State, w: WorkerId, k: nat, no: nat, result: (Stage, Verdict)) {
    && Outside(t, w, k, no, result.0, result.1) && SameWork(s, t, w) && k < |s.db.attempts|
    && (t.db == s.db || exists a: Stage :: t.db == SetStage(s.db, k, a))
  }

  lemma SetStageTwice(db: Tables, k: nat, a: Stage, b: Stage)
    requires k < |db.attempts|
    ensures SetStage(SetStage(db, k, a), k, b) == SetStage(db, k, b)
  {
  }

  lemma {:induction false} WorksToRender(s: State, w: WorkerId, k: nat, no: nat, entered: int, at: Option<int>, v: Verdict)
    requires Inside(s, w, k, no, entered, Prepare, at, false) && at.Some? && no >= 1 && v.Refused?
    ensures Path(s, [Advance(w), Leave(w, v)]) && Worked(s, End(s, [Advance(w), Leave(w, v)]), w, k, no, (Render, v))
    ensures End(s, [Advance(w), Leave(w, v)]).now == s.now
  {
    Advances(s, w, k, no, entered, Prepare, at);
    var s1 := End(s, [Advance(w)]);
    Leaves(s1, w, k, no, entered, Render, at, false, v);
    PathConcat(s, [Advance(w)], [Leave(w, v)]);
    assert [Advance(w)] + [Leave(w, v)] == [Advance(w), Leave(w, v)];
  }

  lemma {:induction false} ReachesSmtp(s: State, w: WorkerId, k: nat, no: nat, entered: int, at: Option<int>)
    requires Inside(s, w, k, no, entered, Prepare, at, false) && at.Some?
    ensures Path(s, [Advance(w), Advance(w)]) && SameWork(s, End(s, [Advance(w), Advance(w)]), w)
    ensures Inside(End(s, [Advance(w), Advance(w)]), w, k, no, entered, Smtp, at, false)
    ensures End(s, [Advance(w), Advance(w)]).db == SetStage(s.db, k, Smtp) && End(s, [Advance(w), Advance(w)]).now == s.now
  {
    Advances(s, w, k, no, entered, Prepare, at);
    var s1 := End(s, [Advance(w)]);
    Advances(s1, w, k, no, entered, Render, at);
    SetStageTwice(s.db, k, Render, Smtp);
    PathConcat(s, [Advance(w)], [Advance(w)]);
    assert [Advance(w)] + [Advance(w)] == [Advance(w), Advance(w)];
  }

  lemma {:induction false} WorksToSmtp(s: State, w: WorkerId, k: nat, no: nat, entered: int, at: Option<int>, v: Verdict)
    requires Inside(s, w, k, no, entered, Prepare, at, false) && at.Some? && no >= 1 && v.Refused?
    ensures Path(s, [Advance(w), Advance(w), Leave(w, v)])
    ensures Worked(s, End(s, [Advance(w), Advance(w), Leave(w, v)]), w, k, no, (Smtp, v))
    ensures End(s, [Advance(w), Advance(w), Leave(w, v)]).now == s.now
  {
    var front := [Advance(w), Advance(w)];
    ReachesSmtp(s, w, k, no, entered, at);
    Leaves(End(s, front), w, k, no, entered, Smtp, at, false, v);
    PathConcat(s, front, [Leave(w, v)]);
    assert front + [Leave(w, v)] == [Advance(w), Advance(w), Leave(w, v)];
  }

  lemma {:induction false} WorksToTheEnd(s: State, w: WorkerId, k: nat, no: nat, entered: int, at: Option<int>)
    requires Inside(s, w, k, no, entered, Prepare, at, false) && at.Some? && no >= 1
    ensures Path(s, [Advance(w), Advance(w), Send(w), Leave(w, Accepted)])
    ensures Worked(s, End(s, [Advance(w), Advance(w), Send(w), Leave(w, Accepted)]), w, k, no, (Smtp, Accepted))
    ensures End(s, [Advance(w), Advance(w), Send(w), Leave(w, Accepted)]).now == s.now
  {
    var front, back := [Advance(w), Advance(w)], [Send(w)] + [Leave(w, Accepted)];
    ReachesSmtp(s, w, k, no, entered, at);
    var s1 := End(s, front);
    Sends(s1, w, k, no, entered, at);
    Leaves(End(s1, [Send(w)]), w, k, no, entered, Smtp, at, true, Accepted);
    PathConcat(s1, [Send(w)], [Leave(w, Accepted)]);
    PathConcat(s, front, back);
    assert front + back == [Advance(w), Advance(w), Send(w), Leave(w, Accepted)];
  }

  lemma {:induction false} Works(s: State, w: WorkerId, k: nat, no: nat, entered: int, at: Option<int>, end: BlockEnd)
    requires Inside(s, w, k, no, entered, Prepare, at, false) && at.Some? && no >= 1
    requires !end.LostBeforeCheck? && (end.ProviderAccepts? || end.refused.Refused?)
    ensures Path(s, WorkSteps(w, end))
    ensures var result := match end
        case PreparationFails(v) => (Prepare, v)
        case StopsAtRender(v) => (Render, v)
        case StopsAtSmtp(v) => (Smtp, v)
        case ProviderAccepts => (Smtp, Accepted)
        case LostBeforeCheck(v) => (Prepare, v);
      Worked(s, End(s, WorkSteps(w, end)), w, k, no, result)
    ensures End(s, WorkSteps(w, end)).now == s.now
  {
    match end
    case PreparationFails(v) => Leaves(s, w, k, no, entered, Prepare, at, false, v);
    case StopsAtRender(v) => WorksToRender(s, w, k, no, entered, at, v);
    case StopsAtSmtp(v) => WorksToSmtp(s, w, k, no, entered, at, v);
    case ProviderAccepts => WorksToTheEnd(s, w, k, no, entered, at);
    case LostBeforeCheck(_) =>
  }

  lemma {:induction false} Blocks(s: State, w: WorkerId, k: nat, no: nat, e: Execution)
    requires Inside(s, w, k, no, e.openedAt, Prepare, None, false) && no >= 1 && s.now == e.openedAt
    requires Timely(e, e.openedAt) && ExecutionOk(e)
    ensures var id := s.workers[w].queue[0];
      var steps := BlockSteps(s.db.attempts, id, w, e);
      && Path(s, steps) && Worked(s, End(s, steps), w, k, no, BlockResult(s.db.attempts, id, e))
      && End(s, steps).now <= e.checkedAt
  {
    var id := s.workers[w].queue[0];
    if e.end.LostBeforeCheck? {
      Leaves(s, w, k, no, e.openedAt, Prepare, None, false, e.end.refused);
    } else {
      var check := [Tick(e.checkedAt), Check(w, e.checkedAt)];
      Checks(s, w, k, no, e.openedAt, e.checkedAt);
      if !WindowPassed(s.db.attempts, id, e.checkedAt) {
        Works(End(s, check), w, k, no, e.openedAt, Some(e.checkedAt), e.end);
        PathConcat(s, check, WorkSteps(w, e.end));
      }
    }
  }

  // ---------- one delivery ----------

  lemma FinishForgetsStage(db: Tables, id: DeliveryId, k: nat, no: nat, a: Stage, reached: Stage, v: Verdict, at: int)
    requires id in db.deliveries && k < |db.attempts| && no >= 1
    ensures Finish(SetStage(db, k, a), id, k, no, reached, v, at) == Finish(db, id, k, no, reached, v, at)
  {
  }

  /** From inside the block to the conclusion. */
  lemma {:induction false} BlockAndConclusion(s: State, w: WorkerId, k: nat, no: nat, e: Execution)
    requires Inside(s, w, k, no, e.openedAt, Prepare, None, false) && no >= 1 && s.now == e.openedAt
    requires Timely(e, e.openedAt) && ExecutionOk(e)
    ensures var queue := s.workers[w].queue;
      var steps := BlockSteps(s.db.attempts, queue[0], w, e) + [Tick(e.concludedAt), Conclude(w, e.concludedAt)];
      var result := BlockResult(s.db.attempts, queue[0], e);
      && Path(s, steps) && End(s, steps).now == e.concludedAt
      && End(s, steps).db == Finish(s.db, queue[0], k, no, result.0, result.1, e.concludedAt)
      && End(s, steps).workers.Keys == (if |queue| == 1 then s.workers.Keys - {w} else s.workers.Keys)
      && (|queue| > 1 ==> MovesOn(End(s, steps), w, queue[1..]))
  {
    var id := s.workers[w].queue[0];
    var block, back := BlockSteps(s.db.attempts, id, w, e), [Tick(e.concludedAt), Conclude(w, e.concludedAt)];
    var result := BlockResult(s.db.attempts, id, e);
    Blocks(s, w, k, no, e);
    var t := End(s, block);
    Concludes(t, w, k, no, result.0, result.1, e.concludedAt);
    PathConcat(s, block, back);
    if t.db != s.db {
      var a: Stage :| t.db == SetStage(s.db, k, a);
      FinishForgetsStage(s.db, id, k, no, a, result.0, result.1, e.concludedAt);
    }
  }

  /** What is left to do after a delivery: the rest of the queue, with the tables as DispatchRow leaves them. */
  ghost predicate Dispatched(s: State, t: State, w: WorkerId, e: Execution)
    requires WorkerIn(s, w) && ExecutionOk(e)
  {
    var queue := s.workers[w].queue;
    && t.db == DispatchRow(s.db, queue[0], e) && t.now == e.concludedAt
    && t.workers.Keys == (if |queue| == 1 then s.workers.Keys - {w} else s.workers.Keys)
    && (|queue| > 1 ==> MovesOn(t, w, queue[1..]))
  }

  /** Dispatching one delivery is a path of the system. */
  lemma {:induction false} DispatchIsPath(s: State, w: WorkerId, e: Execution)
    requires Ready(s, w) && ExecutionOk(e) && Timely(e, s.now)
    ensures var steps := RowSteps(s.db, s.workers[w].queue[0], w, e);
      Path(s, steps) && Dispatched(s, End(s, steps), w, e)
  {
    var id := s.workers[w].queue[0];
    var front := [Tick(e.openedAt), Open(w, e.openedAt), Enter(w)];
    Opens(s, w, e);
    var t := End(s, front);
    BlockAndConclusion(t, w, |s.db.attempts|, s.db.deliveries[id].attemptCount + 1, e);
    var rest := BlockSteps(t.db.attempts, id, w, e) + [Tick(e.concludedAt), Conclude(w, e.concludedAt)];
    PathConcat(s, front, rest);
    assert front + rest == RowSteps(s.db, id, w, e);
  }

  // ---------- a whole run of the dispatcher ----------

  /** The clock readings of the batch are in order. */
  predicate TimelyBatch(es: seq<Execution>, n: nat, now: int)
    requires n <= |es|
  {
    n == 0 || (TimelyBatch(es, n - 1, now) && ExecutionOk(es[n - 1]) && Timely(es[n - 1], if n == 1 then now else es[n - 2].concludedAt))
  }

  /** After n of the claimed deliveries. */
  ghost predicate Progress(s: State, t: State, w: WorkerId, rows: seq<DeliveryId>, es: seq<Execution>, n: nat)
    requires n <= |rows| <= |es| && (forall i :: 0 <= i < |es| ==> ExecutionOk(es[i]))
  {
    && (forall d :: d in rows ==> d in s.db.deliveries)
    && t.db == DispatchRows(s.db, rows[..n], es)
    && t.now == (if n == 0 then s.now else es[n - 1].concludedAt)
    && (n < |rows| ==> MovesOn(t, w, rows[n..]))
    && t.workers.Keys == (if n == |rows| then s.workers.Keys - {w} else s.workers.Keys)
  }

  lemma NextRow(s: State, t: State, w: WorkerId, rows: seq<DeliveryId>, es: seq<Execution>, n: nat)
    requires n < |rows| <= |es| && (forall i :: 0 <= i < |es| ==> ExecutionOk(es[i]))
    requires Progress(s, t, w, rows, es, n) && TimelyBatch(es, n + 1, s.now)
    ensures Ready(t, w)
    ensures var steps := RowSteps(t.db, rows[n], w, es[n]);
      Path(t, steps) && Progress(s, End(t, steps), w, rows, es, n + 1)
  {
    assert rows[n] in rows && rows[n..][0] == rows[n];
    DispatchIsPath(t, w, es[n]);
    DispatchRowsStep(s.db, rows, es, n);
    assert rows[n..][1..] == rows[n + 1..];
  }

  lemma NoRowsYet(s: State, w: WorkerId, rows: seq<DeliveryId>, es: seq<Execution>)
    requires 1 <= |rows| <= |es| && (forall i :: 0 <= i < |es| ==> ExecutionOk(es[i]))
    requires Ready(s, w) && s.workers[w].queue == rows && (forall d :: d in rows ==> d in s.db.deliveries)
    ensures Progress(s, s, w, rows, es, 0)
  {
    assert rows[0..] == rows && rows[..0] == [];
  }

  lemma OneMoreRow(s: State, before: seq<Step>, w: WorkerId, rows: seq<DeliveryId>, es: seq<Execution>, n: nat)
    returns (steps: seq<Step>)
    requires n < |rows| <= |es| && (forall i :: 0 <= i < |es| ==> ExecutionOk(es[i])) && TimelyBatch(es, n + 1, s.now)
    requires Path(s, before) && Progress(s, End(s, before), w, rows, es, n)
    ensures Path(s, steps) && Progress(s, End(s, steps), w, rows, es, n + 1)
  {
    var t := End(s, before);
    NextRow(s, t, w, rows, es, n);
    var more := RowSteps(t.db, rows[n], w, es[n]);
    PathConcat(s, before, more);
    steps := before + more;
  }

  /** Dispatching the whole queue is a path of the system, and its end holds the tables that DispatchRows computes. */
  lemma {:induction false} BatchIsPath(s: State, w: WorkerId, rows: seq<DeliveryId>, es: seq<Execution>, n: nat)
    returns (steps: seq<Step>)
    requires n <= |rows| <= |es| && 1 <= |rows| && (forall i :: 0 <= i < |es| ==> ExecutionOk(es[i]))
    requires TimelyBatch(es, n, s.now)
    requires Ready(s, w) && s.workers[w].queue == rows
    requires (forall d :: d in rows ==> d in s.db.deliveries) && TimeoutHolds(s)
    ensures Path(s, steps) && Progress(s, End(s, steps), w, rows, es, n)
  {
    if n == 0 {
      NoRowsYet(s, w, rows, es);
      steps := [];
    } else {
      var before := BatchIsPath(s, w, rows, es, n - 1);
      steps := OneMoreRow(s, before, w, rows, es, n - 1);
    }
  }

  /** A claim at this moment. */
  lemma {:induction false} Claims(s: State, w: WorkerId, rows: seq<DeliveryId>, owner: string, now: int, batch: nat,
               locked: set<DeliveryId>)
    requires w !in s.workers && Alone(s, w) && TimeoutHolds(s) && s.now <= now
    requires 1 <= |rows| <= batch <= MAX_BATCH && Selected(s.db, batch, now, locked, rows)
    ensures forall d :: d in rows ==> d in s.db.deliveries
    ensures var steps := [Tick(now), Claim(w, rows, owner, now)];
      && Path(s, steps) && TimeoutHolds(End(s, steps)) && End(s, steps).now == now
      && End(s, steps).db == ClaimRows(s.db, rows, now, owner)
      && Ready(End(s, steps), w) && End(s, steps).workers[w].queue == rows
      && End(s, steps).workers.Keys == s.workers.Keys + {w}
  {
    var a, b := Tick(now), Claim(w, rows, owner, now);
    var s1 := Apply(s, a);
    forall d | d in rows ensures d in s.db.deliveries && Due(s.db.deliveries[d], now) {
      assert Claimable(s.db, now, locked, d);
    }
    OneStep(s, a);
    OneStep(s1, b);
    PathConcat(s, [a], [b]);
    assert [a] + [b] == [a, b];
    assert rows[0] in rows;
  }

  /** A path that leaves these tables, and no worker that was not there before. */
  ghost predicate Achieves(s: State, steps: seq<Step>, db: Tables) {
    Path(s, steps) && End(s, steps).db == db && End(s, steps).workers.Keys == s.workers.Keys
  }

  lemma ClaimedBatch(s: State, w: WorkerId, rows: seq<DeliveryId>, owner: string, now: int, batch: nat,
                     locked: set<DeliveryId>, es: seq<Execution>) returns (steps: seq<Step>)
    requires w !in s.workers && Alone(s, w) && TimeoutHolds(s) && s.now <= now
    requires 1 <= |rows| <= batch <= MAX_BATCH && Selected(s.db, batch, now, locked, rows)
    requires |rows| <= |es| && (forall i :: 0 <= i < |es| ==> ExecutionOk(es[i])) && TimelyBatch(es, |rows|, now)
    ensures forall d :: d in rows ==> d in s.db.deliveries
    ensures Achieves(s, steps, DispatchRows(ClaimRows(s.db, rows, now, owner), rows, es))
  {
    var claim := [Tick(now), Claim(w, rows, owner, now)];
    Claims(s, w, rows, owner, now, batch, locked);
    var t := End(s, claim);
    var rest := BatchIsPath(t, w, rows, es, |rows|);
    PathConcat(s, claim, rest);
    assert rows[..|rows|] == rows;
    steps := claim + rest;
  }

  /**
   * A dispatch run that nobody interferes with: from any state without a block under way, claiming and then
   * dispatching the batch is a path of the system that ends with exactly the tables DispatchDue leaves.
   */
  lemma {:induction false} DispatchDueIsPath(s: State, w: WorkerId, rows: seq<DeliveryId>, owner: string, now: int, batch: nat,
                          locked: set<DeliveryId>, es: seq<Execution>)
    requires w !in s.workers && Alone(s, w) && TimeoutHolds(s) && s.now <= now
    requires 1 <= |rows| <= batch <= MAX_BATCH && Selected(s.db, batch, now, locked, rows)
    requires |rows| <= |es| && (forall i :: 0 <= i < |es| ==> ExecutionOk(es[i])) && TimelyBatch(es, |rows|, now)
    ensures forall d :: d in rows ==> d in s.db.deliveries
    ensures exists steps :: Achieves(s, steps, DispatchRows(ClaimRows(s.db, rows, now, owner), rows, es))
  {
    var steps := ClaimedBatch(s, w, rows, owner, now, batch, locked, es);
  }

  // ---------- runs ----------

  function Last(states: seq<State>): State
    requires states != []
  {
    states[|states| - 1]
  }

  /** A run that goes on after `steps` with `more`, and ends where that path ends. */
  ghost predicate Continues(longer: seq<State>, steps: seq<Step>, from: State, more: seq<Step>)
    requires Path(from, more)
  {
    Run(longer, steps + more) && Last(longer) == End(from, more)
  }

  /** A path continues a run. */
  lemma {:induction false} RunGoesOn(states: seq<State>, steps: seq<Step>, more: seq<Step>)
    requires Run(states, steps) && Path(Last(states), more)
    ensures exists longer :: Continues(longer, steps, Last(states), more)
    decreases |more|
  {
    var from := Last(states);
    if more == [] {
      assert steps + more == steps;
      assert Continues(states, steps, from, more);
    } else {
      var next := Apply(from, more[0]);
      var states', steps' := states + [next], steps + [more[0]];
      assert Path(next, more[1..]);
      assert Run(states', steps');
      RunGoesOn(states', steps', more[1..]);
      var longer :| Continues(longer, steps', next, more[1..]);
      assert steps' + more[1..] == steps + more;
      assert Continues(longer, steps, from, more);
    }
  }
}
