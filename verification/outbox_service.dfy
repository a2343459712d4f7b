/** The repository and the dispatch loop as they run: in place, one transaction after the other. */
module OutboxService {
  import opened Wrappers
  import opened OutboxTables
  import opened OutboxSystem

  /** The order of the claim query: next_attempt_at, then created_at. */
  predicate NotAfter(a: Delivery, b: Delivery) {
    a.nextAttemptAt < b.nextAttemptAt || (a.nextAttemptAt == b.nextAttemptAt && a.createdAt <= b.createdAt)
  }

  predicate Claimable(db: Tables, now: int, locked: set<DeliveryId>, d: DeliveryId) {
    d in db.deliveries && d !in locked && Due(db.deliveries[d], now)
  }

  ghost predicate Ordered(db: Tables, rows: seq<DeliveryId>) {
    forall i, j :: 0 <= i < j < |rows| ==>
      rows[i] in db.deliveries && rows[j] in db.deliveries && NotAfter(db.deliveries[rows[i]], db.deliveries[rows[j]])
  }

  /** What `order by ... limit ... for update skip locked` returns. */
  ghost predicate Selected(db: Tables, batch: nat, now: int, locked: set<DeliveryId>, rows: seq<DeliveryId>) {
    && |rows| <= batch
    && Distinct(rows)
    && (forall d :: d in rows ==> Claimable(db, now, locked, d))
    && Ordered(db, rows)
    && (forall d :: Claimable(db, now, locked, d) && d !in rows ==>
          |rows| == batch && forall e :: e in rows ==> NotAfter(db.deliveries[e], db.deliveries[d]))
  }

  ghost function StartedOf(attempts: seq<Attempt>, id: DeliveryId): nat {
    if attempts == [] then 0
    else
      var front, last := attempts[..|attempts| - 1], attempts[|attempts| - 1];
      StartedOf(front, id) + if last.deliveryId == id && last.outcome.Started? then 1 else 0
  }

  /** How many attempts a claim interrupts. */
  ghost function Interruptions(db: Tables, rows: seq<DeliveryId>): nat
    requires forall d :: d in rows ==> d in db.deliveries
  {
    if rows == [] then 0
    else
      var front, last := rows[..|rows| - 1], rows[|rows| - 1];
      Interruptions(db, front) + if db.deliveries[last].leaseUntil.Some? then StartedOf(db.attempts, last) else 0
  }

  lemma {:induction false} StartedOfSame(a: seq<Attempt>, b: seq<Attempt>, id: DeliveryId)
    requires |a| == |b|
    requires forall i :: 0 <= i < |a| ==> a[i].deliveryId == b[i].deliveryId
    requires forall i :: 0 <= i < |a| && a[i].deliveryId == id ==> a[i] == b[i]
    ensures StartedOf(a, id) == StartedOf(b, id)
  {
    if a != [] {
      StartedOfSame(a[..|a| - 1], b[..|b| - 1], id);
    }
  }

  /** Claiming the next row sees it as it was before the claim began. */
  lemma {:induction false} ClaimPrefix(db: Tables, rows: seq<DeliveryId>, k: nat, now: int, owner: string)
    requires k < |rows| && Distinct(rows) && forall d :: d in rows ==> d in db.deliveries
    ensures var mid := ClaimRows(db, rows[..k], now, owner);
      && ClaimRows(db, rows[..k + 1], now, owner) == ClaimRow(mid, rows[k], now, owner)
      && mid.deliveries[rows[k]] == db.deliveries[rows[k]]
      && Interruptions(db, rows[..k + 1]) == Interruptions(db, rows[..k]) +
           if mid.deliveries[rows[k]].leaseUntil.Some? then StartedOf(mid.attempts, rows[k]) else 0
  {
    assert rows[..k + 1][..k] == rows[..k] && rows[..k + 1][k] == rows[k];
    ClaimEffect(db, rows[..k], now, owner);
    var mid := ClaimRows(db, rows[..k], now, owner);
    assert rows[k] !in rows[..k];
    StartedOfSame(mid.attempts, db.attempts, rows[k]);
  }

  // ---------- one attempt ----------

  /** How the work inside the timed block ends, and how far it got. */
  datatype BlockEnd =
    | LostBeforeCheck(refused: Verdict)
    | PreparationFails(refused: Verdict)
    | StopsAtRender(refused: Verdict)
    | StopsAtSmtp(refused: Verdict)
    | ProviderAccepts

  /** The clock readings and the outside events of one dispatched delivery. */
  datatype Execution = Execution(openedAt: int, checkedAt: int, end: BlockEnd, concludedAt: int)

  predicate ExecutionOk(e: Execution) {
    e.end.ProviderAccepts? || e.end.refused.Refused?
  }

  datatype Report = SentReport | RetryingReport | FailedReport | ExpiredReport

  function ReportOf(status: Status): Report {
    match status
    case Sent => SentReport
    case Pending => RetryingReport
    case Failed => FailedReport
    case Expired => ExpiredReport
  }

  predicate WindowPassed(attempts: seq<Attempt>, id: DeliveryId, now: int) {
    var first := EarliestStart(attempts, id);
    first.Some? && now - first.value >= REPLAY_WINDOW
  }

  /** The stage an attempt reaches and its verdict. */
  function BlockResult(attempts: seq<Attempt>, id: DeliveryId, e: Execution): (Stage, Verdict)
    requires ExecutionOk(e)
  {
    if e.end.LostBeforeCheck? then (Prepare, e.end.refused)
    else if WindowPassed(attempts, id, e.checkedAt) then (Prepare, WINDOW_EXPIRED)
    else match e.end
      case PreparationFails(v) => (Prepare, v)
      case StopsAtRender(v) => (Render, v)
      case StopsAtSmtp(v) => (Smtp, v)
      case ProviderAccepts => (Smtp, Accepted)
  }

  function DispatchRow(db: Tables, id: DeliveryId, e: Execution): Tables
    requires id in db.deliveries && ExecutionOk(e)
  {
    var after := OpenAttempt(db, id, e.openedAt);
    var (stage, verdict) := BlockResult(after.attempts, id, e);
    Finish(after, id, |db.attempts|, db.deliveries[id].attemptCount + 1, stage, verdict, e.concludedAt)
  }

  function DispatchRows(db: Tables, rows: seq<DeliveryId>, es: seq<Execution>): (r: Tables)
    requires forall d :: d in rows ==> d in db.deliveries
    requires |rows| <= |es| && forall i :: 0 <= i < |es| ==> ExecutionOk(es[i])
    ensures r.deliveries.Keys == db.deliveries.Keys
  {
    if rows == [] then db
    else DispatchRow(DispatchRows(db, rows[..|rows| - 1], es), rows[|rows| - 1], es[|rows| - 1])
  }

  lemma {:induction false} DispatchTouchesOnlyRows(db: Tables, rows: seq<DeliveryId>, es: seq<Execution>, d: DeliveryId)
    requires forall k :: k in rows ==> k in db.deliveries
    requires |rows| <= |es| && forall i :: 0 <= i < |es| ==> ExecutionOk(es[i])
    requires d in db.deliveries && d !in rows
    ensures DispatchRows(db, rows, es).deliveries[d] == db.deliveries[d]
  {
    if rows != [] {
      DispatchTouchesOnlyRows(db, rows[..|rows| - 1], es, d);
    }
  }

  ghost function CountStatus(db: Tables, rows: seq<DeliveryId>, status: Status): nat {
    if rows == [] then 0
    else
      var last := rows[|rows| - 1];
      CountStatus(db, rows[..|rows| - 1], status) +
        if last in db.deliveries && db.deliveries[last].status == status then 1 else 0
  }

  lemma {:induction false} CountStatusFrame(a: Tables, b: Tables, rows: seq<DeliveryId>, status: Status)
    requires forall d :: d in rows ==> d in a.deliveries && d in b.deliveries && a.deliveries[d] == b.deliveries[d]
    ensures CountStatus(a, rows, status) == CountStatus(b, rows, status)
  {
    if rows != [] {
      CountStatusFrame(a, b, rows[..|rows| - 1], status);
    }
  }

  /** Dispatching the next row adds one to the count of the status it ends with, and moves no other count. */
  lemma {:induction false} Tally(before: Tables, rows: seq<DeliveryId>, i: nat, e: Execution, status: Status)
    requires i < |rows| && Distinct(rows) && ExecutionOk(e) && forall d :: d in rows ==> d in before.deliveries
    ensures CountStatus(DispatchRow(before, rows[i], e), rows[..i + 1], status)
         == CountStatus(before, rows[..i], status) +
              if DispatchRow(before, rows[i], e).deliveries[rows[i]].status == status then 1 else 0
  {
    var after := DispatchRow(before, rows[i], e);
    assert rows[..i + 1][..i] == rows[..i] && rows[..i + 1][i] == rows[i];
    forall d | d in rows[..i] ensures d in after.deliveries && after.deliveries[d] == before.deliveries[d] {
      assert d != rows[i];
    }
    CountStatusFrame(before, after, rows[..i], status);
  }

  /** The four counters after these rows. */
  ghost predicate Tallied(db: Tables, rows: seq<DeliveryId>, sent: nat, retrying: nat, failed: nat, expired: nat)
    requires forall d :: d in rows ==> d in db.deliveries
  {
    && sent == CountStatus(db, rows, Sent) && retrying == CountStatus(db, rows, Pending)
    && failed == CountStatus(db, rows, Failed) && expired == CountStatus(db, rows, Expired)
    && sent + retrying + failed + expired == |rows|
  }

  function One(b: bool): nat { if b then 1 else 0 }

  lemma TallyStep(before: Tables, rows: seq<DeliveryId>, i: nat, e: Execution,
                  sent: nat, retrying: nat, failed: nat, expired: nat)
    requires i < |rows| && Distinct(rows) && ExecutionOk(e) && forall d :: d in rows ==> d in before.deliveries
    requires Tallied(before, rows[..i], sent, retrying, failed, expired)
    ensures var report := ReportOf(DispatchRow(before, rows[i], e).deliveries[rows[i]].status);
      Tallied(DispatchRow(before, rows[i], e), rows[..i + 1], sent + One(report == SentReport),
              retrying + One(report == RetryingReport), failed + One(report == FailedReport),
              expired + One(report == ExpiredReport))
  {
    Tally(before, rows, i, e, Sent);
    Tally(before, rows, i, e, Pending);
    Tally(before, rows, i, e, Failed);
    Tally(before, rows, i, e, Expired);
  }

  lemma {:induction false} DispatchRowsStep(db: Tables, rows: seq<DeliveryId>, es: seq<Execution>, n: nat)
    requires n < |rows| <= |es| && (forall i :: 0 <= i < |es| ==> ExecutionOk(es[i]))
    requires forall d :: d in rows ==> d in db.deliveries
    ensures DispatchRows(db, rows[..n + 1], es) == DispatchRow(DispatchRows(db, rows[..n], es), rows[n], es[n])
  {
    assert rows[..n + 1][..n] == rows[..n] && rows[..n + 1][n] == rows[n];
  }

  /** The first attempt of the delivery, this one included, began 23 hours or more before the check. */
  predicate TooLate(db: Tables, id: DeliveryId, e: Execution) {
    var first := EarliestStart(db.attempts, id);
    e.checkedAt - (if first.Some? && first.value <= e.openedAt then first.value else e.openedAt) >= 23 * 3600 * 1_000_000
  }

  lemma LateIff(db: Tables, id: DeliveryId, e: Execution)
    requires id in db.deliveries
    ensures WindowPassed(OpenAttempt(db, id, e.openedAt).attempts, id, e.checkedAt) <==> TooLate(db, id, e)
  {
    var after := OpenAttempt(db, id, e.openedAt);
    assert after.attempts[..|db.attempts|] == db.attempts;
  }

  /** The stages that the new attempt's row shows in turn: nothing is rendered or sent before the check has passed. */
  function StagesWritten(db: Tables, id: DeliveryId, e: Execution): seq<(nat, Stage)> {
    var k := |db.attempts|;
    if e.end.LostBeforeCheck? || TooLate(db, id, e) || e.end.PreparationFails? then []
    else if e.end.StopsAtRender? then [(k, Render)]
    else [(k, Render), (k, Smtp)]
  }

  datatype RetryError = NotFound | Conflict

  /** What an administrator may send again. */
  predicate Retryable(row: Delivery) {
    row.status.Failed? || (row.status.Expired? && row.lastError == Some(WINDOW_EXPIRED.category))
  }

  /** The key of a successor; the token is a fresh UUID. */
  function ManualKey(id: DeliveryId, token: string): string {
    "manual:" + id + ":" + token
  }

  datatype Summary = Summary(claimed: nat, sent: nat, retrying: nat, failed: nat, expired: nat, interrupted: nat, ids: seq<DeliveryId>)

  class EmailOutbox {
    var deliveries: map<DeliveryId, Delivery>
    var attempts: seq<Attempt>
    const dispatchEnabled: bool
    /** The stages written while attempts were under way, each in a transaction of its own. */
    ghost var stageWrites: seq<(nat, Stage)>

    constructor (dispatchEnabled: bool)
      ensures this.dispatchEnabled == dispatchEnabled && Db() == Tables(map[], [])
    {
      this.dispatchEnabled := dispatchEnabled;
      deliveries := map[];
      attempts := [];
      stageWrites := [];
    }

    function Db(): Tables
      reads this
    {
      Tables(deliveries, attempts)
    }

    method FindKey(key: string) returns (found: Option<DeliveryId>)
      ensures found.Some? ==> found.value in deliveries && deliveries[found.value].idempotencyKey == key
      ensures found.None? ==> forall d :: d in deliveries ==> deliveries[d].idempotencyKey != key
    {
      var rest := deliveries.Keys;
      while rest != {}
        invariant rest <= deliveries.Keys
        invariant forall d :: d in deliveries && d !in rest ==> deliveries[d].idempotencyKey != key
        decreases rest
      {
        var d :| d in rest;
        if deliveries[d].idempotencyKey == key { return Some(d); }
        rest := rest - {d};
      }
      return None;
    }

    /** A second enqueue with the same key returns the first delivery and changes nothing. */
    method Enqueue(id: DeliveryId, key: string, context: Option<string>, now: int)
      returns (r: DeliveryId, created: bool)
      requires id !in deliveries
      modifies this
      ensures created <==> forall d :: d in old(deliveries) ==> old(deliveries)[d].idempotencyKey != key
      ensures created ==> r == id && Db() == old(Db()).(deliveries := old(deliveries)[id := NewDelivery(key, context, now)])
      ensures !created ==> Db() == old(Db()) && r in deliveries && deliveries[r].idempotencyKey == key
    {
      var existing := FindKey(key);
      if existing.Some? { return existing.value, false; }
      deliveries := deliveries[id := NewDelivery(key, context, now)];
      return id, true;
    }

    /**
     * retry_failed: a new delivery with its own id, key and attempts, and the context of the old one, which
     * stays as it is.
     */
    method RetryFailed(id: DeliveryId, successor: DeliveryId, token: string, now: int)
      returns (r: Result<DeliveryId, RetryError>)
      requires successor !in deliveries
      modifies this
      ensures id !in old(deliveries) ==> r == Failure(NotFound) && Db() == old(Db())
      ensures id in old(deliveries) ==>
        (Retryable(old(deliveries)[id]) <==>
           old(deliveries)[id].status.Failed?
           || (old(deliveries)[id].status.Expired? && old(deliveries)[id].lastError == Some("idempotency_window_expired")))
      ensures id in old(deliveries) && !Retryable(old(deliveries)[id]) ==> r == Failure(Conflict) && Db() == old(Db())
      ensures id in old(deliveries) && Retryable(old(deliveries)[id]) ==>
        var key := "manual:" + id + ":" + token;
        if forall d :: d in old(deliveries) ==> old(deliveries)[d].idempotencyKey != key
        then r == Success(successor) && attempts == old(attempts)
             && deliveries == old(deliveries)[successor := NewDelivery(key, old(deliveries)[id].context, now)]
        else r.Success? && r.value in deliveries && deliveries[r.value].idempotencyKey == key && Db() == old(Db())
    {
      if id !in deliveries { return Failure(NotFound); }
      if !Retryable(deliveries[id]) { return Failure(Conflict); }
      var made, created := Enqueue(successor, ManualKey(id, token), deliveries[id].context, now);
      r := Success(made);
    }

    method Earliest(candidates: set<DeliveryId>) returns (best: DeliveryId)
      requires candidates != {} && candidates <= deliveries.Keys
      ensures best in candidates
      ensures forall d :: d in candidates ==> NotAfter(deliveries[best], deliveries[d])
    {
      best :| best in candidates;
      var rest := candidates - {best};
      while rest != {}
        invariant rest <= candidates && best in candidates
        invariant forall d :: d in candidates && d !in rest ==> NotAfter(deliveries[best], deliveries[d])
        decreases rest
      {
        var d :| d in rest;
        if !NotAfter(deliveries[best], deliveries[d]) { best := d; }
        rest := rest - {d};
      }
    }

    /** The claim query. Rows locked by a concurrent claim are skipped. */
    method SelectDue(batch: nat, now: int, locked: set<DeliveryId>) returns (rows: seq<DeliveryId>)
      ensures Selected(Db(), batch, now, locked, rows)
    {
      var pool := set d | d in deliveries && d !in locked && Due(deliveries[d], now);
      rows := [];
      while |rows| < batch && pool != {}
        invariant |rows| <= batch && Distinct(rows)
        invariant forall d :: d in pool ==> Claimable(Db(), now, locked, d) && d !in rows
        invariant forall d :: d in rows ==> Claimable(Db(), now, locked, d)
        invariant forall d :: Claimable(Db(), now, locked, d) ==> d in pool || d in rows
        invariant Ordered(Db(), rows)
        invariant forall e, d :: e in rows && d in pool ==> NotAfter(deliveries[e], deliveries[d])
        decreases pool
      {
        var d := Earliest(pool);
        rows := rows + [d];
        pool := pool - {d};
      }
    }

    /** Leases the selected rows; rows with an expired lease get their abandoned attempts interrupted first. */
    method ClaimDue(batch: nat, now: int, owner: string, locked: set<DeliveryId>)
      returns (claimed: seq<DeliveryId>, interrupted: nat)
      modifies this
      ensures Selected(old(Db()), batch, now, locked, claimed)
      ensures Db() == ClaimRows(old(Db()), claimed, now, owner)
      ensures interrupted == Interruptions(old(Db()), claimed)
    {
      var rows := SelectDue(batch, now, locked);
      assert forall d :: d in rows ==> Claimable(Db(), now, locked, d);
      claimed, interrupted := ClaimAll(rows, now, owner);
    }

    method ClaimAll(rows: seq<DeliveryId>, now: int, owner: string) returns (claimed: seq<DeliveryId>, interrupted: nat)
      requires Distinct(rows) && forall d :: d in rows ==> d in deliveries
      modifies this
      ensures claimed == rows && Db() == ClaimRows(old(Db()), rows, now, owner)
      ensures interrupted == Interruptions(old(Db()), rows)
    {
      ghost var db0 := Db();
      claimed, interrupted := [], 0;
      for k := 0 to |rows|
        invariant claimed == rows[..k]
        invariant forall d :: d in rows ==> d in db0.deliveries
        invariant Db() == ClaimRows(db0, rows[..k], now, owner)
        invariant interrupted == Interruptions(db0, rows[..k])
      {
        ClaimPrefix(db0, rows, k, now, owner);
        var n := ClaimOne(rows[k], now, owner);
        interrupted := interrupted + n;
        claimed := claimed + [rows[k]];
      }
      assert rows[..|rows|] == rows;
    }

    method ClaimOne(d: DeliveryId, now: int, owner: string) returns (n: nat)
      requires d in deliveries
      modifies this
      ensures Db() == ClaimRow(old(Db()), d, now, owner)
      ensures n == if old(deliveries)[d].leaseUntil.Some? then StartedOf(old(attempts), d) else 0
    {
      n := 0;
      if deliveries[d].leaseUntil.Some? {
        n := InterruptRows(d, now);
      }
      deliveries := deliveries[d := deliveries[d].(leaseOwner := Some(owner), leaseUntil := Some(now + LEASE), updatedAt := now)];
    }

    method InterruptRows(d: DeliveryId, now: int) returns (n: nat)
      modifies this`attempts
      ensures attempts == InterruptStarted(old(attempts), d, now)
      ensures n == StartedOf(old(attempts), d)
    {
      n := 0;
      for i := 0 to |attempts|
        invariant |attempts| == |old(attempts)|
        invariant forall k :: 0 <= k < i ==> attempts[k] == InterruptOne(old(attempts)[k], d, now)
        invariant forall k :: i <= k < |attempts| ==> attempts[k] == old(attempts)[k]
        invariant n == StartedOf(old(attempts)[..i], d)
      {
        assert old(attempts)[..i + 1][..i] == old(attempts)[..i];
        if attempts[i].deliveryId == d && attempts[i].outcome.Started? {
          attempts := attempts[i := attempts[i].(outcome := Interrupted, finishedAt := Some(now))];
          n := n + 1;
        }
      }
      assert old(attempts)[..|attempts|] == old(attempts);
    }

    method StartAttempt(id: DeliveryId, now: int) returns (attemptId: nat, attemptNo: nat)
      requires id in deliveries
      modifies this`deliveries, this`attempts
      ensures Db() == OpenAttempt(old(Db()), id, now)
      ensures attemptId == |old(attempts)| && attemptNo == old(deliveries)[id].attemptCount + 1
    {
      attemptNo := deliveries[id].attemptCount + 1;
      attemptId := |attempts|;
      attempts := attempts + [Attempt(id, attemptNo, Prepare, Started, None, now, None)];
      deliveries := deliveries[id := deliveries[id].(attemptCount := attemptNo, updatedAt := now)];
    }

    method FirstAttemptAt(id: DeliveryId) returns (first: Option<int>)
      ensures first == EarliestStart(attempts, id)
    {
      first := None;
      for i := 0 to |attempts|
        invariant first == EarliestStart(attempts[..i], id)
      {
        assert attempts[..i + 1][..i] == attempts[..i];
        if attempts[i].deliveryId == id && !(first.Some? && first.value <= attempts[i].startedAt) {
          first := Some(attempts[i].startedAt);
        }
      }
      assert attempts[..|attempts|] == attempts;
    }

    method SetAttemptStage(attemptId: nat, stage: Stage)
      requires attemptId < |attempts|
      modifies this`attempts, this`stageWrites
      ensures attempts == old(attempts)[attemptId := old(attempts)[attemptId].(stage := stage)]
      ensures stageWrites == old(stageWrites) + [(attemptId, stage)]
      ensures Db() == SetStage(old(Db()), attemptId, stage)
    {
      attempts := attempts[attemptId := attempts[attemptId].(stage := stage)];
      stageWrites := stageWrites + [(attemptId, stage)];
    }

    method FinishAttempt(id: DeliveryId, attemptId: nat, attemptNo: nat, stage: Stage, verdict: Verdict,
                         now: int) returns (report: Report)
      requires id in deliveries && attemptId < |attempts| && attemptNo >= 1
      modifies this`deliveries, this`attempts
      ensures Db() == Finish(old(Db()), id, attemptId, attemptNo, stage, verdict, now)
      ensures id in deliveries && report == ReportOf(deliveries[id].status)
    {
      if verdict.Accepted? {
        attempts := attempts[attemptId := attempts[attemptId].(stage := Smtp, outcome := Succeeded, finishedAt := Some(now))];
        deliveries := deliveries[id := deliveries[id].(
          status := Sent, sentAt := Some(now), updatedAt := now, leaseOwner := None,
          leaseUntil := None, context := None, lastError := None)];
        return SentReport;
      }
      var retry := verdict.retryable && attemptNo < MAX_ATTEMPTS;
      var status := if retry then Pending else if verdict.expired then Expired else Failed;
      var row := deliveries[id].(
        status := status, lastError := Some(verdict.category), updatedAt := now, leaseOwner := None, leaseUntil := None);
      if retry {
        row := row.(nextAttemptAt := now + RETRY_DELAYS[attemptNo - 1]);
      } else if status != Failed {
        row := row.(context := None);
      }
      attempts := attempts[attemptId := attempts[attemptId].(
        stage := stage, outcome := if retry then RetryableFailure else PermanentFailure,
        error := Some(verdict.category), finishedAt := Some(now))];
      deliveries := deliveries[id := row];
      report := if retry then RetryingReport else if verdict.expired then ExpiredReport else FailedReport;
    }

    /** _dispatch_claimed_attempt: open, work inside the timed block, conclude. */
    method DispatchClaimed(id: DeliveryId, e: Execution) returns (report: Report)
      requires id in deliveries && ExecutionOk(e)
      modifies this
      ensures Db() == DispatchRow(old(Db()), id, e)
      ensures id in deliveries && report == ReportOf(deliveries[id].status)
      ensures stageWrites == old(stageWrites) + StagesWritten(old(Db()), id, e)
    {
      LateIff(Db(), id, e);
      var attemptId, attemptNo := StartAttempt(id, e.openedAt);
      var stage, verdict := Prepare, WINDOW_EXPIRED;
      ghost var after := Db();
      if e.end.LostBeforeCheck? {
        verdict := e.end.refused;
      } else {
        var first := FirstAttemptAt(id);
        if !(first.Some? && e.checkedAt - first.value >= REPLAY_WINDOW) {
          match e.end {
            case PreparationFails(v) => verdict := v;
            case StopsAtRender(v) =>
              stage := Render;
              SetAttemptStage(attemptId, stage);
              verdict := v;
            case StopsAtSmtp(v) =>
              SetAttemptStage(attemptId, Render);
              stage := Smtp;
              SetAttemptStage(attemptId, stage);
              verdict := v;
            case ProviderAccepts =>
              SetAttemptStage(attemptId, Render);
              stage := Smtp;
              SetAttemptStage(attemptId, stage);
              verdict := Accepted;
          }
        }
      }
      report := FinishAttempt(id, attemptId, attemptNo, stage, verdict, e.concludedAt);
      assert Db() == Finish(after, id, attemptId, attemptNo, stage, verdict, e.concludedAt);
    }

    /** One turn of the loop over the claimed deliveries. */
    method DispatchNext(ghost db1: Tables, ids: seq<DeliveryId>, es: seq<Execution>, i: nat,
                        sent: nat, retrying: nat, failed: nat, expired: nat)
      returns (sent': nat, retrying': nat, failed': nat, expired': nat)
      requires i < |ids| <= |es| && (forall k :: 0 <= k < |es| ==> ExecutionOk(es[k])) && Distinct(ids)
      requires forall d :: d in ids ==> d in db1.deliveries && d in Db().deliveries
      requires Db() == DispatchRows(db1, ids[..i], es) && Tallied(Db(), ids[..i], sent, retrying, failed, expired)
      modifies this
      ensures Db() == DispatchRows(db1, ids[..i + 1], es) && forall d :: d in ids ==> d in Db().deliveries
      ensures Tallied(Db(), ids[..i + 1], sent', retrying', failed', expired')
    {
      TallyStep(Db(), ids, i, es[i], sent, retrying, failed, expired);
      DispatchRowsStep(db1, ids, es, i);
      var report := DispatchClaimed(ids[i], es[i]);
      sent' := sent + One(report == SentReport);
      retrying' := retrying + One(report == RetryingReport);
      failed' := failed + One(report == FailedReport);
      expired' := expired + One(report == ExpiredReport);
    }

    /** The loop and its four counters. */
    method DispatchAll(ids: seq<DeliveryId>, es: seq<Execution>)
      returns (sent: nat, retrying: nat, failed: nat, expired: nat)
      requires |ids| <= |es| && forall i :: 0 <= i < |es| ==> ExecutionOk(es[i])
      requires Distinct(ids) && forall d :: d in ids ==> d in deliveries
      modifies this
      ensures Db() == DispatchRows(old(Db()), ids, es)
      ensures sent == CountStatus(Db(), ids, Sent) && retrying == CountStatus(Db(), ids, Pending)
      ensures failed == CountStatus(Db(), ids, Failed) && expired == CountStatus(Db(), ids, Expired)
      ensures sent + retrying + failed + expired == |ids|
    {
      ghost var db1 := Db();
      sent, retrying, failed, expired := 0, 0, 0, 0;
      for i := 0 to |ids|
        invariant forall d :: d in ids ==> d in db1.deliveries && d in Db().deliveries
        invariant Db() == DispatchRows(db1, ids[..i], es)
        invariant Tallied(Db(), ids[..i], sent, retrying, failed, expired)
      {
        sent, retrying, failed, expired := DispatchNext(db1, ids, es, i, sent, retrying, failed, expired);
      }
      assert ids[..|ids|] == ids;
    }

    /**
     * One dispatch run that no other worker interferes with. Every claimed delivery is counted once, under
     * the status its row has afterwards, and no other row changes.
     */
    method DispatchDue(batchSize: int, now: int, owner: string, locked: set<DeliveryId>, es: seq<Execution>)
      returns (s: Summary)
      requires |es| >= MAX_BATCH && forall i :: 0 <= i < |es| ==> ExecutionOk(es[i])
      modifies this
      ensures !dispatchEnabled ==> s == Summary(0, 0, 0, 0, 0, 0, []) && Db() == old(Db())
      ensures dispatchEnabled ==>
        && Selected(old(Db()), if batchSize < 1 then 1 else if batchSize > 10 then 10 else batchSize, now, locked, s.ids)
        && Db() == DispatchRows(ClaimRows(old(Db()), s.ids, now, owner), s.ids, es)
        && s.interrupted == Interruptions(old(Db()), s.ids)
      ensures s.claimed == |s.ids| == s.sent + s.retrying + s.failed + s.expired
      ensures s.sent == CountStatus(Db(), s.ids, Sent) && s.retrying == CountStatus(Db(), s.ids, Pending)
      ensures s.failed == CountStatus(Db(), s.ids, Failed) && s.expired == CountStatus(Db(), s.ids, Expired)
      ensures forall d :: d in old(deliveries) && d !in s.ids ==> d in deliveries && deliveries[d] == old(deliveries)[d]
    {
      if !dispatchEnabled { return Summary(0, 0, 0, 0, 0, 0, []); }
      var batch := if batchSize < 1 then 1 else if batchSize > MAX_BATCH then MAX_BATCH else batchSize;
      ghost var db0 := Db();
      var ids, interrupted := ClaimDue(batch, now, owner, locked);
      ghost var db1 := Db();
      ClaimEffect(db0, ids, now, owner);
      var sent, retrying, failed, expired := DispatchAll(ids, es);
      forall d | d in db0.deliveries && d !in ids ensures d in deliveries && deliveries[d] == db0.deliveries[d] {
        DispatchTouchesOnlyRows(db1, ids, es, d);
      }
      s := Summary(|ids|, sent, retrying, failed, expired, interrupted, ids);
    }
  }

  /** A delivery that is dispatched 23 hours or more after its earliest attempt is not sent again. */
  lemma {:induction false} StaleAttemptIsNotSent(db: Tables, id: DeliveryId, e: Execution)
    requires id in db.deliveries && ExecutionOk(e) && !e.end.LostBeforeCheck?
    requires EarliestStart(db.attempts, id).Some? && e.checkedAt - EarliestStart(db.attempts, id).value >= 23 * 3600 * 1_000_000
    ensures DispatchRow(db, id, e).deliveries[id].status == Expired
    ensures DispatchRow(db, id, e).deliveries[id].context == None
    ensures DispatchRow(db, id, e).deliveries[id].lastError == Some("idempotency_window_expired")
  {
    var after := OpenAttempt(db, id, e.openedAt);
    assert after.attempts[..|db.attempts|] == db.attempts;
  }

  // ---------- what the transactions write, outcome by outcome ----------

  /** What a conclusion leaves of a row's identity and of its lease, whatever the verdict. */
  predicate SameDelivery(a: Delivery, b: Delivery, now: int) {
    && b.idempotencyKey == a.idempotencyKey && b.attemptCount == a.attemptCount && b.createdAt == a.createdAt
    && b.leaseOwner.None? && b.leaseUntil.None? && b.updatedAt == now
  }

  /** Of a conclusion nothing but the delivery's row and the attempt's own is written. */
  lemma FinishFrame(db: Tables, id: DeliveryId, k: nat, no: nat, stage: Stage, v: Verdict, now: int)
    requires id in db.deliveries && k < |db.attempts| && no >= 1
    ensures var t := Finish(db, id, k, no, stage, v, now);
      && t.deliveries.Keys == db.deliveries.Keys && |t.attempts| == |db.attempts|
      && (forall d :: d in db.deliveries && d != id ==> t.deliveries[d] == db.deliveries[d])
      && (forall i :: 0 <= i < |db.attempts| && i != k ==> t.attempts[i] == db.attempts[i])
      && SameDelivery(db.deliveries[id], t.deliveries[id], now)
      && t.attempts[k].deliveryId == db.attempts[k].deliveryId && t.attempts[k].attemptNo == db.attempts[k].attemptNo
      && t.attempts[k].startedAt == db.attempts[k].startedAt && t.attempts[k].finishedAt == Some(now)
  {
  }

  /** An accepted message: the row is sent, and its context and last error are forgotten. */
  lemma SentWrites(db: Tables, id: DeliveryId, k: nat, no: nat, stage: Stage, now: int)
    requires id in db.deliveries && k < |db.attempts| && no >= 1
    ensures var t := Finish(db, id, k, no, stage, Accepted, now); var row := t.deliveries[id];
      && row.status.Sent? && row.sentAt == Some(now) && row.context.None? && row.lastError.None?
      && row.nextAttemptAt == db.deliveries[id].nextAttemptAt
      && t.attempts[k].stage.Smtp? && t.attempts[k].outcome.Succeeded? && t.attempts[k].error == db.attempts[k].error
  {
  }

  /**
   * A failure: a retryable one of the first four attempts waits for the next; any other closes the row, as
   * expired and without its context, or as failed and with it.
   */
  lemma FailureWrites(db: Tables, id: DeliveryId, k: nat, no: nat, stage: Stage, v: Verdict, now: int)
    requires id in db.deliveries && k < |db.attempts| && no >= 1 && v.Refused?
    ensures var t := Finish(db, id, k, no, stage, v, now); var was, row := db.deliveries[id], t.deliveries[id];
      && row.lastError == Some(v.category) && row.sentAt == was.sentAt
      && t.attempts[k].stage == stage && t.attempts[k].error == Some(v.category)
      && (v.retryable && no <= 4 ==>
            row.status.Pending? && row.nextAttemptAt == now + WaitAfter(no) && row.context == was.context
            && t.attempts[k].outcome.RetryableFailure?)
      && (!(v.retryable && no <= 4) ==> row.nextAttemptAt == was.nextAttemptAt && t.attempts[k].outcome.PermanentFailure?)
      && (!(v.retryable && no <= 4) && v.expired ==> row.status.Expired? && row.context.None?)
      && (!(v.retryable && no <= 4) && !v.expired ==> row.status.Failed? && row.context == was.context)
  {
  }

  /** A claim interrupts exactly the attempts of the delivery that are still started, and closes them now. */
  lemma InterruptWrites(attempts: seq<Attempt>, id: DeliveryId, now: int, i: nat)
    requires i < |attempts|
    ensures |InterruptStarted(attempts, id, now)| == |attempts|
    ensures var was, a := attempts[i], InterruptStarted(attempts, id, now)[i];
      if was.deliveryId == id && was.outcome.Started?
      then a == was.(outcome := Interrupted, finishedAt := Some(now))
      else a == was
  {
  }

  /** The work goes from preparing to rendering to sending, and the attempt's row says how far it is. */
  lemma AdvanceRecords(s: State, step: Step)
    requires Enabled(s, step) && step.Advance?
    ensures var t, k := Apply(s, step), s.workers[step.w].phase.attemptId;
      && step.w in t.workers && t.workers[step.w].phase.Timed? && |t.db.attempts| == |s.db.attempts|
      && t.workers[step.w].phase.stage == (if s.workers[step.w].phase.stage.Prepare? then Render else Smtp)
      && t.db.attempts[k] == s.db.attempts[k].(stage := t.workers[step.w].phase.stage)
      && (forall i :: 0 <= i < |s.db.attempts| && i != k ==> t.db.attempts[i] == s.db.attempts[i])
      && t.db.deliveries == s.db.deliveries
  {
  }

  /** A new attempt has the next number, begins now at the preparation, and changes nothing else but the row's count. */
  lemma AttemptWrites(db: Tables, id: DeliveryId, now: int)
    requires id in db.deliveries
    ensures var t := OpenAttempt(db, id, now); var was, row := db.deliveries[id], t.deliveries[id];
      && t.deliveries.Keys == db.deliveries.Keys
      && (forall d :: d in db.deliveries && d != id ==> t.deliveries[d] == db.deliveries[d])
      && row.attemptCount == was.attemptCount + 1 && row.updatedAt == now
      && row.idempotencyKey == was.idempotencyKey && row.status == was.status && row.nextAttemptAt == was.nextAttemptAt
      && row.leaseOwner == was.leaseOwner && row.leaseUntil == was.leaseUntil && row.lastError == was.lastError
      && row.context == was.context && row.createdAt == was.createdAt && row.sentAt == was.sentAt
      && t.attempts == db.attempts + [Attempt(id, was.attemptCount + 1, Prepare, Started, None, now, None)]
  {
  }

  /** A new delivery waits for its first attempt, which can begin at once. */
  lemma EnqueueWrites(key: string, context: Option<string>, now: int)
    ensures var row := NewDelivery(key, context, now);
      && row.idempotencyKey == key && row.context == context && row.status.Pending? && row.attemptCount == 0
      && row.nextAttemptAt == now && row.createdAt == now && row.updatedAt == now
      && row.leaseOwner.None? && row.leaseUntil.None? && row.lastError.None? && row.sentAt.None?
      && forall time :: Due(row, time) <==> now <= time
  {
  }

  /** A claim takes rows in the order of their next attempt, then of their creation, and no row that is not due. */
  lemma ClaimsInOrder(db: Tables, batch: nat, now: int, locked: set<DeliveryId>, rows: seq<DeliveryId>, i: nat, j: nat)
    requires Selected(db, batch, now, locked, rows) && i < j < |rows|
    ensures rows[i] in db.deliveries && rows[j] in db.deliveries
    ensures var a, b := db.deliveries[rows[i]], db.deliveries[rows[j]];
      && a.status.Pending? && a.nextAttemptAt <= now && (a.leaseUntil.Some? ==> a.leaseUntil.value <= now)
      && (a.nextAttemptAt < b.nextAttemptAt || (a.nextAttemptAt == b.nextAttemptAt && a.createdAt <= b.createdAt))
      && rows[i] !in locked && rows[i] != rows[j]
  {
    assert Claimable(db, now, locked, rows[i]) && NotAfter(db.deliveries[rows[i]], db.deliveries[rows[j]]);
  }

  /** And it passes over a row that is due and not locked only for rows that come no later, when the batch is full. */
  lemma ClaimPassesOver(db: Tables, batch: nat, now: int, locked: set<DeliveryId>, rows: seq<DeliveryId>,
                        d: DeliveryId, i: nat)
    requires Selected(db, batch, now, locked, rows) && d in db.deliveries && d !in locked && d !in rows && i < |rows|
    requires var row := db.deliveries[d];
      row.status.Pending? && row.nextAttemptAt <= now && (row.leaseUntil.Some? ==> row.leaseUntil.value <= now)
    ensures |rows| == batch && rows[i] in db.deliveries
    ensures var a, b := db.deliveries[rows[i]], db.deliveries[d];
      a.nextAttemptAt < b.nextAttemptAt || (a.nextAttemptAt == b.nextAttemptAt && a.createdAt <= b.createdAt)
  {
    assert Claimable(db, now, locked, d) && rows[i] in rows && Claimable(db, now, locked, rows[i]);
  }

  // ---------- what becomes of one dispatched delivery ----------

  /** The verdict that the work inside the timed block comes to. */
  predicate EndsWith(db: Tables, id: DeliveryId, e: Execution, v: Verdict)
    requires ExecutionOk(e)
  {
    if !e.end.LostBeforeCheck? && TooLate(db, id, e) then v == Refused("idempotency_window_expired", false, true)
    else if e.end.ProviderAccepts? then v.Accepted?
    else v == e.end.refused
  }

  /** How far the work gets: nothing is rendered or sent before the check has passed. */
  predicate StageReached(db: Tables, id: DeliveryId, e: Execution, stage: Stage) {
    if e.end.LostBeforeCheck? || TooLate(db, id, e) || e.end.PreparationFails? then stage.Prepare?
    else if e.end.StopsAtRender? then stage.Render?
    else stage.Smtp?
  }

  /** The status after a dispatch and its report follow from the end of the work and the number of the attempt. */
  lemma DispatchEnds(db: Tables, id: DeliveryId, e: Execution, v: Verdict)
    requires id in db.deliveries && ExecutionOk(e) && EndsWith(db, id, e, v)
    ensures var t, k := DispatchRow(db, id, e), |db.attempts|; var row, no := t.deliveries[id], db.deliveries[id].attemptCount + 1;
      && |t.attempts| == k + 1
      && row.attemptCount == no && t.attempts[k].attemptNo == no && t.attempts[k].startedAt == e.openedAt
      && StageReached(db, id, e, t.attempts[k].stage)
      && (row.status.Sent? <==> v.Accepted?)
      && (row.status.Pending? <==> v.Refused? && v.retryable && no <= 4)
      && (row.status.Expired? <==> v.Refused? && !(v.retryable && no <= 4) && v.expired)
      && (ReportOf(row.status) == SentReport <==> row.status.Sent?)
      && (ReportOf(row.status) == RetryingReport <==> row.status.Pending?)
      && (ReportOf(row.status) == FailedReport <==> row.status.Failed?)
      && (ReportOf(row.status) == ExpiredReport <==> row.status.Expired?)
  {
    LateIff(db, id, e);
  }
}
