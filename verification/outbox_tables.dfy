/** The two outbox tables and the effect each repository transaction has on them. */
module OutboxTables {
  import opened Wrappers

  const SECOND := 1_000_000
  const LEASE := 300 * SECOND
  const TIMEOUT := 20 * SECOND
  const REPLAY_WINDOW := 23 * 3600 * SECOND
  const MAX_ATTEMPTS := 5
  const MAX_BATCH := 10

  /** The wait before automatic attempt n + 1, for n = 1 .. 4. */
  const RETRY_DELAYS: seq<int> := [60 * SECOND, 300 * SECOND, 1800 * SECOND, 7200 * SECOND]

  /** A delivery's UUID, as text. */
  type DeliveryId = string

  datatype Status = Pending | Sent | Failed | Expired

  datatype Outcome = Started | Succeeded | RetryableFailure | PermanentFailure | Interrupted

  datatype Stage = Prepare | Render | Smtp

  datatype Delivery = Delivery(
    idempotencyKey: string,
    status: Status,
    attemptCount: nat,
    nextAttemptAt: int,
    leaseOwner: Option<string>,
    leaseUntil: Option<int>,
    lastError: Option<string>,
    context: Option<string>,
    createdAt: int,
    updatedAt: int,
    sentAt: Option<int>)

  datatype Attempt = Attempt(
    deliveryId: DeliveryId,
    attemptNo: nat,
    stage: Stage,
    outcome: Outcome,
    error: Option<string>,
    startedAt: int,
    finishedAt: Option<int>)

  /** Attempt ids are the positions of the attempts: the identity column only grows. */
  datatype Tables = Tables(deliveries: map<DeliveryId, Delivery>, attempts: seq<Attempt>)

  /** How the timed part of an attempt ended. */
  datatype Verdict = Accepted | Refused(category: string, retryable: bool, expired: bool)

  const WINDOW_EXPIRED := Refused("idempotency_window_expired", false, true)

  /** The waits grow, and all four together with five full timeouts stay well inside the replay window. */
  lemma RetriesFitTheWindow()
    ensures |RETRY_DELAYS| == MAX_ATTEMPTS - 1
    ensures forall n :: 1 <= n < |RETRY_DELAYS| ==> RETRY_DELAYS[n - 1] < RETRY_DELAYS[n]
    ensures RETRY_DELAYS[0] + RETRY_DELAYS[1] + RETRY_DELAYS[2] + RETRY_DELAYS[3] + MAX_ATTEMPTS * TIMEOUT < REPLAY_WINDOW
  {
  }

  /** A minute after the first attempt, then five, then half an hour, then two hours. */
  function WaitAfter(no: nat): int
    requires 1 <= no <= 4
  {
    match no
    case 1 => 60_000_000
    case 2 => 300_000_000
    case 3 => 1_800_000_000
    case 4 => 7_200_000_000
  }

  // ---------- the effect of each transaction ----------

  function NewDelivery(key: string, context: Option<string>, now: int): Delivery {
    Delivery(key, Pending, 0, now, None, None, None, context, now, now, None)
  }

  predicate Due(row: Delivery, now: int) {
    && row.status.Pending?
    && row.nextAttemptAt <= now
    && (row.leaseUntil.Some? ==> row.leaseUntil.value <= now)
  }

  function InterruptOne(a: Attempt, id: DeliveryId, now: int): Attempt {
    if a.deliveryId == id && a.outcome.Started?
    then a.(outcome := Interrupted, finishedAt := Some(now))
    else a
  }

  function InterruptStarted(attempts: seq<Attempt>, id: DeliveryId, now: int): (r: seq<Attempt>)
    ensures |r| == |attempts|
    ensures forall i :: 0 <= i < |r| ==> r[i] == InterruptOne(attempts[i], id, now)
  {
    seq(|attempts|, i requires 0 <= i < |attempts| => InterruptOne(attempts[i], id, now))
  }

  /** One iteration of the claim loop: a row that still carries a lease was abandoned. */
  function ClaimRow(db: Tables, id: DeliveryId, now: int, owner: string): Tables
    requires id in db.deliveries
  {
    var row := db.deliveries[id];
    Tables(
      db.deliveries[id := row.(leaseOwner := Some(owner), leaseUntil := Some(now + LEASE), updatedAt := now)],
      if row.leaseUntil.Some? then InterruptStarted(db.attempts, id, now) else db.attempts)
  }

  function ClaimRows(db: Tables, rows: seq<DeliveryId>, now: int, owner: string): (r: Tables)
    requires forall d :: d in rows ==> d in db.deliveries
    ensures r.deliveries.Keys == db.deliveries.Keys
    ensures |r.attempts| == |db.attempts|
  {
    if rows == [] then db
    else ClaimRow(ClaimRows(db, rows[..|rows| - 1], now, owner), rows[|rows| - 1], now, owner)
  }

  function OpenAttempt(db: Tables, id: DeliveryId, now: int): Tables
    requires id in db.deliveries
  {
    var row := db.deliveries[id];
    Tables(
      db.deliveries[id := row.(attemptCount := row.attemptCount + 1, updatedAt := now)],
      db.attempts + [Attempt(id, row.attemptCount + 1, Prepare, Started, None, now, None)])
  }

  function SetStage(db: Tables, attemptId: nat, stage: Stage): Tables
    requires attemptId < |db.attempts|
  {
    db.(attempts := db.attempts[attemptId := db.attempts[attemptId].(stage := stage)])
  }

  function FinishSuccess(db: Tables, id: DeliveryId, attemptId: nat, now: int): Tables
    requires id in db.deliveries && attemptId < |db.attempts|
  {
    Tables(
      db.deliveries[id := db.deliveries[id].(
        status := Sent, sentAt := Some(now), updatedAt := now, leaseOwner := None,
        leaseUntil := None, context := None, lastError := None)],
      db.attempts[attemptId := db.attempts[attemptId].(
        stage := Smtp, outcome := Succeeded, finishedAt := Some(now))])
  }

  predicate ShouldRetry(retryable: bool, attemptNo: nat) {
    retryable && attemptNo < MAX_ATTEMPTS
  }

  function FailedRow(row: Delivery, attemptNo: nat, category: string, retryable: bool, expired: bool, now: int): Delivery
    requires attemptNo >= 1
  {
    var common := row.(lastError := Some(category), updatedAt := now, leaseOwner := None, leaseUntil := None);
    if ShouldRetry(retryable, attemptNo) then
      common.(status := Pending, nextAttemptAt := now + RETRY_DELAYS[attemptNo - 1])
    else if expired then
      common.(status := Expired, context := None)
    else
      // A failed delivery keeps its context, so that an administrator's retry can reuse it.
      common.(status := Failed)
  }

  function FinishFailure(db: Tables, id: DeliveryId, attemptId: nat, attemptNo: nat, stage: Stage,
                         verdict: Verdict, now: int): Tables
    requires id in db.deliveries && attemptId < |db.attempts| && attemptNo >= 1 && verdict.Refused?
  {
    var outcome := if ShouldRetry(verdict.retryable, attemptNo) then RetryableFailure else PermanentFailure;
    Tables(
      db.deliveries[id := FailedRow(db.deliveries[id], attemptNo, verdict.category, verdict.retryable, verdict.expired, now)],
      db.attempts[attemptId := db.attempts[attemptId].(
        stage := stage, outcome := outcome, error := Some(verdict.category), finishedAt := Some(now))])
  }

  function Finish(db: Tables, id: DeliveryId, attemptId: nat, attemptNo: nat, stage: Stage,
                  verdict: Verdict, now: int): Tables
    requires id in db.deliveries && attemptId < |db.attempts| && attemptNo >= 1
  {
    if verdict.Accepted? then FinishSuccess(db, id, attemptId, now)
    else FinishFailure(db, id, attemptId, attemptNo, stage, verdict, now)
  }

  // ---------- the ledger of attempts ----------

  /** The attempt numbers of one delivery, in insertion order. */
  ghost function Numbers(attempts: seq<Attempt>, id: DeliveryId): seq<nat> {
    if attempts == [] then []
    else
      var front, last := attempts[..|attempts| - 1], attempts[|attempts| - 1];
      Numbers(front, id) + if last.deliveryId == id then [last.attemptNo] else []
  }

  ghost function Retries(attempts: seq<Attempt>, id: DeliveryId): nat {
    if attempts == [] then 0
    else
      var front, last := attempts[..|attempts| - 1], attempts[|attempts| - 1];
      Retries(front, id) + if last.deliveryId == id && last.outcome.RetryableFailure? then 1 else 0
  }

  /** started_at of the first attempt that was inserted for a delivery. */
  ghost function FirstStart(attempts: seq<Attempt>, id: DeliveryId): Option<int> {
    if attempts == [] then None
    else
      var front, last := attempts[..|attempts| - 1], attempts[|attempts| - 1];
      var earlier := FirstStart(front, id);
      if earlier.Some? then earlier
      else if last.deliveryId == id then Some(last.startedAt) else None
  }

  /** select min(started_at): what the replay window is measured from. */
  function EarliestStart(attempts: seq<Attempt>, id: DeliveryId): Option<int> {
    if attempts == [] then None
    else
      var front, last := attempts[..|attempts| - 1], attempts[|attempts| - 1];
      var earlier := EarliestStart(front, id);
      if last.deliveryId != id then earlier
      else if earlier.Some? && earlier.value <= last.startedAt then earlier
      else Some(last.startedAt)
  }

  predicate StartFrom(attempts: seq<Attempt>, id: DeliveryId, earliest: int) {
    forall i :: 0 <= i < |attempts| && attempts[i].deliveryId == id ==> earliest <= attempts[i].startedAt
  }

  /** It is the least of the start times of the delivery's attempts. */
  lemma {:induction false} EarliestIsMinimum(attempts: seq<Attempt>, id: DeliveryId)
    ensures EarliestStart(attempts, id).None? <==> forall i :: 0 <= i < |attempts| ==> attempts[i].deliveryId != id
    ensures EarliestStart(attempts, id).Some? ==>
              exists i :: 0 <= i < |attempts| && attempts[i].deliveryId == id
                && EarliestStart(attempts, id).value == attempts[i].startedAt
    ensures EarliestStart(attempts, id).Some? ==> StartFrom(attempts, id, EarliestStart(attempts, id).value)
  {
    if attempts != [] {
      var n := |attempts| - 1;
      EarliestIsMinimum(attempts[..n], id);
      assert forall i :: 0 <= i < n ==> attempts[..n][i] == attempts[i];
    }
  }

  ghost function OneTo(n: nat): (r: seq<nat>)
    ensures |r| == n && forall i :: 0 <= i < n ==> r[i] == i + 1
  {
    seq(n, i requires 0 <= i < n => i + 1)
  }

  /** Two attempt lists that differ only in stage, outcome, error and finish time. */
  ghost predicate SameIdentity(a: seq<Attempt>, b: seq<Attempt>) {
    && |a| == |b|
    && forall i :: 0 <= i < |a| ==>
         a[i].deliveryId == b[i].deliveryId && a[i].attemptNo == b[i].attemptNo && a[i].startedAt == b[i].startedAt
  }

  lemma {:induction false} SameIdentityKeeps(a: seq<Attempt>, b: seq<Attempt>, id: DeliveryId)
    requires SameIdentity(a, b)
    ensures Numbers(a, id) == Numbers(b, id)
    ensures FirstStart(a, id) == FirstStart(b, id)
    ensures EarliestStart(a, id) == EarliestStart(b, id)
  {
    if a != [] {
      SameIdentityKeeps(a[..|a| - 1], b[..|b| - 1], id);
    }
  }

  lemma {:induction false} AppendAttempt(a: seq<Attempt>, x: Attempt, id: DeliveryId)
    ensures Numbers(a + [x], id) == Numbers(a, id) + if x.deliveryId == id then [x.attemptNo] else []
    ensures Retries(a + [x], id) ==
            Retries(a, id) + if x.deliveryId == id && x.outcome.RetryableFailure? then 1 else 0
    ensures FirstStart(a + [x], id) ==
            if FirstStart(a, id).Some? then FirstStart(a, id)
            else if x.deliveryId == id then Some(x.startedAt) else None
  {
    assert (a + [x])[..|a|] == a;
  }

  lemma {:induction false} EarliestNotLater(a: seq<Attempt>, id: DeliveryId)
    ensures FirstStart(a, id).Some? <==> EarliestStart(a, id).Some?
    ensures FirstStart(a, id).Some? ==> EarliestStart(a, id).value <= FirstStart(a, id).value
  {
    if a != [] {
      EarliestNotLater(a[..|a| - 1], id);
    }
  }

  /** Changing the outcome of one attempt moves the retry count by that attempt alone. */
  lemma {:induction false} RetriesUpdate(a: seq<Attempt>, k: nat, x: Attempt, id: DeliveryId)
    requires k < |a| && x.deliveryId == a[k].deliveryId
    ensures Retries(a[k := x], id) + (if a[k].deliveryId == id && a[k].outcome.RetryableFailure? then 1 else 0)
         == Retries(a, id) + (if x.deliveryId == id && x.outcome.RetryableFailure? then 1 else 0)
  {
    var b := a[k := x];
    if k == |a| - 1 {
      assert b[..k] == a[..k];
    } else {
      assert b[..|a| - 1] == a[..|a| - 1][k := x];
      RetriesUpdate(a[..|a| - 1], k, x, id);
    }
  }

  /** Interrupting abandoned attempts never touches a retryable failure. */
  lemma {:induction false} RetriesInterrupt(a: seq<Attempt>, d: DeliveryId, now: int, id: DeliveryId)
    ensures Retries(InterruptStarted(a, d, now), id) == Retries(a, id)
  {
    if a != [] {
      var front := a[..|a| - 1];
      assert InterruptStarted(a, d, now)[..|a| - 1] == InterruptStarted(front, d, now);
      RetriesInterrupt(front, d, now, id);
    }
  }

  ghost predicate Ledger(db: Tables) {
    && (forall i :: 0 <= i < |db.attempts| ==> db.attempts[i].deliveryId in db.deliveries)
    && (forall d :: d in db.deliveries ==> Numbers(db.attempts, d) == OneTo(db.deliveries[d].attemptCount))
    && (forall i :: 0 <= i < |db.attempts| && db.attempts[i].outcome.RetryableFailure? ==>
          db.attempts[i].attemptNo < MAX_ATTEMPTS)
  }

  lemma {:induction false} NumbersAt(a: seq<Attempt>, id: DeliveryId, i: nat)
    requires i < |a| && a[i].deliveryId == id
    requires Numbers(a, id) == OneTo(|Numbers(a, id)|)
    ensures a[i].attemptNo == |Numbers(a[..i + 1], id)| <= |Numbers(a, id)|
    ensures |Numbers(a[..i], id)| + 1 == |Numbers(a[..i + 1], id)|
  {
    var front := a[..|a| - 1];
    var whole := Numbers(a, id);
    if i == |a| - 1 {
      assert a[..i + 1] == a;
      assert whole[|whole| - 1] == a[i].attemptNo;
    } else {
      assert Numbers(front, id) == whole[..|Numbers(front, id)|];
      assert Numbers(front, id) == OneTo(|Numbers(front, id)|);
      NumbersAt(front, id, i);
      assert front[..i + 1] == a[..i + 1] && front[..i] == a[..i];
    }
  }

  lemma {:induction false} PrefixNumbers(a: seq<Attempt>, id: DeliveryId, i: nat, j: nat)
    requires i <= j <= |a|
    ensures |Numbers(a[..i], id)| <= |Numbers(a[..j], id)|
    decreases j
  {
    if i < j {
      assert a[..j][..j - 1] == a[..j - 1];
      PrefixNumbers(a, id, i, j - 1);
    }
  }

  ghost predicate HasAttempt(attempts: seq<Attempt>, id: DeliveryId, n: nat) {
    exists i :: 0 <= i < |attempts| && attempts[i].deliveryId == id && attempts[i].attemptNo == n
  }

  /** Attempt numbers 1 .. attemptCount are each used by exactly one attempt, and no other number is used. */
  lemma NumberedWithoutGaps(db: Tables, id: DeliveryId)
    requires Ledger(db) && id in db.deliveries
    ensures forall n :: 1 <= n <= db.deliveries[id].attemptCount ==> HasAttempt(db.attempts, id, n)
    ensures forall i :: 0 <= i < |db.attempts| && db.attempts[i].deliveryId == id ==>
              1 <= db.attempts[i].attemptNo <= db.deliveries[id].attemptCount
    ensures forall i, j :: 0 <= i < j < |db.attempts| && db.attempts[i].deliveryId == id && db.attempts[j].deliveryId == id ==>
              db.attempts[i].attemptNo < db.attempts[j].attemptNo
  {
    forall n | 1 <= n <= db.deliveries[id].attemptCount
      ensures HasAttempt(db.attempts, id, n)
    {
      assert Numbers(db.attempts, id)[n - 1] == n;
      var i := FindNumber(db.attempts, id, n);
    }
    forall i | 0 <= i < |db.attempts| && db.attempts[i].deliveryId == id
      ensures 1 <= db.attempts[i].attemptNo <= db.deliveries[id].attemptCount
    {
      NumbersAt(db.attempts, id, i);
    }
    forall i, j | 0 <= i < j < |db.attempts| && db.attempts[i].deliveryId == id && db.attempts[j].deliveryId == id
      ensures db.attempts[i].attemptNo < db.attempts[j].attemptNo
    {
      DistinctNumbers(db.attempts, id, i, j);
    }
  }

  lemma {:induction false} DistinctNumbers(a: seq<Attempt>, id: DeliveryId, i: nat, j: nat)
    requires i < |a| && j < |a| && i != j && a[i].deliveryId == id && a[j].deliveryId == id
    requires Numbers(a, id) == OneTo(|Numbers(a, id)|)
    ensures i < j <==> a[i].attemptNo < a[j].attemptNo
    ensures a[i].attemptNo != a[j].attemptNo
  {
    NumbersAt(a, id, i);
    NumbersAt(a, id, j);
    if i < j { PrefixNumbers(a, id, i + 1, j); } else { PrefixNumbers(a, id, j + 1, i); }
  }

  lemma {:induction false} FindNumber(a: seq<Attempt>, id: DeliveryId, n: nat) returns (i: nat)
    requires n in Numbers(a, id)
    ensures i < |a| && a[i].deliveryId == id && a[i].attemptNo == n
  {
    var front, last := a[..|a| - 1], a[|a| - 1];
    if last.deliveryId == id && last.attemptNo == n {
      i := |a| - 1;
    } else {
      assert n in Numbers(front, id);
      i := FindNumber(front, id, n);
    }
  }

  lemma {:induction false} RetriesBound(a: seq<Attempt>, id: DeliveryId)
    requires Numbers(a, id) == OneTo(|Numbers(a, id)|)
    requires forall i :: 0 <= i < |a| && a[i].outcome.RetryableFailure? ==> a[i].attemptNo < MAX_ATTEMPTS
    ensures Retries(a, id) <= |Numbers(a, id)|
    ensures Retries(a, id) < MAX_ATTEMPTS
  {
    if a != [] {
      var front, last := a[..|a| - 1], a[|a| - 1];
      assert Numbers(front, id) == Numbers(a, id)[..|Numbers(front, id)|];
      assert Numbers(front, id) == OneTo(|Numbers(front, id)|);
      RetriesBound(front, id);
      if last.deliveryId == id {
        NumbersAt(a, id, |a| - 1);
        assert a[..|a|] == a;
      }
    }
  }

  /** At most four attempts of a delivery end as retryable failures. */
  lemma {:induction false} AtMostFourRetryableFailures(db: Tables, id: DeliveryId)
    requires Ledger(db) && id in db.deliveries
    ensures Retries(db.attempts, id) <= 4
  {
    RetriesBound(db.attempts, id);
  }
}
