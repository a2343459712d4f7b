/** Why the recipient gets at most one copy of a delivery, whatever the workers do. */
module OutboxDelivery {
  import opened Wrappers
  import opened OutboxTables
  import opened OutboxSystem

  const PROVIDER_MEMORY := 24 * 3600 * SECOND

  /** The slack the 23 hour window leaves for a request that is still on its way when the worker gives up. */
  const MAX_TRANSIT := 3580 * SECOND

  /** A request as the provider sees it: its idempotency key and the moment it is processed. */
  datatype Request = Request(key: string, at: int)

  /** The provider delivers a request unless it delivered one with the same key less than 24 hours before. */
  ghost function Delivered(requests: seq<Request>): seq<Request> {
    if requests == [] then []
    else
      var last := requests[|requests| - 1];
      var earlier := Delivered(requests[..|requests| - 1]);
      if exists i :: 0 <= i < |earlier| && earlier[i].key == last.key && last.at - earlier[i].at < PROVIDER_MEMORY
      then earlier
      else earlier + [last]
  }

  /** Every request comes from a post of the run and is processed within the transit time, in any order. */
  ghost predicate ComesFrom(requests: seq<Request>, posts: seq<Post>) {
    forall i :: 0 <= i < |requests| ==> exists k ::
      0 <= k < |posts| && requests[i].key == posts[k].key && posts[k].at <= requests[i].at <= posts[k].at + MAX_TRANSIT
  }

  ghost predicate Near(requests: seq<Request>, key: string, from: int) {
    forall i :: 0 <= i < |requests| && requests[i].key == key ==> from <= requests[i].at < from + PROVIDER_MEMORY
  }

  lemma {:induction false} OneCopy(requests: seq<Request>, key: string, from: int)
    requires Near(requests, key, from)
    ensures Near(Delivered(requests), key, from)
    ensures forall i, j :: 0 <= i < j < |Delivered(requests)| ==>
              !(Delivered(requests)[i].key == Delivered(requests)[j].key == key)
  {
    if requests != [] {
      OneCopy(requests[..|requests| - 1], key, from);
    }
  }

  /**
   * Every request for a delivery carries the same key, is made less than 23 hours and 20 seconds after
   * attempt 1 started, and no other delivery shares its key.
   */
  lemma {:induction false} PostsShareOneWindow(states: seq<State>, steps: seq<Step>, i: nat, id: DeliveryId)
    requires Run(states, steps) && i < |states|
    ensures forall k :: 0 <= k < |states[i].posts| && states[i].posts[k].id == id ==>
      && states[i].posts[k].key == "email-delivery/" + id
      && FirstStart(states[i].db.attempts, id).Some?
      && 0 <= states[i].posts[k].at - FirstStart(states[i].db.attempts, id).value < (23 * 3600 + 20) * 1_000_000
    ensures forall k :: 0 <= k < |states[i].posts| && states[i].posts[k].key == ProviderKey(id) ==>
      states[i].posts[k].id == id
  {
    RunIsGood(states, steps, i);
    var s := states[i];
    forall k | 0 <= k < |s.posts| && s.posts[k].key == ProviderKey(id) ensures s.posts[k].id == id {
      assert PostOk(s, s.posts[k]);
      KeyIsInjective(s.posts[k].id, id);
    }
    forall k | 0 <= k < |s.posts| && s.posts[k].id == id
      ensures s.posts[k].key == ProviderKey(id)
      ensures FirstStart(s.db.attempts, id).Some?
      ensures 0 <= s.posts[k].at - FirstStart(s.db.attempts, id).value < REPLAY_WINDOW + TIMEOUT
    {
      assert PostOk(s, s.posts[k]);
    }
  }

  lemma KeyIsInjective(a: DeliveryId, b: DeliveryId)
    requires ProviderKey(a) == ProviderKey(b)
    ensures a == b
  {
    var n := |"email-delivery/"|;
    assert a == ProviderKey(a)[n..];
    assert b == ProviderKey(b)[n..];
  }

  /**
   * At most one copy per delivery, in every run: crashes, timeouts, retries and overrun leases included,
   * and with requests that are lost, reordered or processed up to MAX_TRANSIT late.
   */
  lemma {:induction false} AtMostOneCopy(states: seq<State>, steps: seq<Step>, i: nat, requests: seq<Request>, id: DeliveryId)
    requires Run(states, steps) && i < |states|
    requires ComesFrom(requests, states[i].posts)
    ensures forall a, b :: 0 <= a < b < |Delivered(requests)| ==>
              !(Delivered(requests)[a].key == Delivered(requests)[b].key == ProviderKey(id))
  {
    var s := states[i];
    PostsShareOneWindow(states, steps, i, id);
    var first := FirstStart(s.db.attempts, id);
    var from := if first.Some? then first.value else 0;
    forall r | 0 <= r < |requests| && requests[r].key == ProviderKey(id)
      ensures from <= requests[r].at < from + PROVIDER_MEMORY
    {
      var k :| 0 <= k < |s.posts| && requests[r].key == s.posts[k].key && s.posts[k].at <= requests[r].at <= s.posts[k].at + MAX_TRANSIT;
      assert s.posts[k].id == id;
    }
    OneCopy(requests, ProviderKey(id), from);
  }

  /** A delivery is only ever marked sent after one of its requests reached the provider. */
  lemma SentMeansPosted(states: seq<State>, steps: seq<Step>, i: nat, id: DeliveryId)
    requires Run(states, steps) && i < |states|
    requires id in states[i].db.deliveries && states[i].db.deliveries[id].status.Sent?
    ensures exists k :: 0 <= k < |states[i].posts| && states[i].posts[k].id == id
  {
    RunIsGood(states, steps, i);
    assert Posted(states[i].posts, id);
  }

  /** The ledger of attempts in every run: numbered 1 .. attemptCount, at most four retryable failures. */
  lemma {:induction false} AttemptLedger(states: seq<State>, steps: seq<Step>, i: nat, id: DeliveryId)
    requires Run(states, steps) && i < |states| && id in states[i].db.deliveries
    ensures Numbers(states[i].db.attempts, id) == OneTo(states[i].db.deliveries[id].attemptCount)
    ensures Retries(states[i].db.attempts, id) <= 4
  {
    RunIsGood(states, steps, i);
    AtMostFourRetryableFailures(states[i].db, id);
  }

  /** enqueue is idempotent: no two rows of a run carry the same idempotency key. */
  lemma OneRowPerKey(states: seq<State>, steps: seq<Step>, i: nat, d: DeliveryId, e: DeliveryId)
    requires Run(states, steps) && i < |states|
    requires d in states[i].db.deliveries && e in states[i].db.deliveries
    requires states[i].db.deliveries[d].idempotencyKey == states[i].db.deliveries[e].idempotencyKey
    ensures d == e
  {
    RunIsGood(states, steps, i);
  }
}
