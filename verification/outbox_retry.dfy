/** What becomes of a delivery's context, and so what a manual retry has left to send. */
module OutboxRetry {
  import opened Wrappers
  import opened OutboxTables
  import opened OutboxSystem
  import opened OutboxLeases
  import opened OutboxService

  /** A closed row has lost its context, except a failed one. */
  function ContextLeft(row: Delivery, context: Option<string>): Option<string> {
    if row.status.Sent? || row.status.Expired? then None else context
  }

  lemma ConcludedContext(s: State, step: Step, d: DeliveryId)
    requires Enabled(s, step) && step.Conclude? && d in s.db.deliveries && s.db.deliveries[d].status.Pending?
    ensures d in Apply(s, step).db.deliveries
    ensures Apply(s, step).db.deliveries[d].context == ContextLeft(Apply(s, step).db.deliveries[d], s.db.deliveries[d].context)
  {
  }

  lemma KeptContext(s: State, step: Step, d: DeliveryId)
    requires Enabled(s, step) && !step.Conclude? && d in s.db.deliveries
    ensures d in Apply(s, step).db.deliveries
    ensures Apply(s, step).db.deliveries[d].context == s.db.deliveries[d].context
    ensures Apply(s, step).db.deliveries[d].status == s.db.deliveries[d].status
  {
    if step.Claim? { ClaimEffect(s.db, step.rows, step.at, step.owner); }
  }

  lemma ContextStep(s: State, step: Step, d: DeliveryId, context: Option<string>)
    requires LeaseInv(s) && Enabled(s, step) && d in s.db.deliveries
    requires s.db.deliveries[d].context == ContextLeft(s.db.deliveries[d], context)
    ensures d in Apply(s, step).db.deliveries
    ensures Apply(s, step).db.deliveries[d].context == ContextLeft(Apply(s, step).db.deliveries[d], context)
  {
    if !s.db.deliveries[d].status.Pending? {
      ClosedRowStep(s, step, d);
    } else if step.Conclude? {
      ConcludedContext(s, step, d);
    } else {
      KeptContext(s, step, d);
    }
  }

  /** In every prompt run a delivery keeps its context until it is sent or expires; a failed one keeps it for good. */
  lemma {:induction false} ContextFollowsStatus(states: seq<State>, steps: seq<Step>, i: nat, j: nat, d: DeliveryId)
    requires PromptRun(states, steps) && i <= j < |states|
    requires d in states[i].db.deliveries && states[i].db.deliveries[d].status.Pending?
    ensures d in states[j].db.deliveries
    ensures states[j].db.deliveries[d].context == ContextLeft(states[j].db.deliveries[d], states[i].db.deliveries[d].context)
    decreases j
  {
    if i < j {
      ContextFollowsStatus(states, steps, i, j - 1, d);
      PromptRunKeepsLeases(states, steps, j - 1);
      ContextStep(states[j - 1], steps[j - 1], d, states[i].db.deliveries[d].context);
      assert states[j - 1 + 1] == Apply(states[j - 1], steps[j - 1]);
    }
  }

  /**
   * A manual retry hands the context on to the successor. Of the two kinds of rows it accepts, only a failed
   * one still has it: the successor of a delivery that was enqueued with a context has none exactly when the
   * delivery expired.
   */
  lemma SuccessorHasNoContextIff(states: seq<State>, steps: seq<Step>, i: nat, j: nat, d: DeliveryId)
    requires PromptRun(states, steps) && i <= j < |states|
    requires d in states[i].db.deliveries && states[i].db.deliveries[d].status.Pending?
    requires states[i].db.deliveries[d].context.Some?
    requires d in states[j].db.deliveries && Retryable(states[j].db.deliveries[d])
    ensures states[j].db.deliveries[d].context.None? <==> states[j].db.deliveries[d].status.Expired?
    ensures states[j].db.deliveries[d].status.Failed? ==> states[j].db.deliveries[d].context == states[i].db.deliveries[d].context
  {
    ContextFollowsStatus(states, steps, i, j, d);
  }

  /** A successor is another delivery to the provider: no manual key or provider key is used twice. */
  lemma SuccessorIsSeparate(d: DeliveryId, successor: DeliveryId, token: string, other: string)
    ensures d != successor ==> ProviderKey(d) != ProviderKey(successor)
    ensures token != other ==> ManualKey(d, token) != ManualKey(d, other)
  {
    if ProviderKey(d) == ProviderKey(successor) {
      assert d == ProviderKey(d)[15..] && successor == ProviderKey(successor)[15..];
    }
    var front := "manual:" + d + ":";
    assert ManualKey(d, token)[|front|..] == token && ManualKey(d, other)[|front|..] == other;
  }
}
