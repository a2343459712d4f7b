/** Signed requests: a timestamp check, then a nonce that is limited to one use. */
module SignedRequests {
  import opened RateLimit
  import opened Wrappers

  const MAX_AGE := 300
  const NONCE_WINDOW := 600 * SECOND

  /** abs(int(time.time()) - timestamp) <= 300; the clock counts from the epoch. */
  predicate Fresh(timestamp: int, now: nat) {
    -MAX_AGE <= now / SECOND - timestamp <= MAX_AGE
  }

  datatype Verdict = Verified | Stale | Rejected | Replayed | TooMany

  /** What the guard counts once the nonce has been accepted, in this order, until one limit refuses. */
  function LimitHits(route: Op, client: Option<Op>): seq<Op> {
    if client.Some? then [route, client.value] else [route]
  }

  /** Whether all hits are allowed, and the table after the last one that was counted. */
  function PlayHits(t: Table, hits: seq<Op>): (bool, Table)
    decreases |hits|
  {
    if hits == [] then (true, t)
    else if !Allows(Cleaning, t, hits[0]) then (false, Step(Cleaning, t, hits[0]))
    else PlayHits(Step(Cleaning, t, hits[0]), hits[1..])
  }

  /** The verdict on a request and the table it leaves: the nonce is counted later than the timestamp is checked. */
  function Guarded(t: Table, timestamp: int, nonce: Key, limits: seq<Op>, genuine: bool,
                   checkedAt: nat, hitAt: nat): (Verdict, Table)
  {
    if !Fresh(timestamp, checkedAt) then (Stale, t)
    else if !genuine then (Rejected, t)
    else
      var op := Hit(nonce, 1, NONCE_WINDOW, hitAt);
      var after := Step(Cleaning, t, op);
      if !Allows(Cleaning, t, op) then (Replayed, after)
      else
        var limited := PlayHits(after, limits);
        (if limited.0 then Verified else TooMany, limited.1)
  }

  lemma {:induction false} PlayOne(t: Table, a: Op)
    ensures PlayHits(t, [a]) == (Allows(Cleaning, t, a), Step(Cleaning, t, a))
  {
    assert [a][1..] == [];
  }

  lemma {:induction false} PlayTwo(t: Table, a: Op, b: Op)
    ensures PlayHits(t, [a, b]) ==
            if Allows(Cleaning, t, a) then PlayHits(Step(Cleaning, t, a), [b]) else (false, Step(Cleaning, t, a))
  {
    assert [a, b][1..] == [b];
  }

  class Guard {
    const limiter: PostgresRateLimiter
    const routeLimit: int
    const routeWindow: int
    const clientLimit: int
    const clientWindow: int

    constructor (limiter: PostgresRateLimiter, routeLimit: int, routeWindow: int, clientLimit: int, clientWindow: int)
      ensures this.limiter == limiter && this.routeLimit == routeLimit && this.routeWindow == routeWindow
      ensures this.clientLimit == clientLimit && this.clientWindow == clientWindow
    {
      this.limiter, this.routeLimit, this.routeWindow := limiter, routeLimit, routeWindow;
      this.clientLimit, this.clientWindow := clientLimit, clientWindow;
    }

    /**
     * The order of the checks: time, form and signature (`genuine`), nonce, route limit, client limit. The nonce
     * is spent even if a limit then refuses the request. The body is read between the two clock readings.
     */
    method Require(timestamp: int, nonce: Key, route: Key, client: Option<Key>, genuine: bool, checkedAt: nat,
                   hitAt: nat) returns (v: Verdict)
      modifies limiter
      ensures (v, limiter.rows) == Guarded(
        old(limiter.rows), timestamp, nonce,
        LimitHits(Hit(route, routeLimit, routeWindow, hitAt),
                  if client.Some? then Some(Hit(client.value, clientLimit, clientWindow, hitAt)) else None),
        genuine, checkedAt, hitAt)
    {
      if !(-MAX_AGE <= checkedAt / SECOND - timestamp <= MAX_AGE) { return Stale; }
      if !genuine { return Rejected; }
      var allowed := limiter.Hit(nonce, 1, NONCE_WINDOW, hitAt);
      if !allowed { return Replayed; }
      ghost var first := Hit(route, routeLimit, routeWindow, hitAt);
      PlayOne(limiter.rows, first);
      if client.Some? {
        ghost var second := Hit(client.value, clientLimit, clientWindow, hitAt);
        PlayTwo(limiter.rows, first, second);
        PlayOne(Step(Cleaning, limiter.rows, first), second);
      }
      allowed := limiter.Hit(route, routeLimit, routeWindow, hitAt);
      if !allowed { return TooMany; }
      if client.Some? {
        allowed := limiter.Hit(client.value, clientLimit, clientWindow, hitAt);
      }
      v := if allowed then Verified else TooMany;
    }
  }

  // ---------- what each verdict means ----------

  /** The nonce was counted at most ten minutes before. */
  predicate Spent(t: Table, nonce: Key, at: int) {
    nonce in t && t[nonce].count >= 1 && at - t[nonce].lastUsed <= 600_000_000
  }

  lemma NonceAllowedIff(t: Table, nonce: Key, at: int)
    ensures Allows(Cleaning, t, Hit(nonce, 1, NONCE_WINDOW, at)) <==> !Spent(t, nonce, at)
  {
  }

  /**
   * A request is verified exactly when its time is within five minutes of the clock, its signature is genuine, its
   * nonce is unspent, and the limit of the route and that of its client, if it names one, each have room for it.
   */
  lemma VerifiedIff(t: Table, timestamp: int, nonce: Key, route: Op, client: Option<Op>, genuine: bool, checkedAt: nat,
                    hitAt: nat)
    requires route.Hit? && (client.Some? ==> client.value.Hit?)
    ensures var t1 := Step(Cleaning, t, Hit(nonce, 1, 600_000_000, hitAt));
      Guarded(t, timestamp, nonce, LimitHits(route, client), genuine, checkedAt, hitAt).0.Verified? <==>
        && timestamp - 300 <= checkedAt / 1_000_000 <= timestamp + 300
        && genuine
        && !Spent(t, nonce, hitAt)
        && Allows(Cleaning, t1, route)
        && (client.Some? ==> Allows(Cleaning, Step(Cleaning, t1, route), client.value))
  {
    NonceAllowedIff(t, nonce, hitAt);
    PlayLimits(Step(Cleaning, t, Hit(nonce, 1, NONCE_WINDOW, hitAt)), route, client);
  }

  lemma {:induction false} PlayLimits(t: Table, route: Op, client: Option<Op>)
    ensures var t' := Step(Cleaning, t, route);
      PlayHits(t, LimitHits(route, client)) ==
      if !Allows(Cleaning, t, route) then (false, t')
      else if client.None? then (true, t')
      else (Allows(Cleaning, t', client.value), Step(Cleaning, t', client.value))
  {
    PlayOne(t, route);
    if client.Some? {
      PlayTwo(t, route, client.value);
      PlayOne(Step(Cleaning, t, route), client.value);
    }
  }

  /** Why a request is refused, and what a refusal costs: nothing is counted before the signature is known to be genuine. */
  lemma RefusedIff(t: Table, timestamp: int, nonce: Key, route: Op, client: Option<Op>, genuine: bool, checkedAt: nat,
                   hitAt: nat)
    requires route.Hit? && (client.Some? ==> client.value.Hit?)
    ensures var (verdict, after) := Guarded(t, timestamp, nonce, LimitHits(route, client), genuine, checkedAt, hitAt);
      var timely := timestamp - 300 <= checkedAt / 1_000_000 <= timestamp + 300;
      var t1 := Step(Cleaning, t, Hit(nonce, 1, 600_000_000, hitAt));
      var t2 := Step(Cleaning, t1, route);
      && (verdict.Stale? <==> !timely)
      && (verdict.Rejected? <==> timely && !genuine)
      && (verdict.Replayed? <==> timely && genuine && Spent(t, nonce, hitAt))
      && (verdict.Stale? || verdict.Rejected? ==> after == t)
      && (verdict.Replayed? ==> after == t1)
      && (verdict.TooMany? || verdict.Verified? ==>
            after == if client.None? || !Allows(Cleaning, t1, route) then t2 else Step(Cleaning, t2, client.value))
  {
    NonceAllowedIff(t, nonce, hitAt);
    PlayLimits(Step(Cleaning, t, Hit(nonce, 1, NONCE_WINDOW, hitAt)), route, client);
  }

  // ---------- one use of a nonce ----------

  /** Two accepted uses of one nonce lie more than 600 seconds apart, in every trace of the shared limiter. */
  lemma {:induction false} AcceptedUsesAreFarApart(ops: seq<Op>, nonce: Key, i: nat, j: nat, now: int)
    requires Timely(ops, now) && ShortWindows(ops) && FixedRule(ops, nonce, 1, NONCE_WINDOW)
    requires i < j < |ops| && ops[i].Hit? && ops[j].Hit? && ops[i].key == ops[j].key == nonce
    requires Answers(Cleaning, map[], ops)[i] && Answers(Cleaning, map[], ops)[j]
    ensures ops[j].at - ops[i].at > NONCE_WINDOW
  {
    FewerThanTwiceTheLimit(ops, nonce, 1, NONCE_WINDOW, ops[i].at, now);
    TimesGrow(ops, i, j, now);
    if ops[j].at - ops[i].at <= NONCE_WINDOW {
      BothCount(map[], ops, nonce, ops[i].at, NONCE_WINDOW, i, j);
    }
  }

  lemma {:induction false} TimesGrow(ops: seq<Op>, i: nat, j: nat, now: int)
    requires Timely(ops, now) && i <= j < |ops| && ops[i].Hit? && ops[j].Hit?
    ensures now <= ops[i].at <= ops[j].at
    decreases |ops|
  {
    if i > 0 {
      TimesGrow(ops[1..], i - 1, j - 1, if ops[0].Hit? then ops[0].at else now);
    } else if j > 0 {
      FirstIsEarliest(ops[1..], j - 1, ops[0].at);
    }
  }

  lemma {:induction false} FirstIsEarliest(ops: seq<Op>, j: nat, now: int)
    requires Timely(ops, now) && j < |ops| && ops[j].Hit?
    ensures now <= ops[j].at
    decreases |ops|
  {
    if j > 0 { FirstIsEarliest(ops[1..], j - 1, if ops[0].Hit? then ops[0].at else now); }
  }

  lemma {:induction false} OneCounts(t: Table, ops: seq<Op>, key: Key, from: int, window: int, j: nat)
    requires j < |ops| && ops[j].Hit? && ops[j].key == key && from <= ops[j].at <= from + window
    requires Answers(Cleaning, t, ops)[j]
    ensures AcceptedIn(Cleaning, t, ops, key, from, window) >= 1
    decreases |ops|
  {
    if j > 0 { OneCounts(Step(Cleaning, t, ops[0]), ops[1..], key, from, window, j - 1); }
  }

  lemma {:induction false} BothCount(t: Table, ops: seq<Op>, key: Key, from: int, window: int, i: nat, j: nat)
    requires i < j < |ops| && ops[i].Hit? && ops[j].Hit? && ops[i].key == ops[j].key == key
    requires from <= ops[i].at <= from + window && from <= ops[j].at <= from + window
    requires Answers(Cleaning, t, ops)[i] && Answers(Cleaning, t, ops)[j]
    ensures AcceptedIn(Cleaning, t, ops, key, from, window) >= 2
    decreases |ops|
  {
    var t' := Step(Cleaning, t, ops[0]);
    if i > 0 { BothCount(t', ops[1..], key, from, window, i - 1, j - 1); }
    else { OneCounts(t', ops[1..], key, from, window, j - 1); }
  }

  /**
   * The code reads the clock twice, for the timestamp check at `ci` and `cj` and for the nonce at the hit. With
   * checks on whole seconds a request with a given timestamp and nonce is accepted at most once, whatever happens
   * between, unless its repetition takes longer from the check to the hit than its first use did.
   */
  lemma {:induction false} AcceptedOnce(ops: seq<Op>, nonce: Key, timestamp: int, i: nat, j: nat, ci: nat, cj: nat, now: int)
    requires Timely(ops, now) && ShortWindows(ops) && FixedRule(ops, nonce, 1, NONCE_WINDOW)
    requires i < j < |ops| && ops[i].Hit? && ops[j].Hit? && ops[i].key == ops[j].key == nonce
    requires ci % SECOND == 0 && cj % SECOND == 0 && Fresh(timestamp, ci) && Fresh(timestamp, cj)
    requires ops[j].at - cj <= ops[i].at - ci
    ensures !(Answers(Cleaning, map[], ops)[i] && Answers(Cleaning, map[], ops)[j])
  {
    if Answers(Cleaning, map[], ops)[i] && Answers(Cleaning, map[], ops)[j] {
      AcceptedUsesAreFarApart(ops, nonce, i, j, now);
    }
  }

  /** Every row in the table was hit. */
  predicate Counting(t: Table) {
    forall k :: k in t ==> t[k].count >= 1
  }

  /** While the uses of a spent nonce are refused, the next one is accepted exactly when the window has passed. */
  lemma {:induction false} AfterUse(t: Table, ops: seq<Op>, nonce: Key, used: int, j: nat)
    requires FixedRule(ops, nonce, 1, NONCE_WINDOW) && j < |ops| && ops[j].Hit? && ops[j].key == nonce
    requires nonce in t && t[nonce].lastUsed == used && t[nonce].count >= 1
    requires forall k :: 0 <= k < j && ops[k].Hit? && ops[k].key == nonce ==> !Answers(Keeping, t, ops)[k]
    ensures Answers(Keeping, t, ops)[j] <==> ops[j].at - used > NONCE_WINDOW
    decreases |ops|
  {
    if j > 0 {
      var t' := Step(Keeping, t, ops[0]);
      assert Answers(Keeping, t, ops)[0] == Allows(Keeping, t, ops[0]);
      AfterUse(t', ops[1..], nonce, used, j - 1);
    }
  }

  lemma {:induction false} NextUse(t: Table, ops: seq<Op>, nonce: Key, i: nat, j: nat)
    requires FixedRule(ops, nonce, 1, NONCE_WINDOW) && Counting(t)
    requires i < j < |ops| && ops[i].Hit? && ops[j].Hit? && ops[i].key == ops[j].key == nonce
    requires Answers(Keeping, t, ops)[i]
    requires forall k :: i < k < j && ops[k].Hit? && ops[k].key == nonce ==> !Answers(Keeping, t, ops)[k]
    ensures Answers(Keeping, t, ops)[j] <==> ops[j].at - ops[i].at > NONCE_WINDOW
    decreases |ops|
  {
    var t' := Step(Keeping, t, ops[0]);
    if i > 0 {
      NextUse(t', ops[1..], nonce, i - 1, j - 1);
    } else {
      assert Answers(Keeping, t, ops)[0] == Allows(Keeping, t, ops[0]);
      AfterUse(t', ops[1..], nonce, ops[0].at, j - 1);
    }
  }

  /**
   * On any clock, exactly when a request is accepted again: its next use must take longer from check to hit
   * than the accepted one did, by more than 600 seconds less the time between the two checks.
   */
  lemma {:induction false} AcceptedAgainIff(ops: seq<Op>, nonce: Key, i: nat, j: nat, ci: nat, cj: nat, now: int)
    requires Timely(ops, now) && ShortWindows(ops) && FixedRule(ops, nonce, 1, NONCE_WINDOW)
    requires i < j < |ops| && ops[i].Hit? && ops[j].Hit? && ops[i].key == ops[j].key == nonce
    requires Answers(Cleaning, map[], ops)[i]
    requires forall k :: i < k < j && ops[k].Hit? && ops[k].key == nonce ==> !Answers(Cleaning, map[], ops)[k]
    ensures Answers(Cleaning, map[], ops)[j] <==> (ops[j].at - cj) - (ops[i].at - ci) > NONCE_WINDOW - (cj - ci)
  {
    CleanupInvisible(map[], map[], ops, now);
    NextUse(map[], ops, nonce, i, j);
  }

  /**
   * So the two windows do not fit together even on whole seconds: every request whose first use is checked and
   * counted 300 seconds early is verified once more if it is sent 300 seconds late and its body takes any time.
   */
  lemma SlowBodyIsAcceptedTwice(timestamp: nat, nonce: Key, route: Key, limit: int, window: int, delay: nat)
    requires timestamp >= MAX_AGE && nonce != route && limit >= 1 && 0 <= window <= NONCE_WINDOW && delay > 0
    ensures var early, late := (timestamp - MAX_AGE) * SECOND, (timestamp + MAX_AGE) * SECOND;
      var first := Guarded(map[], timestamp, nonce, [Hit(route, limit, window, early)], true, early, early);
      var again := Hit(route, limit, window, late + delay);
      var second := Guarded(first.1, timestamp, nonce, [again], true, late, late + delay);
      first.0 == Verified && second.0 == Verified
  {
    var early, late := (timestamp - MAX_AGE) * SECOND, (timestamp + MAX_AGE) * SECOND;
    var t := Step(Cleaning, map[], Hit(nonce, 1, NONCE_WINDOW, early));
    PlayOne(t, Hit(route, limit, window, early));
    var between := Step(Cleaning, t, Hit(route, limit, window, early));
    var t' := Step(Cleaning, between, Hit(nonce, 1, NONCE_WINDOW, late + delay));
    PlayOne(t', Hit(route, limit, window, late + delay));
    assert late - early == NONCE_WINDOW;
  }

  /** On any clock: a spent nonce is accepted again exactly when the hits lie more than 600 seconds apart. */
  lemma ReplayAcceptedIff(t: Table, nonce: Key, at: int)
    requires nonce in t && t[nonce].count >= 1 && t[nonce].lastUsed <= at
    ensures Allows(Cleaning, t, Hit(nonce, 1, NONCE_WINDOW, at)) <==> at - t[nonce].lastUsed > NONCE_WINDOW
  {
  }

  /**
   * And without any delay a finer clock is enough: the timestamp check rounds down, so a request can pass it at
   * two moments 600.5 seconds apart, and is then accepted twice.
   */
  lemma AcceptedTwiceOnAFinerClock()
    ensures var first, second := 700 * SECOND, 1300 * SECOND + SECOND / 2;
      && Fresh(1000, first) && Fresh(1000, second)
      && Answers(Cleaning, map[], [Hit("n", 1, NONCE_WINDOW, first), Hit("n", 1, NONCE_WINDOW, second)]) == [true, true]
  {
    var a, b := Hit("n", 1, NONCE_WINDOW, 700 * SECOND), Hit("n", 1, NONCE_WINDOW, 1300 * SECOND + SECOND / 2);
    var t := Step(Cleaning, map[], a);
    assert t == map["n" := Row(700 * SECOND, 1)];
    assert [a, b][1..] == [b] && [b][1..] == [];
    assert Answers(Cleaning, Step(Cleaning, t, b), []) == [];
    assert Answers(Cleaning, t, [b]) == [true];
  }
}
