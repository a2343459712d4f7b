/** Fixed-window counting in Postgres, its opportunistic cleanup, and the in-memory form of the same limiter. */
module RateLimit {
  import opened Wrappers

  /** Clock readings are in microseconds. */
  const SECOND := 1_000_000
  const STALE_AGE := 86400 * SECOND

  type Key = string

  datatype Row = Row(lastUsed: int, count: nat)

  type Table = map<Key, Row>

  // ---------- the statements ----------

  function Cleanup(t: Table, now: int): Table {
    map k | k in t && t[k].lastUsed >= now - STALE_AGE :: t[k]
  }

  /** The upsert: the window is anchored at the first hit and starts over once the row is older than it. */
  function Counted(row: Option<Row>, window: int, now: int): Row {
    if row.None? || row.value.lastUsed < now - window then Row(now, 1)
    else Row(row.value.lastUsed, row.value.count + 1)
  }

  function Get(t: Table, key: Key): Option<Row> {
    if key in t then Some(t[key]) else None
  }

  function Upsert(t: Table, key: Key, window: int, now: int): Table {
    t[key := Counted(Get(t, key), window, now)]
  }

  /** The in-memory form: the window is over once its age reaches the window, not only when it exceeds it. */
  function CountedInMemory(entry: Option<Row>, window: int, now: int): Row {
    var e := if entry.None? then Row(now, 0) else entry.value;
    var e' := if now - e.lastUsed >= window then Row(now, 0) else e;
    Row(e'.lastUsed, e'.count + 1)
  }

  class PostgresRateLimiter {
    var rows: Table

    constructor ()
      ensures rows == map[]
    {
      rows := map[];
    }

    /** Counts before it checks: a refused hit is counted too. */
    method Hit(key: Key, limit: int, window: int, now: int) returns (allowed: bool)
      modifies this
      ensures rows == Upsert(Cleanup(old(rows), now), key, window, now)
      ensures allowed <==> rows[key].count <= limit
    {
      rows := map k | k in rows && rows[k].lastUsed >= now - STALE_AGE :: rows[k];
      var cutoff := now - window;
      var count := 1;
      if key in rows {
        var row := rows[key];
        count := if row.lastUsed < cutoff then 1 else row.count + 1;
        rows := rows[key := Row(if row.lastUsed < cutoff then now else row.lastUsed, count)];
      } else {
        rows := rows[key := Row(now, 1)];
      }
      allowed := count <= limit;
    }

    method Clear(keys: set<Key>)
      modifies this
      ensures rows == old(rows) - keys
    {
      rows := rows - keys;
    }
  }

  class InMemoryRateLimiter {
    var counters: Table

    constructor ()
      ensures counters == map[]
    {
      counters := map[];
    }

    method Hit(key: Key, limit: int, window: int, now: int) returns (allowed: bool)
      modifies this
      ensures counters == old(counters)[key := CountedInMemory(Get(old(counters), key), window, now)]
      ensures allowed <==> counters[key].count <= limit
    {
      var windowStart, count := now, 0;
      if key in counters { windowStart, count := counters[key].lastUsed, counters[key].count; }
      if now - windowStart >= window { windowStart, count := now, 0; }
      count := count + 1;
      counters := counters[key := Row(windowStart, count)];
      allowed := count <= limit;
    }

    method Clear(keys: seq<Key>)
      modifies this
      ensures counters == old(counters) - set k | k in keys
    {
      for i := 0 to |keys|
        invariant counters == old(counters) - set k | k in keys[..i]
      {
        counters := counters - {keys[i]};
        assert keys[..i + 1] == keys[..i] + [keys[i]];
      }
      assert keys[..|keys|] == keys;
    }
  }

  // ---------- traces ----------

  datatype Op = Hit(key: Key, limit: int, window: int, at: int) | Clear(keys: set<Key>)

  /** Which limiter plays a trace. */
  datatype Limiter = Cleaning | Keeping | InMemory

  function Step(l: Limiter, t: Table, op: Op): Table {
    match op
    case Clear(keys) => t - keys
    case Hit(key, limit, window, at) =>
      match l
      case Cleaning => Upsert(Cleanup(t, at), key, window, at)
      case Keeping => Upsert(t, key, window, at)
      case InMemory => t[key := CountedInMemory(Get(t, key), window, at)]
  }

  predicate Allows(l: Limiter, t: Table, op: Op) {
    op.Hit? ==> Step(l, t, op)[op.key].count <= op.limit
  }

  /** The answers of a limiter to a trace; a clear is answered true. */
  function Answers(l: Limiter, t: Table, ops: seq<Op>): (r: seq<bool>)
    ensures |r| == |ops|
    decreases |ops|
  {
    if ops == [] then [] else [Allows(l, t, ops[0])] + Answers(l, Step(l, t, ops[0]), ops[1..])
  }

  /** Hits come in the order of a clock that never runs backwards. */
  ghost predicate Timely(ops: seq<Op>, now: int) {
    ops == [] ||
    (if ops[0].Hit? then now <= ops[0].at && Timely(ops[1..], ops[0].at) else Timely(ops[1..], now))
  }

  ghost predicate ShortWindows(ops: seq<Op>) {
    forall i :: 0 <= i < |ops| && ops[i].Hit? ==> ops[i].window <= STALE_AGE
  }

  /** A hit removes exactly the rows that are older than a day, and touches only its own key otherwise. */
  lemma HitTouches(t: Table, op: Op, k: Key)
    requires op.Hit?
    ensures op.key in Step(Cleaning, t, op)
    ensures k != op.key ==>
              (k in Step(Cleaning, t, op) <==> k in t && op.at - t[k].lastUsed <= 86_400_000_000)
    ensures k != op.key && k in Step(Cleaning, t, op) ==> Step(Cleaning, t, op)[k] == t[k]
    ensures k != op.key ==> (k in Step(InMemory, t, op) <==> k in t)
    ensures k != op.key && k in t ==> Step(InMemory, t, op)[k] == t[k]
  {
  }

  // ---------- cleanup is invisible ----------

  /** The cleaned table lacks only rows that were already stale. */
  ghost predicate Lags(cleaned: Table, kept: Table, now: int) {
    && (forall k :: k in cleaned ==> k in kept && kept[k] == cleaned[k])
    && (forall k :: k in kept && k !in cleaned ==> kept[k].lastUsed < now - STALE_AGE)
  }

  /**
   * Deleting stale rows never changes an answer: on every trace with a clock that does not run backwards and
   * windows of at most a day, the cleaning limiter answers like one that keeps every row.
   */
  lemma {:induction false} CleanupInvisible(cleaned: Table, kept: Table, ops: seq<Op>, now: int)
    requires Lags(cleaned, kept, now) && Timely(ops, now) && ShortWindows(ops)
    ensures Answers(Cleaning, cleaned, ops) == Answers(Keeping, kept, ops)
    decreases |ops|
  {
    if ops != [] {
      var c, k := Step(Cleaning, cleaned, ops[0]), Step(Keeping, kept, ops[0]);
      var later := if ops[0].Hit? then ops[0].at else now;
      assert Lags(c, k, later);
      CleanupInvisible(c, k, ops[1..], later);
    }
  }

  /** Exactly when deleting a row before a hit changes what the hit finds: it is stale but still inside the window. */
  lemma CleanupVisibleIff(row: Row, window: int, now: int)
    ensures row.lastUsed < now - STALE_AGE ==>
              (Counted(None, window, now) != Counted(Some(row), window, now) <==> now - row.lastUsed <= window)
    ensures row.lastUsed >= now - STALE_AGE ==> Get(Cleanup(map["k" := row], now), "k") == Some(row)
  {
  }

  // ---------- how many hits a window can hold ----------

  /** All hits on the key have this limit and window, and the key is never cleared. */
  ghost predicate FixedRule(ops: seq<Op>, key: Key, limit: int, window: int) {
    forall i :: 0 <= i < |ops| ==>
      if ops[i].Hit? then ops[i].key == key ==> ops[i].limit == limit && ops[i].window == window
      else key !in ops[i].keys
  }

  /** Accepted hits on a key in the closed interval [from, from + window]. */
  ghost function AcceptedIn(l: Limiter, t: Table, ops: seq<Op>, key: Key, from: int, window: int): nat
    decreases |ops|
  {
    if ops == [] then 0
    else
      var here := ops[0].Hit? && ops[0].key == key && from <= ops[0].at <= from + window && Allows(l, t, ops[0]);
      (if here then 1 else 0) + AcceptedIn(l, Step(l, t, ops[0]), ops[1..], key, from, window)
  }

  function AtLeastZero(x: int): nat {
    if x < 0 then 0 else x
  }

  /** How many more hits a row still lets through inside the interval. */
  ghost function Room(row: Option<Row>, limit: int, window: int, from: int, now: int): nat
    requires limit >= 1
  {
    if now < from || row.None? then 2 * limit - 1
    else if row.value.lastUsed > from + window then 0
    else if row.value.lastUsed >= from then AtLeastZero(limit - row.value.count)
    else AtLeastZero(limit - row.value.count) + limit
  }

  lemma {:induction false} RoomSuffices(t: Table, ops: seq<Op>, key: Key, limit: int, window: int, from: int, now: int)
    requires limit >= 1 && window >= 0
    requires Timely(ops, now) && FixedRule(ops, key, limit, window)
    requires key in t ==> t[key].lastUsed <= now && t[key].count >= 1
    ensures AcceptedIn(Keeping, t, ops, key, from, window) <= Room(Get(t, key), limit, window, from, now)
    decreases |ops|
  {
    if ops != [] {
      var t' := Step(Keeping, t, ops[0]);
      var later := if ops[0].Hit? then ops[0].at else now;
      if ops[0].Clear? { assert Get(t', key) == Get(t, key); }
      RoomSuffices(t', ops[1..], key, limit, window, from, later);
    }
  }

  lemma {:induction false} SameCount(cleaned: Table, kept: Table, ops: seq<Op>, key: Key, from: int,
                                     window: int, now: int)
    requires Lags(cleaned, kept, now) && Timely(ops, now) && ShortWindows(ops)
    ensures AcceptedIn(Cleaning, cleaned, ops, key, from, window) == AcceptedIn(Keeping, kept, ops, key, from, window)
    decreases |ops|
  {
    if ops != [] {
      var c, k := Step(Cleaning, cleaned, ops[0]), Step(Keeping, kept, ops[0]);
      var later := if ops[0].Hit? then ops[0].at else now;
      assert Lags(c, k, later);
      SameCount(c, k, ops[1..], key, from, window, later);
    }
  }

  /**
   * Any interval as long as the window contains fewer than 2 * limit accepted hits on a key, whatever other
   * hits, cleanups and clears of other keys come between.
   */
  lemma {:induction false} FewerThanTwiceTheLimit(ops: seq<Op>, key: Key, limit: int, window: int, from: int, now: int)
    requires limit >= 1 && 0 <= window <= STALE_AGE
    requires Timely(ops, now) && ShortWindows(ops) && FixedRule(ops, key, limit, window)
    ensures AcceptedIn(Cleaning, map[], ops, key, from, window) <= 2 * limit - 1
  {
    SameCount(map[], map[], ops, key, from, window, now);
    RoomSuffices(map[], ops, key, limit, window, from, now);
  }

  /** The bound is reached: with limit 2 and a window of 10, hits at 0, 9, 11 and 12 put three into [9, 19]. */
  lemma BoundIsReached()
    ensures var hits := [Hit("k", 2, 10, 0), Hit("k", 2, 10, 9), Hit("k", 2, 10, 11), Hit("k", 2, 10, 12)];
      AcceptedIn(Cleaning, map[], hits, "k", 9, 10) == 2 * 2 - 1
  {
    var a, b, c, d := Hit("k", 2, 10, 0), Hit("k", 2, 10, 9), Hit("k", 2, 10, 11), Hit("k", 2, 10, 12);
    var hits := [a, b, c, d];
    assert hits[1..] == [b, c, d] && [b, c, d][1..] == [c, d] && [c, d][1..] == [d] && [d][1..] == [];
    var t1 := Step(Cleaning, map[], a);
    assert t1 == map["k" := Row(0, 1)];
    var t2 := Step(Cleaning, t1, b);
    assert t2 == map["k" := Row(0, 2)];
    var t3 := Step(Cleaning, t2, c);
    assert t3 == map["k" := Row(11, 1)];
    var t4 := Step(Cleaning, t3, d);
    assert t4 == map["k" := Row(11, 2)];
    assert AcceptedIn(Cleaning, t4, [], "k", 9, 10) == 0;
    assert AcceptedIn(Cleaning, t3, [d], "k", 9, 10) == 1;
    assert AcceptedIn(Cleaning, t2, [c, d], "k", 9, 10) == 2;
    assert AcceptedIn(Cleaning, t1, [b, c, d], "k", 9, 10) == 3;
  }

  // ---------- the in-memory form ----------

  /** No hit finds a row whose age is exactly the window. */
  ghost predicate NeverExactlyDue(t: Table, ops: seq<Op>)
    decreases |ops|
  {
    ops == [] ||
    ((ops[0].Hit? && ops[0].key in t ==> ops[0].at - t[ops[0].key].lastUsed != ops[0].window)
     && NeverExactlyDue(Step(Keeping, t, ops[0]), ops[1..]))
  }

  /** On such traces the in-memory limiter answers like the Postgres one. */
  lemma {:induction false} InMemoryAgrees(t: Table, ops: seq<Op>, now: int)
    requires Timely(ops, now) && ShortWindows(ops) && NeverExactlyDue(t, ops)
    ensures Answers(InMemory, t, ops) == Answers(Cleaning, t, ops)
  {
    InMemoryKeeps(t, ops);
    CleanupInvisible(t, t, ops, now);
  }

  lemma {:induction false} InMemoryKeeps(t: Table, ops: seq<Op>)
    requires NeverExactlyDue(t, ops)
    ensures Answers(InMemory, t, ops) == Answers(Keeping, t, ops)
    decreases |ops|
  {
    if ops != [] {
      assert Step(InMemory, t, ops[0]) == Step(Keeping, t, ops[0]);
      InMemoryKeeps(Step(Keeping, t, ops[0]), ops[1..]);
    }
  }

  /** And only then: a hit leaves the two with the same row iff it does not fall exactly on the end of the window. */
  lemma InMemoryDiffersIff(row: Row, window: int, now: int)
    requires row.count >= 1
    ensures CountedInMemory(Some(row), window, now) != Counted(Some(row), window, now) <==> now - row.lastUsed == window
  {
  }

  /** And it shows: whatever the window, only the in-memory limiter allows a second hit right at its end. */
  lemma SecondHitAtTheEnd(key: Key, window: int, at: int)
    requires 0 <= window <= STALE_AGE
    ensures var ops := [Hit(key, 1, window, at), Hit(key, 1, window, at + window)];
      Answers(Cleaning, map[], ops) == [true, false] && Answers(InMemory, map[], ops) == [true, true]
  {
    var a, b := Hit(key, 1, window, at), Hit(key, 1, window, at + window);
    assert [a, b][1..] == [b] && [b][1..] == [];
    OneAnswer(Cleaning, Step(Cleaning, map[], a), b);
    OneAnswer(InMemory, Step(InMemory, map[], a), b);
  }

  lemma {:induction false} OneAnswer(l: Limiter, t: Table, op: Op)
    ensures Answers(l, t, [op]) == [Allows(l, t, op)]
  {
    assert [op][1..] == [];
  }
}
