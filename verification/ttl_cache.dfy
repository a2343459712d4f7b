/** The in-process cache: least recently used entries go first, and every entry has a time to live. */
module TtlCache {
  import opened Sets
  import opened Wrappers

  datatype Entry<K, V> = Entry(key: K, value: V, expiresAt: real)

  // ---------- the ordered dictionary, oldest first ----------

  function Without<K(==), V>(es: seq<Entry<K, V>>, key: K): seq<Entry<K, V>> {
    if es == [] then [] else (if es[0].key == key then [] else [es[0]]) + Without(es[1..], key)
  }

  function Find<K(==), V>(es: seq<Entry<K, V>>, key: K): Option<Entry<K, V>> {
    if es == [] then None else if es[0].key == key then Some(es[0]) else Find(es[1..], key)
  }

  function Got<K(==), V>(es: seq<Entry<K, V>>, key: K, now: real): (seq<Entry<K, V>>, Option<V>) {
    var e := Find(es, key);
    if e.None? then (es, None)
    else if e.value.expiresAt <= now then (Without(es, key), None)
    else (Without(es, key) + [e.value], Some(e.value.value))
  }

  function Evicted<K, V>(es: seq<Entry<K, V>>, max: nat): seq<Entry<K, V>> {
    if |es| > max then es[|es| - max..] else es
  }

  function Stored<K(==), V>(es: seq<Entry<K, V>>, key: K, value: V, ttl: real, max: nat, now: real): seq<Entry<K, V>> {
    Evicted(Without(es, key) + [Entry(key, value, now + ttl)], max)
  }

  /** Expiry is forced by a time that the monotonic clock has always passed. */
  function Expired<K(==), V>(es: seq<Entry<K, V>>, key: K): seq<Entry<K, V>> {
    if es == [] then []
    else [if es[0].key == key then es[0].(expiresAt := 0.0) else es[0]] + Expired(es[1..], key)
  }

  ghost predicate DistinctKeys<K, V>(es: seq<Entry<K, V>>) {
    forall i, j :: 0 <= i < j < |es| ==> es[i].key != es[j].key
  }

  class TTLCache<K(==), V(0)> {
    const ttl: real
    const max: nat
    var entries: seq<Entry<K, V>>

    ghost predicate Valid()
      reads this
    {
      ttl >= 1.0 && max >= 1 && DistinctKeys(entries) && |entries| <= max
    }

    constructor (ttlSeconds: int, maxEntries: int)
      ensures Valid() && entries == []
      ensures ttl == (if ttlSeconds < 1 then 1 else ttlSeconds) as real
      ensures max == if maxEntries < 1 then 1 else maxEntries
    {
      ttl := (if ttlSeconds < 1 then 1 else ttlSeconds) as real;
      max := if maxEntries < 1 then 1 else maxEntries;
      entries := [];
    }

    method Get(key: K, now: real) returns (value: Option<V>)
      requires Valid()
      modifies this`entries
      ensures Valid() && (entries, value) == Got(old(entries), key, now)
    {
      var e := Find(entries, key);
      WithoutKeeps(entries, key);
      if e.None? { return None; }
      if e.value.expiresAt <= now {
        entries := Without(entries, key);
        return None;
      }
      FindIs(entries, key);
      AppendDistinct(Without(entries, key), e.value);
      entries := Without(entries, key) + [e.value];
      value := Some(e.value.value);
    }

    method Set(key: K, value: V, now: real)
      requires Valid()
      modifies this`entries
      ensures Valid() && entries == Stored(old(entries), key, value, ttl, max, now)
    {
      WithoutKeeps(entries, key);
      AppendDistinct(Without(entries, key), Entry(key, value, now + ttl));
      entries := Without(entries, key) + [Entry(key, value, now + ttl)];
      EvictIfNeeded();
    }

    method EvictIfNeeded()
      requires DistinctKeys(entries) && ttl >= 1.0 && max >= 1
      modifies this`entries
      ensures Valid() && entries == Evicted(old(entries), max)
    {
      while |entries| > max
        invariant DistinctKeys(entries) && |entries| <= |old(entries)|
        invariant entries == old(entries)[|old(entries)| - |entries|..]
        invariant |old(entries)| > max ==> |entries| >= max
        invariant |old(entries)| <= max ==> entries == old(entries)
      {
        entries := entries[1..];
      }
    }

    method Pop(key: K)
      requires Valid()
      modifies this`entries
      ensures Valid() && entries == Without(old(entries), key)
    {
      WithoutKeeps(entries, key);
      entries := Without(entries, key);
    }

    method Clear()
      requires Valid()
      modifies this`entries
      ensures Valid() && entries == []
    {
      entries := [];
    }

    method ForceExpire(key: K)
      requires Valid()
      modifies this`entries
      ensures Valid() && entries == Expired(old(entries), key)
    {
      ExpiredKeeps(entries, key);
      entries := Expired(entries, key);
    }
  }

  // ---------- the ordered dictionary's facts ----------

  lemma {:induction false} WithoutIs<K, V>(es: seq<Entry<K, V>>, key: K, e: Entry<K, V>)
    ensures e in Without(es, key) <==> e in es && e.key != key
  {
    if es != [] {
      WithoutIs(es[1..], key, e);
      assert es == [es[0]] + es[1..];
    }
  }

  lemma {:induction false} WithoutKeeps<K, V>(es: seq<Entry<K, V>>, key: K)
    requires DistinctKeys(es)
    ensures DistinctKeys(Without(es, key)) && |Without(es, key)| <= |es|
    ensures (exists e :: e in es && e.key == key) ==> |Without(es, key)| < |es|
    ensures forall e :: e in Without(es, key) ==> e.key != key
  {
    if es != [] {
      WithoutKeeps(es[1..], key);
      var rest := Without(es[1..], key);
      forall j | 0 <= j < |rest| ensures rest[j].key != es[0].key { WithoutIs(es[1..], key, rest[j]); }
      forall e | e in Without(es, key) ensures e.key != key { WithoutIs(es, key, e); }
    }
  }

  lemma {:induction false} FindIs<K, V>(es: seq<Entry<K, V>>, key: K)
    ensures Find(es, key).Some? ==> Find(es, key).value in es && Find(es, key).value.key == key
    ensures Find(es, key).None? ==> forall e :: e in es ==> e.key != key
  {
    if es != [] {
      FindIs(es[1..], key);
      assert es == [es[0]] + es[1..];
    }
  }

  lemma AppendDistinct<K, V>(es: seq<Entry<K, V>>, e: Entry<K, V>)
    requires DistinctKeys(es) && forall x :: x in es ==> x.key != e.key
    ensures DistinctKeys(es + [e])
  {
  }

  lemma {:induction false} ExpiredKeeps<K, V>(es: seq<Entry<K, V>>, key: K)
    ensures |Expired(es, key)| == |es|
    ensures forall i :: 0 <= i < |es| ==> Expired(es, key)[i] == if es[i].key == key then es[i].(expiresAt := 0.0) else es[i]
  {
    if es != [] { ExpiredKeeps(es[1..], key); }
  }

  // ---------- runs ----------

  datatype Op<K, V> =
    | Get(key: K, at: real)
    | Set(key: K, value: V, at: real)
    | Pop(key: K)
    | Clear
    | ForceExpire(key: K)

  function Apply<K(==), V>(es: seq<Entry<K, V>>, op: Op<K, V>, ttl: real, max: nat): seq<Entry<K, V>> {
    match op
    case Get(key, at) => Got(es, key, at).0
    case Set(key, value, at) => Stored(es, key, value, ttl, max, at)
    case Pop(key) => Without(es, key)
    case Clear => []
    case ForceExpire(key) => Expired(es, key)
  }

  function Run<K(==), V>(ops: seq<Op<K, V>>, ttl: real, max: nat): seq<Entry<K, V>>
    decreases |ops|
  {
    if ops == [] then [] else Apply(Run(ops[..|ops| - 1], ttl, max), ops[|ops| - 1], ttl, max)
  }

  predicate Timed<K, V>(op: Op<K, V>) {
    op.Get? || op.Set?
  }

  /** The monotonic clock starts at zero or later and never runs backwards. */
  ghost predicate Monotonic<K, V>(ops: seq<Op<K, V>>)
    decreases |ops|
  {
    ops == [] ||
    (Monotonic(ops[..|ops| - 1]) && (Timed(ops[|ops| - 1]) ==> LastRead(ops[..|ops| - 1]) <= ops[|ops| - 1].at))
  }

  // ---------- what a reader may expect, without the cache ----------

  datatype Put<V> = Put(value: V, at: real)

  /** The last value set for a key and not removed since, and when it was set: a map that never forgets. */
  function LastSet<K(==), V>(ops: seq<Op<K, V>>, key: K): Option<Put<V>>
    decreases |ops|
  {
    if ops == [] then None
    else
      var op := ops[|ops| - 1];
      if op.Set? && op.key == key then Some(Put(op.value, op.at))
      else if op.Clear? || ((op.Pop? || op.ForceExpire?) && op.key == key) then None
      else LastSet(ops[..|ops| - 1], key)
  }

  /** The key that an operation moves to the young end: one that is set, or read with success. */
  function Touches<K(==), V>(es: seq<Entry<K, V>>, op: Op<K, V>): Option<K> {
    if op.Set? || (op.Get? && Got(es, op.key, op.at).1.Some?) then Some(op.key) else None
  }

  /** The other keys touched since a key itself was. */
  ghost function TouchedSince<K, V>(ops: seq<Op<K, V>>, key: K, ttl: real, max: nat): set<K>
    decreases |ops|
  {
    if ops == [] then {}
    else
      var n := |ops| - 1;
      var touched := Touches(Run(ops[..n], ttl, max), ops[n]);
      var before := TouchedSince(ops[..n], key, ttl, max);
      if touched.None? then before else if touched.value == key then {} else before + {touched.value}
  }

  // ---------- the invariant ----------

  /** An entry holds the last value set and the end of its life, or was forced to expire and is as good as removed. */
  ghost predicate Holds<K, V>(e: Entry<K, V>, ops: seq<Op<K, V>>, ttl: real) {
    var last := LastSet(ops, e.key);
    if last.None? then e.expiresAt == 0.0
    else last.value.value == e.value && e.expiresAt == last.value.at + ttl
  }

  predicate Has<K(==), V>(es: seq<Entry<K, V>>, key: K) {
    exists i :: 0 <= i < |es| && es[i].key == key
  }

  /** Key b has a younger entry than key a. */
  predicate Younger<K(==), V>(es: seq<Entry<K, V>>, a: K, b: K) {
    exists i, j :: 0 <= i < j < |es| && es[i].key == a && es[j].key == b
  }

  /** A key set, still alive and yet absent was pushed out by enough other keys. */
  ghost predicate PushedOut<K, V>(key: K, ops: seq<Op<K, V>>, now: real, ttl: real, max: nat) {
    var last := LastSet(ops, key);
    last.Some? && now < last.value.at + ttl ==> |TouchedSince(ops, key, ttl, max)| >= max
  }

  ghost predicate AllHold<K, V>(es: seq<Entry<K, V>>, ops: seq<Op<K, V>>, ttl: real) {
    forall e :: e in es ==> Holds(e, ops, ttl)
  }

  /** Keys with younger entries than a key's were touched after it. */
  ghost predicate YoungerTouched<K(!new), V>(es: seq<Entry<K, V>>, ops: seq<Op<K, V>>, ttl: real, max: nat) {
    forall a, b :: Younger(es, a, b) ==> b in TouchedSince(ops, a, ttl, max)
  }

  ghost predicate AbsentPushedOut<K(!new), V>(es: seq<Entry<K, V>>, ops: seq<Op<K, V>>, now: real, ttl: real, max: nat) {
    forall key :: !Has(es, key) ==> PushedOut(key, ops, now, ttl, max)
  }

  ghost predicate Inv<K(!new), V>(es: seq<Entry<K, V>>, ops: seq<Op<K, V>>, now: real, ttl: real, max: nat) {
    && DistinctKeys(es) && |es| <= max
    && AllHold(es, ops, ttl)
    && YoungerTouched(es, ops, ttl, max)
    && AbsentPushedOut(es, ops, now, ttl, max)
  }

  // ---------- order ----------

  lemma {:induction false} HasWithout<K, V>(es: seq<Entry<K, V>>, key: K, a: K)
    ensures Has(Without(es, key), a) <==> Has(es, a) && a != key
  {
    var r := Without(es, key);
    if Has(r, a) {
      var i :| 0 <= i < |r| && r[i].key == a;
      WithoutIs(es, key, r[i]);
    }
    if Has(es, a) && a != key {
      var i :| 0 <= i < |es| && es[i].key == a;
      WithoutIs(es, key, es[i]);
    }
  }

  lemma {:induction false} HasExpired<K, V>(es: seq<Entry<K, V>>, key: K, a: K)
    ensures Has(Expired(es, key), a) <==> Has(es, a)
  {
    var r := Expired(es, key);
    ExpiredKeeps(es, key);
    assert forall i :: 0 <= i < |es| ==> r[i].key == es[i].key;
  }

  lemma HasTail<K, V>(es: seq<Entry<K, V>>, a: K)
    requires es != []
    ensures Has(es, a) <==> es[0].key == a || Has(es[1..], a)
  {
    assert forall i :: 0 <= i < |es| - 1 ==> es[1..][i] == es[i + 1];
    if Has(es, a) {
      var i :| 0 <= i < |es| && es[i].key == a;
      if i > 0 { assert es[1..][i - 1].key == a; }
    }
  }

  lemma {:induction false} HasIffFound<K, V>(es: seq<Entry<K, V>>, a: K)
    ensures Has(es, a) <==> Find(es, a).Some?
  {
    if es != [] {
      HasTail(es, a);
      HasIffFound(es[1..], a);
    }
  }

  lemma HasAppend<K, V>(es: seq<Entry<K, V>>, e: Entry<K, V>, a: K)
    ensures Has(es + [e], a) <==> Has(es, a) || a == e.key
  {
    if Has(es, a) {
      var i :| 0 <= i < |es| && es[i].key == a;
      assert (es + [e])[i].key == a;
    }
    if a == e.key { assert (es + [e])[|es|].key == a; }
    if Has(es + [e], a) {
      var i :| 0 <= i < |es + [e]| && (es + [e])[i].key == a;
      if i < |es| { assert es[i].key == a; }
    }
  }

  lemma YoungerAppend<K, V>(es: seq<Entry<K, V>>, e: Entry<K, V>, a: K, b: K)
    requires Younger(es + [e], a, b)
    ensures Younger(es, a, b) || (Has(es, a) && b == e.key)
  {
    var i, j :| 0 <= i < j < |es + [e]| && (es + [e])[i].key == a && (es + [e])[j].key == b;
    assert es[i].key == a;
    if j < |es| { assert es[j].key == b; }
  }

  lemma YoungerHas<K, V>(es: seq<Entry<K, V>>, a: K, b: K)
    requires Younger(es, a, b)
    ensures Has(es, a) && Has(es, b)
  {
  }

  lemma {:induction false} YoungerWithout<K, V>(es: seq<Entry<K, V>>, key: K, a: K, b: K)
    requires Younger(Without(es, key), a, b)
    ensures Younger(es, a, b)
  {
    var r := Without(es[1..], key);
    if es[0].key == key {
      YoungerWithout(es[1..], key, a, b);
      var i, j :| 0 <= i < j < |es[1..]| && es[1..][i].key == a && es[1..][j].key == b;
      assert es[i + 1].key == a && es[j + 1].key == b;
    } else {
      var i, j :| 0 <= i < j < |[es[0]] + r| && ([es[0]] + r)[i].key == a && ([es[0]] + r)[j].key == b;
      if i > 0 {
        assert r[i - 1].key == a && r[j - 1].key == b;
        YoungerWithout(es[1..], key, a, b);
        var i', j' :| 0 <= i' < j' < |es[1..]| && es[1..][i'].key == a && es[1..][j'].key == b;
        assert es[i' + 1].key == a && es[j' + 1].key == b;
      } else {
        assert r[j - 1].key == b;
        HasWithout(es[1..], key, b);
        var j' :| 0 <= j' < |es[1..]| && es[1..][j'].key == b;
        assert es[0].key == a && es[j' + 1].key == b;
      }
    }
  }

  function KeysOf<K, V>(es: seq<Entry<K, V>>): set<K> {
    set i | 0 <= i < |es| :: es[i].key
  }

  lemma {:induction false} DistinctKeysCount<K, V>(es: seq<Entry<K, V>>)
    requires DistinctKeys(es)
    ensures |KeysOf(es)| == |es|
  {
    if es != [] {
      DistinctKeysCount(es[1..]);
      forall k | k in KeysOf(es) ensures k in KeysOf(es[1..]) + {es[0].key} {
        var i :| 0 <= i < |es| && es[i].key == k;
        if i > 0 { assert es[1..][i - 1].key == k; }
      }
      forall k | k in KeysOf(es[1..]) ensures k in KeysOf(es) {
        var i :| 0 <= i < |es[1..]| && es[1..][i].key == k;
        assert es[i + 1].key == k;
      }
      assert KeysOf(es) == KeysOf(es[1..]) + {es[0].key};
      assert es[0].key !in KeysOf(es[1..]);
    }
  }

  // ---------- the steps ----------

  /** The parts of an operation that do not touch: pop, clear, a forced expiry, and a read that misses. */
  lemma Untouched<K(!new), V>(ops: seq<Op<K, V>>, ttl: real, max: nat)
    requires ops != [] && Touches(Run(ops[..|ops| - 1], ttl, max), ops[|ops| - 1]).None?
    ensures forall key :: TouchedSince(ops, key, ttl, max) == TouchedSince(ops[..|ops| - 1], key, ttl, max)
  {
  }

  lemma PopStep<K(!new), V>(es: seq<Entry<K, V>>, ops: seq<Op<K, V>>, now: real, ttl: real, max: nat)
    requires ops != [] && ops[|ops| - 1].Pop? && es == Run(ops[..|ops| - 1], ttl, max)
    requires Inv(es, ops[..|ops| - 1], now, ttl, max)
    ensures Inv(Without(es, ops[|ops| - 1].key), ops, now, ttl, max)
  {
    var key := ops[|ops| - 1].key;
    var r := Without(es, key);
    Untouched(ops, ttl, max);
    WithoutKeeps(es, key);
    forall e | e in r ensures Holds(e, ops, ttl) {
      WithoutIs(es, key, e);
      assert Holds(e, ops[..|ops| - 1], ttl);
    }
    forall a, b | Younger(r, a, b) ensures b in TouchedSince(ops, a, ttl, max) { YoungerWithout(es, key, a, b); }
    forall a | !Has(r, a) ensures PushedOut(a, ops, now, ttl, max) { HasWithout(es, key, a); }
  }

  lemma ForceExpireStep<K(!new), V>(es: seq<Entry<K, V>>, ops: seq<Op<K, V>>, now: real, ttl: real, max: nat)
    requires ops != [] && ops[|ops| - 1].ForceExpire? && es == Run(ops[..|ops| - 1], ttl, max)
    requires Inv(es, ops[..|ops| - 1], now, ttl, max)
    ensures Inv(Expired(es, ops[|ops| - 1].key), ops, now, ttl, max)
  {
    var key := ops[|ops| - 1].key;
    var r := Expired(es, key);
    Untouched(ops, ttl, max);
    ExpiredKeeps(es, key);
    forall e | e in r ensures Holds(e, ops, ttl) {
      var i :| 0 <= i < |r| && r[i] == e;
      assert Holds(es[i], ops[..|ops| - 1], ttl);
    }
    forall a, b | Younger(r, a, b) ensures b in TouchedSince(ops, a, ttl, max) {
      var i, j :| 0 <= i < j < |r| && r[i].key == a && r[j].key == b;
      assert es[i].key == a && es[j].key == b;
      assert Younger(es, a, b);
    }
    forall a | !Has(r, a) ensures PushedOut(a, ops, now, ttl, max) {
      HasExpired(es, key, a);
    }
  }

  lemma MissStep<K(!new), V>(es: seq<Entry<K, V>>, ops: seq<Op<K, V>>, before: real, ttl: real, max: nat)
    requires ops != [] && ops[|ops| - 1].Get? && es == Run(ops[..|ops| - 1], ttl, max)
    requires Got(es, ops[|ops| - 1].key, ops[|ops| - 1].at).1.None?
    requires Inv(es, ops[..|ops| - 1], before, ttl, max) && before <= ops[|ops| - 1].at
    ensures Inv(Got(es, ops[|ops| - 1].key, ops[|ops| - 1].at).0, ops, ops[|ops| - 1].at, ttl, max)
  {
    var op := ops[|ops| - 1];
    var r := Got(es, op.key, op.at).0;
    Untouched(ops, ttl, max);
    FindIs(es, op.key);
    WithoutKeeps(es, op.key);
    forall e | e in r ensures Holds(e, ops, ttl) {
      WithoutIs(es, op.key, e);
      assert Holds(e, ops[..|ops| - 1], ttl);
    }
    forall a, b | Younger(r, a, b) ensures b in TouchedSince(ops, a, ttl, max) {
      if r != es { YoungerWithout(es, op.key, a, b); }
    }
    forall a | !Has(r, a) ensures PushedOut(a, ops, op.at, ttl, max) {
      if Find(es, op.key).Some? {
        HasWithout(es, op.key, a);
        assert Holds(Find(es, op.key).value, ops[..|ops| - 1], ttl);
      }
    }
  }

  /** What a touch of another key changes for a key. */
  lemma {:induction false} TouchElsewhere<K(!new), V>(ops: seq<Op<K, V>>, touched: K, a: K, ttl: real, max: nat)
    requires ops != [] && Touches(Run(ops[..|ops| - 1], ttl, max), ops[|ops| - 1]) == Some(touched) && a != touched
    ensures TouchedSince(ops, a, ttl, max) == TouchedSince(ops[..|ops| - 1], a, ttl, max) + {touched}
    ensures LastSet(ops, a) == LastSet(ops[..|ops| - 1], a)
    ensures |TouchedSince(ops, a, ttl, max)| >= |TouchedSince(ops[..|ops| - 1], a, ttl, max)|
  {
    SubsetIsNoLarger(TouchedSince(ops[..|ops| - 1], a, ttl, max), TouchedSince(ops, a, ttl, max));
  }

  lemma TouchHolds<K(!new), V>(es: seq<Entry<K, V>>, ops: seq<Op<K, V>>, e: Entry<K, V>, ttl: real, max: nat)
    requires ops != [] && es == Run(ops[..|ops| - 1], ttl, max) && Touches(es, ops[|ops| - 1]) == Some(e.key)
    requires AllHold(es, ops[..|ops| - 1], ttl) && Holds(e, ops, ttl)
    ensures AllHold(Without(es, e.key) + [e], ops, ttl)
  {
    forall x | x in Without(es, e.key) + [e] ensures Holds(x, ops, ttl) {
      if x != e {
        WithoutIs(es, e.key, x);
        assert Holds(x, ops[..|ops| - 1], ttl);
        TouchElsewhere(ops, e.key, x.key, ttl, max);
      }
    }
  }

  lemma {:induction false} TouchYounger<K(!new), V>(es: seq<Entry<K, V>>, ops: seq<Op<K, V>>, e: Entry<K, V>, ttl: real, max: nat)
    requires ops != [] && es == Run(ops[..|ops| - 1], ttl, max) && Touches(es, ops[|ops| - 1]) == Some(e.key)
    requires YoungerTouched(es, ops[..|ops| - 1], ttl, max)
    ensures YoungerTouched(Without(es, e.key) + [e], ops, ttl, max)
  {
    var w := Without(es, e.key);
    forall a, b | Younger(w + [e], a, b) ensures b in TouchedSince(ops, a, ttl, max) {
      YoungerAppend(w, e, a, b);
      if Younger(w, a, b) {
        YoungerHas(w, a, b);
        YoungerWithout(es, e.key, a, b);
      }
      HasWithout(es, e.key, a);
      TouchElsewhere(ops, e.key, a, ttl, max);
    }
  }

  lemma {:induction false} TouchAbsent<K(!new), V>(es: seq<Entry<K, V>>, ops: seq<Op<K, V>>, e: Entry<K, V>, before: real, now: real, ttl: real, max: nat)
    requires ops != [] && es == Run(ops[..|ops| - 1], ttl, max) && Touches(es, ops[|ops| - 1]) == Some(e.key)
    requires AbsentPushedOut(es, ops[..|ops| - 1], before, ttl, max) && before <= now
    ensures AbsentPushedOut(Without(es, e.key) + [e], ops, now, ttl, max)
  {
    var w := Without(es, e.key);
    forall a | !Has(w + [e], a) ensures PushedOut(a, ops, now, ttl, max) {
      HasAppend(w, e, a);
      HasWithout(es, e.key, a);
      assert PushedOut(a, ops[..|ops| - 1], before, ttl, max);
      TouchElsewhere(ops, e.key, a, ttl, max);
    }
  }

  /** Moving a key's entry to the young end, or putting a new one there. */
  lemma {:induction false} TouchStep<K(!new), V>(es: seq<Entry<K, V>>, ops: seq<Op<K, V>>, e: Entry<K, V>, before: real, now: real, ttl: real, max: nat)
    requires ops != [] && es == Run(ops[..|ops| - 1], ttl, max) && Touches(es, ops[|ops| - 1]) == Some(e.key)
    requires Inv(es, ops[..|ops| - 1], before, ttl, max) && before <= now
    requires Holds(e, ops, ttl)
    ensures var r := Without(es, e.key) + [e];
      && DistinctKeys(r) && AllHold(r, ops, ttl)
      && YoungerTouched(r, ops, ttl, max) && AbsentPushedOut(r, ops, now, ttl, max)
  {
    WithoutKeeps(es, e.key);
    AppendDistinct(Without(es, e.key), e);
    TouchHolds(es, ops, e, ttl, max);
    TouchYounger(es, ops, e, ttl, max);
    TouchAbsent(es, ops, e, before, now, ttl, max);
  }

  /** Dropping the oldest of max + 1 entries: the other max were touched after it. */
  lemma EvictStep<K(!new), V>(es: seq<Entry<K, V>>, ops: seq<Op<K, V>>, now: real, ttl: real, max: nat)
    requires DistinctKeys(es) && |es| == max + 1 && AllHold(es, ops, ttl)
    requires YoungerTouched(es, ops, ttl, max) && AbsentPushedOut(es, ops, now, ttl, max)
    ensures Inv(es[1..], ops, now, ttl, max)
  {
    var r := es[1..];
    forall e | e in r ensures Holds(e, ops, ttl) { assert e in es; }
    forall a, b | Younger(r, a, b) ensures b in TouchedSince(ops, a, ttl, max) {
      var i, j :| 0 <= i < j < |r| && r[i].key == a && r[j].key == b;
      assert es[i + 1].key == a && es[j + 1].key == b;
      assert Younger(es, a, b);
    }
    forall a | !Has(r, a) ensures PushedOut(a, ops, now, ttl, max) {
      if a == es[0].key {
        DistinctKeysCount(r);
        forall b | b in KeysOf(r) ensures b in TouchedSince(ops, a, ttl, max) {
          var j :| 0 <= j < |r| && r[j].key == b;
          assert es[0].key == a && es[j + 1].key == b;
          assert Younger(es, a, b);
        }
        SubsetIsNoLarger(KeysOf(r), TouchedSince(ops, a, ttl, max));
      } else {
        HasTail(es, a);
      }
    }
  }

  lemma Later<K(!new), V>(es: seq<Entry<K, V>>, ops: seq<Op<K, V>>, before: real, now: real, ttl: real, max: nat)
    requires Inv(es, ops, before, ttl, max) && before <= now
    ensures Inv(es, ops, now, ttl, max)
  {
    forall a | !Has(es, a) ensures PushedOut(a, ops, now, ttl, max) {
      assert PushedOut(a, ops, before, ttl, max);
    }
  }

  /** The time of the last reading of the clock. */
  function LastRead<K, V>(ops: seq<Op<K, V>>): real
    decreases |ops|
  {
    if ops == [] then 0.0
    else if Timed(ops[|ops| - 1]) then ops[|ops| - 1].at
    else LastRead(ops[..|ops| - 1])
  }

  lemma {:induction false} RunKeepsInv<K(!new), V>(ops: seq<Op<K, V>>, ttl: real, max: nat)
    requires Monotonic(ops) && ttl >= 1.0 && max >= 1
    ensures Inv(Run(ops, ttl, max), ops, LastRead(ops), ttl, max)
    decreases |ops|
  {
    if ops != [] {
      var n := |ops| - 1;
      var es, op, before := Run(ops[..n], ttl, max), ops[n], LastRead(ops[..n]);
      RunKeepsInv(ops[..n], ttl, max);
      match op
      case Pop(_) => PopStep(es, ops, before, ttl, max);
      case Clear => Untouched(ops, ttl, max);
      case ForceExpire(_) => ForceExpireStep(es, ops, before, ttl, max);
      case Get(key, at) =>
        if Got(es, key, at).1.None? { MissStep(es, ops, before, ttl, max); }
        else { HitStep(es, ops, before, ttl, max); }
      case Set(key, value, at) => SetStep(es, ops, before, ttl, max);
    }
  }

  lemma HitStep<K(!new), V>(es: seq<Entry<K, V>>, ops: seq<Op<K, V>>, before: real, ttl: real, max: nat)
    requires ops != [] && ops[|ops| - 1].Get? && es == Run(ops[..|ops| - 1], ttl, max)
    requires Got(es, ops[|ops| - 1].key, ops[|ops| - 1].at).1.Some?
    requires Inv(es, ops[..|ops| - 1], before, ttl, max) && before <= ops[|ops| - 1].at
    ensures Inv(Got(es, ops[|ops| - 1].key, ops[|ops| - 1].at).0, ops, ops[|ops| - 1].at, ttl, max)
  {
    var op := ops[|ops| - 1];
    var e := Find(es, op.key).value;
    FindIs(es, op.key);
    assert Holds(e, ops[..|ops| - 1], ttl);
    TouchStep(es, ops, e, before, op.at, ttl, max);
    WithoutKeeps(es, op.key);
  }

  lemma SetStep<K(!new), V>(es: seq<Entry<K, V>>, ops: seq<Op<K, V>>, before: real, ttl: real, max: nat)
    requires ops != [] && ops[|ops| - 1].Set? && es == Run(ops[..|ops| - 1], ttl, max) && max >= 1
    requires Inv(es, ops[..|ops| - 1], before, ttl, max) && before <= ops[|ops| - 1].at
    ensures Inv(Apply(es, ops[|ops| - 1], ttl, max), ops, ops[|ops| - 1].at, ttl, max)
  {
    var op := ops[|ops| - 1];
    var e := Entry(op.key, op.value, op.at + ttl);
    TouchStep(es, ops, e, before, op.at, ttl, max);
    WithoutKeeps(es, op.key);
    var r := Without(es, op.key) + [e];
    if |r| > max { EvictStep(r, ops, op.at, ttl, max); }
  }

  // ---------- the guarantees ----------

  /**
   * What a read finds after any run of operations, against the map that never forgets: a hit returns the last
   * value set and not removed, within its time to live; a miss means that there is no such value, that its time
   * is up, or that at least `max` other keys were touched since this one. And there are never more than `max` entries.
   */
  lemma {:induction false} ReadIs<K(!new), V>(ops: seq<Op<K, V>>, key: K, now: real, ttl: real, max: nat)
    requires Monotonic(ops) && LastRead(ops) <= now && ttl >= 1.0 && max >= 1
    ensures |Run(ops, ttl, max)| <= max
    ensures var read := Got(Run(ops, ttl, max), key, now).1;
      var last := LastSet(ops, key);
      && (read.Some? ==> last.Some? && read.value == last.value.value && now < last.value.at + ttl)
      && (read.None? ==> last.None? || now >= last.value.at + ttl || |TouchedSince(ops, key, ttl, max)| >= max)
  {
    var es := Run(ops, ttl, max);
    RunKeepsInv(ops, ttl, max);
    Later(es, ops, LastRead(ops), now, ttl, max);
    FindIs(es, key);
    RunStartsAtZero(ops);
    var e := Find(es, key);
    if e.Some? {
      assert Holds(e.value, ops, ttl);
    } else {
      HasIffFound(es, key);
      assert PushedOut(key, ops, now, ttl, max);
    }
  }

  lemma {:induction false} RunStartsAtZero<K, V>(ops: seq<Op<K, V>>)
    requires Monotonic(ops)
    ensures LastRead(ops) >= 0.0
    decreases |ops|
  {
    if ops != [] { RunStartsAtZero(ops[..|ops| - 1]); }
  }
}
