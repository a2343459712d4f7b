/** Web sessions: a cache in front of the session table, with an await between looking and storing. */
module SessionStore {
  import opened Wrappers
  import Sets
  import TtlCache

  type Id = string

  /** `expiresAt` is on the wall clock; the cache lives by the monotonic clock. */
  datatype Session = Session(expiresAt: real, user: string)

  type Cache = seq<TtlCache.Entry<Id, Session>>

  const MAX_SESSIONS := 2048

  // ---------- the segments between awaits ----------

  /** load_authenticated_user up to its await: what it serves from the cache, if anything. */
  function Begin(es: Cache, id: Id, mono: real, wall: real): (Cache, Option<Session>) {
    var (es', cached) := TtlCache.Got(es, id, mono);
    if cached.Some? && cached.value.expiresAt <= wall then (TtlCache.Without(es', id), None) else (es', cached)
  }

  /** The rest of it, with the repository's answer. */
  function Finish(es: Cache, id: Id, answer: Option<Session>, ttl: real, mono: real): Cache {
    if answer.None? then TtlCache.Without(es, id) else TtlCache.Stored(es, id, answer.value, ttl, MAX_SESSIONS, mono)
  }

  class SessionStore {
    const cache: TtlCache.TTLCache<Id, Session>

    ghost predicate Valid()
      reads this, cache
    {
      cache.Valid() && cache.max == MAX_SESSIONS
    }

    constructor (ttlSeconds: int)
      ensures Valid() && fresh(cache) && cache.entries == []
      ensures cache.ttl == (if ttlSeconds < 1 then 1 else ttlSeconds) as real
    {
      cache := new TtlCache.TTLCache(ttlSeconds, 2048);
    }

    method BeginLoad(id: Id, mono: real, wall: real) returns (served: Option<Session>)
      requires Valid()
      modifies cache`entries
      ensures Valid() && (cache.entries, served) == Begin(old(cache.entries), id, mono, wall)
    {
      served := cache.Get(id, mono);
      if served.Some? && served.value.expiresAt <= wall {
        cache.Pop(id);
        served := None;
      }
    }

    method FinishLoad(id: Id, answer: Option<Session>, mono: real)
      requires Valid()
      modifies cache`entries
      ensures Valid() && cache.entries == Finish(old(cache.entries), id, answer, cache.ttl, mono)
    {
      if answer.None? { cache.Pop(id); } else { cache.Set(id, answer.value, mono); }
    }

    /** invalidate_session_cache, the first segment of delete_session, and the last of create_session. */
    method Drop(id: Id)
      requires Valid()
      modifies cache`entries
      ensures Valid() && cache.entries == TtlCache.Without(old(cache.entries), id)
    {
      cache.Pop(id);
    }
  }

  // ---------- interleaved calls ----------

  datatype Call = Asked(asker: Id) | Answered(owner: Id, answer: Option<Session>)

  datatype State = State(cache: Cache, rows: map<Id, Session>, calls: map<nat, Call>)

  datatype Step =
    | Load(call: nat, id: Id, mono: real, wall: real)
    | Query(call: nat, wall: real)
    | Resume(call: nat, mono: real)
    | Pop(id: Id)
    | Write(id: Id, session: Session)
    | DeleteRow(id: Id)

  predicate Enabled(s: State, step: Step) {
    match step
    case Load(call, _, _, _) => call !in s.calls
    case Query(call, _) => call in s.calls && s.calls[call].Asked?
    case Resume(call, _) => call in s.calls && s.calls[call].Answered?
    case _ => true
  }

  /** The repository answers with a row only while it has not expired. */
  function Lookup(rows: map<Id, Session>, id: Id, wall: real): Option<Session> {
    if id in rows && rows[id].expiresAt > wall then Some(rows[id]) else None
  }

  function Apply(s: State, step: Step, ttl: real): State
    requires Enabled(s, step)
  {
    match step
    case Load(call, id, mono, wall) =>
      var (es, served) := Begin(s.cache, id, mono, wall);
      s.(cache := es, calls := if served.Some? then s.calls else s.calls[call := Asked(id)])
    case Query(call, wall) =>
      var id := s.calls[call].asker;
      s.(calls := s.calls[call := Answered(id, Lookup(s.rows, id, wall))])
    case Resume(call, mono) =>
      var c := s.calls[call];
      s.(cache := Finish(s.cache, c.owner, c.answer, ttl, mono), calls := s.calls - {call})
    case Pop(id) => s.(cache := TtlCache.Without(s.cache, id))
    case Write(id, session) => s.(rows := s.rows[id := session])
    case DeleteRow(id) => s.(rows := s.rows - {id})
  }

  /** The session that a step hands to its caller, and under which id. */
  function Served(s: State, step: Step): Option<(Id, Session)>
    requires Enabled(s, step)
  {
    match step
    case Load(_, id, mono, wall) =>
      var served := Begin(s.cache, id, mono, wall).1;
      if served.Some? then Some((id, served.value)) else None
    case Resume(call, _) =>
      var c := s.calls[call];
      if c.answer.Some? then Some((c.owner, c.answer.value)) else None
    case _ => None
  }

  ghost predicate Possible(s: State, steps: seq<Step>, ttl: real)
    decreases |steps|, 0
  {
    steps == [] ||
    (Possible(s, steps[..|steps| - 1], ttl) && Enabled(Run(s, steps[..|steps| - 1], ttl), steps[|steps| - 1]))
  }

  ghost function Run(s: State, steps: seq<Step>, ttl: real): State
    requires Possible(s, steps, ttl)
    decreases |steps|, 1
  {
    if steps == [] then s else Apply(Run(s, steps[..|steps| - 1], ttl), steps[|steps| - 1], ttl)
  }

  const EMPTY := State([], map[], map[])

  lemma {:induction false} PrefixPossible(s: State, steps: seq<Step>, ttl: real, n: nat)
    requires Possible(s, steps, ttl) && n <= |steps|
    ensures Possible(s, steps[..n], ttl)
    ensures n < |steps| ==> Enabled(Run(s, steps[..n], ttl), steps[n])
    decreases |steps|
  {
    if n < |steps| {
      var before := steps[..|steps| - 1];
      PrefixPossible(s, before, ttl, n);
      assert before[..n] == steps[..n];
    } else {
      assert steps[..n] == steps;
    }
  }

  // ---------- where a cached session comes from ----------

  /** Step q is the query of a call that found this session, not expired. */
  ghost predicate Found(steps: seq<Step>, ttl: real, q: nat, call: nat, id: Id, w: Session) {
    && q < |steps| && Possible(EMPTY, steps[..q], ttl)
    && steps[q].Query? && steps[q].call == call
    && Lookup(Run(EMPTY, steps[..q], ttl).rows, id, steps[q].wall) == Some(w)
  }

  /** Step h hands this session back to its caller and stores it, as the call's query at step q found it. */
  ghost predicate HandedBack(steps: seq<Step>, ttl: real, q: nat, h: nat, id: Id, w: Session) {
    && q < h < |steps| && Possible(EMPTY, steps[..h], ttl)
    && steps[h].Resume? && Enabled(Run(EMPTY, steps[..h], ttl), steps[h])
    && Served(Run(EMPTY, steps[..h], ttl), steps[h]) == Some((id, w))
    && Found(steps, ttl, q, steps[h].call, id, w)
  }

  ghost predicate EntryHandedBack(steps: seq<Step>, ttl: real, e: TtlCache.Entry<Id, Session>) {
    exists q: nat, h: nat :: HandedBack(steps, ttl, q, h, e.key, e.value) && e.expiresAt == steps[h].mono + ttl
  }

  ghost predicate AnswerFound(steps: seq<Step>, ttl: real, call: nat, c: Call) {
    c.Answered? && c.answer.Some? ==> exists q: nat :: Found(steps, ttl, q, call, c.owner, c.answer.value)
  }

  ghost predicate Sourced(s: State, steps: seq<Step>, ttl: real) {
    && (forall e :: e in s.cache ==> EntryHandedBack(steps, ttl, e))
    && (forall call :: call in s.calls ==> AnswerFound(steps, ttl, call, s.calls[call]))
  }

  lemma FoundStays(steps: seq<Step>, step: Step, ttl: real, q: nat, call: nat, id: Id, w: Session)
    requires Found(steps, ttl, q, call, id, w)
    ensures Found(steps + [step], ttl, q, call, id, w)
  {
    assert (steps + [step])[..q] == steps[..q];
  }

  lemma EntryStays(steps: seq<Step>, step: Step, ttl: real, e: TtlCache.Entry<Id, Session>)
    requires EntryHandedBack(steps, ttl, e)
    ensures EntryHandedBack(steps + [step], ttl, e)
  {
    var q: nat, h: nat :| HandedBack(steps, ttl, q, h, e.key, e.value) && e.expiresAt == steps[h].mono + ttl;
    assert (steps + [step])[..h] == steps[..h];
    FoundStays(steps, step, ttl, q, steps[h].call, e.key, e.value);
    assert HandedBack(steps + [step], ttl, q, h, e.key, e.value);
  }

  lemma AnswerStays(steps: seq<Step>, step: Step, ttl: real, call: nat, c: Call)
    requires AnswerFound(steps, ttl, call, c)
    ensures AnswerFound(steps + [step], ttl, call, c)
  {
    if c.Answered? && c.answer.Some? {
      var q: nat :| Found(steps, ttl, q, call, c.owner, c.answer.value);
      FoundStays(steps, step, ttl, q, call, c.owner, c.answer.value);
    }
  }

  /** A new cache holds entries of the old one, and perhaps one more. */
  lemma KeptEntries(es: Cache, step: Step, s: State, ttl: real, e: TtlCache.Entry<Id, Session>)
    requires Enabled(s, step) && e in Apply(s, step, ttl).cache
    ensures e in s.cache || (step.Resume? && Served(s, step) == Some((e.key, e.value)) && e.expiresAt == step.mono + ttl)
  {
    match step
    case Load(call, id, mono, wall) =>
      TtlCache.WithoutIs(s.cache, id, e);
      TtlCache.FindIs(s.cache, id);
      TtlCache.WithoutIs(TtlCache.Got(s.cache, id, mono).0, id, e);
    case Resume(call, mono) => TtlCache.WithoutIs(s.cache, s.calls[call].owner, e);
    case Pop(id) => TtlCache.WithoutIs(s.cache, id, e);
    case _ =>
  }

  lemma {:induction false} SourcedStep(s: State, steps: seq<Step>, step: Step, ttl: real)
    requires Possible(EMPTY, steps, ttl) && s == Run(EMPTY, steps, ttl) && Enabled(s, step)
    requires Sourced(s, steps, ttl)
    ensures Sourced(Apply(s, step, ttl), steps + [step], ttl)
  {
    var s' := Apply(s, step, ttl);
    var all := steps + [step];
    assert all[..|steps|] == steps;
    forall e | e in s'.cache ensures EntryHandedBack(all, ttl, e) {
      KeptEntries(s.cache, step, s, ttl, e);
      if e in s.cache {
        EntryStays(steps, step, ttl, e);
      } else {
        assert AnswerFound(steps, ttl, step.call, s.calls[step.call]);
        var q: nat :| Found(steps, ttl, q, step.call, e.key, e.value);
        FoundStays(steps, step, ttl, q, step.call, e.key, e.value);
        assert HandedBack(all, ttl, q, |steps|, e.key, e.value);
      }
    }
    forall call | call in s'.calls ensures AnswerFound(all, ttl, call, s'.calls[call]) {
      if call in s.calls && s.calls[call] == s'.calls[call] {
        AnswerStays(steps, step, ttl, call, s.calls[call]);
      } else if s'.calls[call].Answered? && s'.calls[call].answer.Some? {
        assert Found(all, ttl, |steps|, call, s'.calls[call].owner, s'.calls[call].answer.value);
      }
    }
  }

  lemma {:induction false} RunIsSourced(steps: seq<Step>, ttl: real)
    requires Possible(EMPTY, steps, ttl)
    ensures Sourced(Run(EMPTY, steps, ttl), steps, ttl)
    decreases |steps|
  {
    if steps != [] {
      var before := steps[..|steps| - 1];
      RunIsSourced(before, ttl);
      SourcedStep(Run(EMPTY, before, ttl), before, steps[|steps| - 1], ttl);
      assert before + [steps[|steps| - 1]] == steps;
    }
  }

  /**
   * In every interleaving of loads, deletions and writes: a session served from the cache has not expired, and
   * some call handed back that very session under that id less than the cache's time to live earlier, which
   * the call's own query had found unexpired in the table.
   */
  lemma {:induction false} CachedIsFresh(steps: seq<Step>, load: Step, id: Id, w: Session, ttl: real)
    requires Possible(EMPTY, steps, ttl) && load.Load? && Enabled(Run(EMPTY, steps, ttl), load)
    requires Served(Run(EMPTY, steps, ttl), load) == Some((id, w))
    ensures w.expiresAt > load.wall
    ensures exists q: nat, h: nat :: HandedBack(steps, ttl, q, h, id, w) && load.mono < steps[h].mono + ttl
  {
    var s := Run(EMPTY, steps, ttl);
    RunIsSourced(steps, ttl);
    TtlCache.FindIs(s.cache, id);
    var e := TtlCache.Find(s.cache, id).value;
    assert EntryHandedBack(steps, ttl, e);
  }

  /** A fresh answer had not expired when the repository was asked. */
  lemma {:induction false} AnswerIsFresh(steps: seq<Step>, resume: Step, id: Id, w: Session, ttl: real)
    requires Possible(EMPTY, steps, ttl) && resume.Resume? && Enabled(Run(EMPTY, steps, ttl), resume)
    requires Served(Run(EMPTY, steps, ttl), resume) == Some((id, w))
    ensures exists q: nat :: Found(steps, ttl, q, resume.call, id, w) && w.expiresAt > steps[q].wall
  {
    var s := Run(EMPTY, steps, ttl);
    RunIsSourced(steps, ttl);
    assert AnswerFound(steps, ttl, resume.call, s.calls[resume.call]);
  }

  // ---------- deletion ----------

  /** The row is absent after the first k steps. */
  ghost predicate Absent(steps: seq<Step>, ttl: real, id: Id, k: nat) {
    k <= |steps| && Possible(EMPTY, steps[..k], ttl) && id !in Run(EMPTY, steps[..k], ttl).rows
  }

  /** A deleted session can only be served from the cache if a query found it before the deletion. */
  lemma {:induction false} ServedAfterDeletion(steps: seq<Step>, load: Step, id: Id, w: Session, ttl: real, d: nat)
    requires forall k: nat :: d <= k <= |steps| ==> Absent(steps, ttl, id, k)
    requires Possible(EMPTY, steps, ttl) && load.Load? && Enabled(Run(EMPTY, steps, ttl), load)
    requires Served(Run(EMPTY, steps, ttl), load) == Some((id, w))
    ensures exists q: nat, h: nat :: HandedBack(steps, ttl, q, h, id, w) && load.mono < steps[h].mono + ttl && q < d
  {
    CachedIsFresh(steps, load, id, w, ttl);
    var q: nat, h: nat :| HandedBack(steps, ttl, q, h, id, w) && load.mono < steps[h].mono + ttl;
    assert !Absent(steps, ttl, id, q);
  }

  /** Nothing is left of a session: no row, no cache entry, and no call that has it in hand. */
  ghost predicate Gone(s: State, id: Id) {
    && id !in s.rows
    && (forall e :: e in s.cache ==> e.key != id)
    && (forall call :: call in s.calls && s.calls[call].Answered? && s.calls[call].owner == id ==> s.calls[call].answer.None?)
  }

  lemma GoneStep(s: State, step: Step, id: Id, ttl: real)
    requires Gone(s, id) && Enabled(s, step) && !(step.Write? && step.id == id)
    ensures Gone(Apply(s, step, ttl), id)
    ensures Served(s, step).Some? ==> Served(s, step).value.0 != id
  {
    forall e | e in Apply(s, step, ttl).cache ensures e.key != id { KeptEntries(s.cache, step, s, ttl, e); }
    if step.Load? { TtlCache.FindIs(s.cache, step.id); }
  }

  /** Once nothing is left of a session it is never served again: no interleaving of other calls brings it back. */
  lemma {:induction false} GoneStaysGone(s: State, steps: seq<Step>, id: Id, ttl: real)
    requires Gone(s, id) && Possible(s, steps, ttl)
    requires forall i :: 0 <= i < |steps| ==> !(steps[i].Write? && steps[i].id == id)
    ensures Gone(Run(s, steps, ttl), id)
    ensures steps != [] ==>
              var served := Served(Run(s, steps[..|steps| - 1], ttl), steps[|steps| - 1]);
              served.Some? ==> served.value.0 != id
    decreases |steps|
  {
    if steps != [] {
      GoneStaysGone(s, steps[..|steps| - 1], id, ttl);
      GoneStep(Run(s, steps[..|steps| - 1], ttl), steps[|steps| - 1], id, ttl);
    }
  }

  /** A load asks before the deletion and is resumed after it. */
  function RaceSteps(w: Session): seq<Step> {
    [Write("s", w), Load(0, "s", 0.0, 0.0), Query(0, 0.0), Pop("s"), DeleteRow("s"), Resume(0, 1.0)]
  }

  /** The load has its answer, then the session is deleted. */
  lemma RaceDeletes(w: Session)
    requires w.expiresAt > 0.0
    ensures Possible(EMPTY, RaceSteps(w)[..5], 300.0)
    ensures Run(EMPTY, RaceSteps(w)[..5], 300.0) == State([], map[], map[0 := Answered("s", Some(w))])
  {
    var none: Cache := [];
    assert TtlCache.Without(none, "s") == [] && TtlCache.Find(none, "s") == None;
    var s1 := State([], map["s" := w], map[]);
    var s2 := s1.(calls := map[0 := Asked("s")]);
    var s3 := s1.(calls := map[0 := Answered("s", Some(w))]);
    var steps := RaceSteps(w);
    Extend(steps, 0, 300.0, EMPTY, s1);
    Extend(steps, 1, 300.0, s1, s2);
    Extend(steps, 2, 300.0, s2, s3);
    Extend(steps, 3, 300.0, s3, s3);
    Extend(steps, 4, 300.0, s3, s3.(rows := map[]));
  }

  lemma RaceEnds(w: Session)
    requires w.expiresAt > 0.0
    ensures Possible(EMPTY, RaceSteps(w), 300.0)
    ensures Run(EMPTY, RaceSteps(w), 300.0) == State([TtlCache.Entry("s", w, 301.0)], map[], map[])
  {
    var none: Cache := [];
    var s5 := State(none, map[], map[0 := Answered("s", Some(w))]);
    var entry := TtlCache.Entry("s", w, 301.0);
    RaceDeletes(w);
    assert TtlCache.Without(none, "s") == [] && none + [entry] == [entry];
    Extend(RaceSteps(w), 5, 300.0, s5, State([entry], map[], map[]));
    assert RaceSteps(w)[..6] == RaceSteps(w);
  }

  /**
   * delete_session drops the cache entry before it deletes the row, and that is not enough: a load whose query
   * ran before the deletion stores the session again, and later loads are served from the cache.
   */
  lemma DeletedIsServed(w: Session)
    requires w.expiresAt > 300.0
    ensures var load := Load(1, "s", 300.0, 300.0);
      && Possible(EMPTY, RaceSteps(w), 300.0) && "s" !in Run(EMPTY, RaceSteps(w), 300.0).rows
      && Enabled(Run(EMPTY, RaceSteps(w), 300.0), load)
      && Served(Run(EMPTY, RaceSteps(w), 300.0), load) == Some(("s", w))
  {
    RaceEnds(w);
  }

  lemma {:induction false} Extend(steps: seq<Step>, n: nat, ttl: real, here: State, next: State)
    requires n < |steps| && Possible(EMPTY, steps[..n], ttl) && Run(EMPTY, steps[..n], ttl) == here
    requires Enabled(here, steps[n]) && Apply(here, steps[n], ttl) == next
    ensures Possible(EMPTY, steps[..n + 1], ttl) && Run(EMPTY, steps[..n + 1], ttl) == next
  {
    assert steps[..n + 1][..n] == steps[..n];
  }

  // ---------- exactly when a deleted session is served again ----------

  /** A call has the session in hand: its query found it. */
  predicate Waiting(s: State, id: Id) {
    exists call :: call in s.calls && s.calls[call].Answered? && s.calls[call].owner == id && s.calls[call].answer.Some?
  }

  /** The cache has an entry that neither clock has outrun. */
  predicate CachedAt(s: State, id: Id, mono: real, wall: real) {
    exists e :: e in s.cache && e.key == id && e.expiresAt > mono && e.value.expiresAt > wall
  }

  /** No load reads its clocks before these times, and nobody creates the session again. */
  predicate After(step: Step, id: Id, mono: real, wall: real) {
    && (step.Load? ==> mono <= step.mono && wall <= step.wall)
    && !(step.Write? && step.id == id)
  }

  predicate Serves(s: State, step: Step, id: Id) {
    Enabled(s, step) && Served(s, step).Some? && Served(s, step).value.0 == id
  }

  /** The last of these steps serves the session. */
  ghost predicate ServesAtLast(s: State, more: seq<Step>, id: Id, mono: real, wall: real, ttl: real) {
    && more != [] && Possible(s, more, ttl)
    && (forall i :: 0 <= i < |more| ==> After(more[i], id, mono, wall))
    && Serves(Run(s, more[..|more| - 1], ttl), more[|more| - 1], id)
  }

  /** No row, nobody who waits with it, and no entry that a load at these times or later would serve. */
  predicate Spent(s: State, id: Id, mono: real, wall: real) {
    id !in s.rows && !Waiting(s, id) && !CachedAt(s, id, mono, wall)
  }

  lemma SpentStep(s: State, step: Step, id: Id, mono: real, wall: real, ttl: real)
    requires Spent(s, id, mono, wall) && Enabled(s, step) && After(step, id, mono, wall)
    ensures Spent(Apply(s, step, ttl), id, mono, wall) && !Serves(s, step, id)
  {
    var s' := Apply(s, step, ttl);
    forall e | e in s'.cache && e.key == id ensures e.expiresAt <= mono || e.value.expiresAt <= wall {
      KeptEntries(s.cache, step, s, ttl, e);
    }
    if step.Load? { TtlCache.FindIs(s.cache, step.id); }
  }

  lemma {:induction false} SpentStaysSpent(s: State, more: seq<Step>, id: Id, mono: real, wall: real, ttl: real)
    requires Spent(s, id, mono, wall) && Possible(s, more, ttl)
    requires forall i :: 0 <= i < |more| ==> After(more[i], id, mono, wall)
    ensures Spent(Run(s, more, ttl), id, mono, wall)
    decreases |more|
  {
    if more != [] {
      SpentStaysSpent(s, more[..|more| - 1], id, mono, wall, ttl);
      SpentStep(Run(s, more[..|more| - 1], ttl), more[|more| - 1], id, mono, wall, ttl);
    }
  }

  lemma KeysStep(s: State, step: Step, ttl: real)
    requires TtlCache.DistinctKeys(s.cache) && Enabled(s, step)
    ensures TtlCache.DistinctKeys(Apply(s, step, ttl).cache)
  {
    match step
    case Load(_, id, mono, _) =>
      TtlCache.FindIs(s.cache, id);
      TtlCache.WithoutKeeps(s.cache, id);
      TtlCache.WithoutKeeps(TtlCache.Got(s.cache, id, mono).0, id);
    case Resume(call, _) => TtlCache.WithoutKeeps(s.cache, s.calls[call].owner);
    case Pop(id) => TtlCache.WithoutKeeps(s.cache, id);
    case _ =>
  }

  lemma {:induction false} RunKeepsKeys(steps: seq<Step>, ttl: real)
    requires Possible(EMPTY, steps, ttl)
    ensures TtlCache.DistinctKeys(Run(EMPTY, steps, ttl).cache)
    decreases |steps|
  {
    if steps != [] {
      RunKeepsKeys(steps[..|steps| - 1], ttl);
      KeysStep(Run(EMPTY, steps[..|steps| - 1], ttl), steps[|steps| - 1], ttl);
    }
  }

  function UpTo(n: nat): (r: set<nat>)
    ensures |r| == n && forall k: nat :: k in r <==> k < n
  {
    if n == 0 then {} else UpTo(n - 1) + {n - 1}
  }

  lemma FreshCall(taken: set<nat>)
    ensures exists call: nat :: call !in taken
  {
    if forall call: nat :: call in taken {
      Sets.SubsetIsNoLarger(UpTo(|taken| + 1), taken);
    }
  }

  /** What is waiting is served by its own call, and what is cached by a load at once. */
  lemma ServedNext(s: State, id: Id, mono: real, wall: real) returns (step: Step)
    requires TtlCache.DistinctKeys(s.cache) && (Waiting(s, id) || CachedAt(s, id, mono, wall))
    ensures Serves(s, step, id) && After(step, id, mono, wall)
  {
    if Waiting(s, id) {
      var call :| call in s.calls && s.calls[call].Answered? && s.calls[call].owner == id && s.calls[call].answer.Some?;
      step := Resume(call, mono);
    } else {
      FreshCall(s.calls.Keys);
      var call: nat :| call !in s.calls.Keys;
      TtlCache.FindIs(s.cache, id);
      step := Load(call, id, mono, wall);
    }
  }

  /**
   * After any run that leaves the session without a row, and with clocks that do not go back: exactly when some
   * continuation serves it again, whatever other calls do, though nobody creates it. It then is served by the
   * very next step: a waiting call's own, or a load before both expiries of the entry.
   */
  lemma {:induction false} ServedAgainIff(steps: seq<Step>, id: Id, mono: real, wall: real, ttl: real)
    requires Possible(EMPTY, steps, ttl) && id !in Run(EMPTY, steps, ttl).rows
    ensures var s := Run(EMPTY, steps, ttl);
      var inHand := Waiting(s, id) || CachedAt(s, id, mono, wall);
      && ((exists more :: ServesAtLast(s, more, id, mono, wall, ttl)) <==> inHand)
      && ((exists step :: Serves(s, step, id) && After(step, id, mono, wall)) <==> inHand)
  {
    var s := Run(EMPTY, steps, ttl);
    if Waiting(s, id) || CachedAt(s, id, mono, wall) {
      RunKeepsKeys(steps, ttl);
      var step := ServedNext(s, id, mono, wall);
      ServedAtOnce(s, step, id, mono, wall, ttl);
    } else {
      forall more ensures !ServesAtLast(s, more, id, mono, wall, ttl) {
        SpentServesNothing(s, more, id, mono, wall, ttl);
      }
      forall step | Serves(s, step, id) ensures !After(step, id, mono, wall) {
        if After(step, id, mono, wall) { SpentStep(s, step, id, mono, wall, ttl); }
      }
    }
  }

  lemma ServedAtOnce(s: State, step: Step, id: Id, mono: real, wall: real, ttl: real)
    requires Serves(s, step, id) && After(step, id, mono, wall)
    ensures ServesAtLast(s, [step], id, mono, wall, ttl)
  {
    var more := [step];
    assert more[..|more| - 1] == [] && more[|more| - 1] == step;
    assert Possible(s, [], ttl) && Run(s, [], ttl) == s;
  }

  lemma SpentServesNothing(s: State, more: seq<Step>, id: Id, mono: real, wall: real, ttl: real)
    requires Spent(s, id, mono, wall)
    ensures !ServesAtLast(s, more, id, mono, wall, ttl)
  {
    if ServesAtLast(s, more, id, mono, wall, ttl) {
      SpentStaysSpent(s, more[..|more| - 1], id, mono, wall, ttl);
      SpentStep(Run(s, more[..|more| - 1], ttl), more[|more| - 1], id, mono, wall, ttl);
    }
  }

  /**
   * So a deletion whose two segments run without a break between them ends the session exactly when no call
   * waits with an answer that it got before: loads that have not been answered yet do no harm.
   */
  lemma {:induction false} DeletedForGoodIff(steps: seq<Step>, id: Id, mono: real, wall: real, ttl: real)
    requires Possible(EMPTY, steps, ttl)
    ensures var all := steps + [Pop(id), DeleteRow(id)];
      && Possible(EMPTY, all, ttl)
      && ((forall more :: !ServesAtLast(Run(EMPTY, all, ttl), more, id, mono, wall, ttl)) <==>
          !Waiting(Run(EMPTY, steps, ttl), id))
  {
    var s := Run(EMPTY, steps, ttl);
    var all := steps + [Pop(id), DeleteRow(id)];
    var n := |steps|;
    assert all[..n] == steps && all[..n + 2] == all;
    Extend(all, n, ttl, s, Apply(s, Pop(id), ttl));
    Extend(all, n + 1, ttl, Apply(s, Pop(id), ttl), Apply(Apply(s, Pop(id), ttl), DeleteRow(id), ttl));
    var s' := Run(EMPTY, all, ttl);
    forall e | e in s'.cache ensures e.key != id { TtlCache.WithoutIs(s.cache, id, e); }
    assert s'.calls == s.calls;
    ServedAgainIff(all, id, mono, wall, ttl);
  }

  // ---------- one load ----------

  /**
   * A load is served at once exactly when the cache has an entry that neither clock has outrun, and then asks
   * nothing and makes it the youngest; otherwise it asks, and no entry of the session is left in its way.
   */
  lemma LoadServesIff(s: State, step: Step, ttl: real)
    requires Enabled(s, step) && step.Load? && TtlCache.DistinctKeys(s.cache)
    ensures var t := Apply(s, step, ttl);
      && (Served(s, step).Some? <==> CachedAt(s, step.id, step.mono, step.wall))
      && (Served(s, step).Some? ==> t.calls == s.calls && t.cache != [] && t.cache[|t.cache| - 1] in s.cache)
      && (Served(s, step).Some? ==> Served(s, step) == Some((step.id, t.cache[|t.cache| - 1].value)))
      && (Served(s, step).None? ==> t.calls == s.calls[step.call := Asked(step.id)])
      && (Served(s, step).None? ==> forall e :: e in t.cache ==> e.key != step.id)
      && t.rows == s.rows
      && forall e: TtlCache.Entry<Id, Session> :: e.key != step.id ==> (e in t.cache <==> e in s.cache)
  {
    var t := Apply(s, step, ttl);
    var got := TtlCache.Got(s.cache, step.id, step.mono).0;
    TtlCache.FindIs(s.cache, step.id);
    forall e ensures e in TtlCache.Without(s.cache, step.id) <==> e in s.cache && e.key != step.id {
      TtlCache.WithoutIs(s.cache, step.id, e);
    }
    forall e ensures e in TtlCache.Without(got, step.id) <==> e in got && e.key != step.id {
      TtlCache.WithoutIs(got, step.id, e);
    }
  }

  /** A resumed load stores what it found for the time to live, and forgets what it did not find. */
  lemma ResumeStores(s: State, step: Step, ttl: real)
    requires Enabled(s, step) && step.Resume?
    ensures var t, c := Apply(s, step, ttl), s.calls[step.call];
      && t.calls == s.calls - {step.call} && t.rows == s.rows
      && (c.answer.Some? ==> Served(s, step) == Some((c.owner, c.answer.value)))
      && (c.answer.Some? ==> t.cache != [])
      && (c.answer.Some? ==> t.cache[|t.cache| - 1] == TtlCache.Entry(c.owner, c.answer.value, step.mono + ttl))
      && (c.answer.None? ==> Served(s, step).None? && forall e :: e in t.cache ==> e.key != c.owner)
  {
    var owner := s.calls[step.call].owner;
    forall e ensures e in TtlCache.Without(s.cache, owner) <==> e in s.cache && e.key != owner {
      TtlCache.WithoutIs(s.cache, owner, e);
    }
  }

  /** There are never more than 2048 sessions in the cache. */
  lemma {:induction false} NeverMoreThan2048(steps: seq<Step>, ttl: real)
    requires Possible(EMPTY, steps, ttl)
    ensures |Run(EMPTY, steps, ttl).cache| <= 2048
    decreases |steps|
  {
    if steps != [] {
      var before := steps[..|steps| - 1];
      var s, step := Run(EMPTY, before, ttl), steps[|steps| - 1];
      NeverMoreThan2048(before, ttl);
      RunKeepsKeys(before, ttl);
      SizeStep(s, step, ttl);
    }
  }

  lemma SizeStep(s: State, step: Step, ttl: real)
    requires Enabled(s, step) && TtlCache.DistinctKeys(s.cache) && |s.cache| <= 2048
    ensures |Apply(s, step, ttl).cache| <= 2048
  {
    match step
    case Load(_, id, mono, _) =>
      TtlCache.FindIs(s.cache, id);
      TtlCache.WithoutKeeps(s.cache, id);
      KeysStep(s, step, ttl);
      var got := TtlCache.Got(s.cache, id, mono).0;
      assert TtlCache.DistinctKeys(got);
      TtlCache.WithoutKeeps(got, id);
    case Resume(call, _) => TtlCache.WithoutKeeps(s.cache, s.calls[call].owner);
    case Pop(id) => TtlCache.WithoutKeeps(s.cache, id);
    case _ =>
  }
}
