/** Access codes of volunteers: one statement selects the volunteer of a code, a second one deletes their code. */
module VolunteerCodes {
  import opened Wrappers

  type Hash = string

  /** `no` tells codes apart that agree in everything else: it counts the codes stored before. */
  datatype Code = Code(hash: Hash, createdAt: int, no: nat)

  predicate Matches(codes: map<int, Code>, volunteer: int, hash: Hash, expiresAfter: int) {
    volunteer in codes && codes[volunteer].hash == hash && codes[volunteer].createdAt >= expiresAfter
  }

  // ---------- the statements ----------

  class MobileCardAccessCodes {
    var codes: map<int, Code>
    var stored: nat

    constructor ()
      ensures codes == map[] && stored == 0
    {
      codes, stored := map[], 0;
    }

    method StoreAccessCode(volunteer: int, hash: Hash, createdAt: int)
      modifies this
      ensures codes == old(codes)[volunteer := Code(hash, createdAt, old(stored))] && stored == old(stored) + 1
    {
      codes := codes[volunteer := Code(hash, createdAt, stored)];
      stored := stored + 1;
    }

    /** The select; `among` are the volunteers who have the address and are not blocked. */
    method SelectVolunteer(among: set<int>, hash: Hash, expiresAfter: int) returns (row: Option<int>)
      ensures row.Some? ==> row.value in among && row.value in codes
      ensures row.Some? ==> codes[row.value].hash == hash && codes[row.value].createdAt >= expiresAfter
      ensures row.None? ==> forall v :: v in among && v in codes ==>
                codes[v].hash != hash || codes[v].createdAt < expiresAfter
    {
      if v :| v in among && Matches(codes, v, hash, expiresAfter) { return Some(v); }
      return None;
    }

    /** The delete looks at nothing but the volunteer, and nobody looks at how many rows it found. */
    method DeleteCode(volunteer: int)
      modifies this`codes
      ensures codes == old(codes) - {volunteer}
    {
      codes := codes - {volunteer};
    }
  }

  // ---------- interleaved calls ----------

  /** What a call's select found. */
  datatype Found = Found(volunteer: int, no: nat)

  datatype Session = Session(call: nat, found: Found)

  /** Calls are named by the number of the step that was their select. */
  datatype State = State(clock: nat, codes: map<int, Code>, stored: nat, calls: map<nat, Found>, sessions: seq<Session>)

  /** A row is seen to change when the transaction that changes it commits; an aborted call changes nothing. */
  datatype Step =
    | Store(volunteer: int, hash: Hash, createdAt: int)
    | Select(among: set<int>, hash: Hash, expiresAfter: int, row: Option<int>)
    | Delete(call: nat)
    | Abort(call: nat)

  predicate Enabled(s: State, step: Step) {
    match step
    case Store(_, _, _) => true
    case Select(among, hash, after, row) =>
      if row.Some? then row.value in among && Matches(s.codes, row.value, hash, after)
      else forall v :: v in among ==> !Matches(s.codes, v, hash, after)
    case Delete(call) => call in s.calls
    case Abort(call) => call in s.calls
  }

  function Apply(s: State, step: Step): State
    requires Enabled(s, step)
  {
    var t := s.(clock := s.clock + 1);
    match step
    case Store(v, hash, at) => t.(codes := s.codes[v := Code(hash, at, s.stored)], stored := s.stored + 1)
    case Select(_, _, _, row) =>
      if row.None? then t else t.(calls := s.calls[s.clock := Found(row.value, s.codes[row.value].no)])
    case Delete(call) =>
      t.(codes := s.codes - {s.calls[call].volunteer}, calls := s.calls - {call},
         sessions := s.sessions + [Session(call, s.calls[call])])
    case Abort(call) => t.(calls := s.calls - {call})
  }

  const EMPTY := State(0, map[], 0, map[], [])

  ghost predicate Possible(steps: seq<Step>)
    decreases |steps|, 0
  {
    steps == [] || (Possible(steps[..|steps| - 1]) && Enabled(Run(steps[..|steps| - 1]), steps[|steps| - 1]))
  }

  ghost function Run(steps: seq<Step>): State
    requires Possible(steps)
    decreases |steps|, 1
  {
    if steps == [] then EMPTY else Apply(Run(steps[..|steps| - 1]), steps[|steps| - 1])
  }

  lemma {:induction false} PrefixPossible(steps: seq<Step>, n: nat)
    requires Possible(steps) && n <= |steps|
    ensures Possible(steps[..n])
    ensures n < |steps| ==> Enabled(Run(steps[..n]), steps[n]) && Possible(steps[..n + 1])
    ensures n < |steps| ==> Run(steps[..n + 1]) == Apply(Run(steps[..n]), steps[n])
    decreases |steps|
  {
    if n < |steps| {
      var before := steps[..|steps| - 1];
      PrefixPossible(before, n);
      assert before[..n] == steps[..n];
      assert n + 1 < |steps| ==> before[..n + 1] == steps[..n + 1];
      assert n + 1 == |steps| ==> steps[..n + 1] == steps && steps[..n] == before;
    } else {
      assert steps[..n] == steps;
    }
  }

  /** The state after the first n steps. */
  ghost function At(steps: seq<Step>, n: nat): State
    requires Possible(steps) && n <= |steps|
  {
    PrefixPossible(steps, n);
    Run(steps[..n])
  }

  // ---------- which code a volunteer has ----------

  function CodeOf(s: State, volunteer: int): Option<nat> {
    if volunteer in s.codes then Some(s.codes[volunteer].no) else None
  }

  /** Step k stores a code for the volunteer, or deletes theirs. */
  ghost predicate Touches(steps: seq<Step>, k: nat, volunteer: int)
    requires Possible(steps) && k < |steps|
  {
    || (steps[k].Store? && steps[k].volunteer == volunteer)
    || (steps[k].Delete? && steps[k].call in At(steps, k).calls
        && At(steps, k).calls[steps[k].call].volunteer == volunteer)
  }

  ghost predicate Numbered(s: State) {
    forall v :: v in s.codes ==> s.codes[v].no < s.stored
  }

  /** A call that is under way has seen its code when its select ran. */
  ghost predicate Seen(steps: seq<Step>, call: nat, found: Found)
    requires Possible(steps)
  {
    && call < |steps| && steps[call].Select? && steps[call].row == Some(found.volunteer)
    && CodeOf(At(steps, call), found.volunteer) == Some(found.no)
  }

  ghost predicate CallsSeen(steps: seq<Step>, s: State)
    requires Possible(steps)
  {
    forall c :: c in s.calls ==> c < s.clock && Seen(steps, c, s.calls[c])
  }

  ghost predicate SessionsSeen(steps: seq<Step>, s: State)
    requires Possible(steps)
  {
    forall x :: 0 <= x < |s.sessions| ==>
      var session := s.sessions[x];
      session.call < s.clock && session.call !in s.calls && Seen(steps, session.call, session.found)
  }

  predicate OnePerCall(s: State) {
    forall x, y :: 0 <= x < y < |s.sessions| ==> s.sessions[x].call != s.sessions[y].call
  }

  ghost predicate Known(steps: seq<Step>, s: State)
    requires Possible(steps)
  {
    Numbered(s) && CallsSeen(steps, s) && SessionsSeen(steps, s) && OnePerCall(s)
  }

  lemma {:induction false} CallsStep(steps: seq<Step>, s: State, step: Step)
    requires Possible(steps) && Enabled(s, step) && CallsSeen(steps, s)
    requires s.clock < |steps| && steps[s.clock] == step && At(steps, s.clock) == s
    ensures CallsSeen(steps, Apply(s, step))
  {
  }

  lemma {:induction false} SessionOpens(steps: seq<Step>, s: State, step: Step)
    requires Possible(steps) && Enabled(s, step) && step.Delete?
    requires CallsSeen(steps, s) && SessionsSeen(steps, s) && OnePerCall(s)
    ensures SessionsSeen(steps, Apply(s, step)) && OnePerCall(Apply(s, step))
  {
    var t := Apply(s, step);
    forall x | 0 <= x < |t.sessions|
      ensures t.sessions[x].call < t.clock && t.sessions[x].call !in t.calls
      ensures Seen(steps, t.sessions[x].call, t.sessions[x].found)
    {
      if x < |s.sessions| { assert t.sessions[x] == s.sessions[x]; }
    }
  }

  lemma {:induction false} SessionsKept(steps: seq<Step>, s: State, step: Step)
    requires Possible(steps) && Enabled(s, step) && !step.Delete? && SessionsSeen(steps, s) && OnePerCall(s)
    ensures SessionsSeen(steps, Apply(s, step)) && OnePerCall(Apply(s, step))
  {
  }

  lemma {:induction false} RunIsKnown(steps: seq<Step>, n: nat)
    requires Possible(steps) && n <= |steps|
    ensures At(steps, n).clock == n && Known(steps, At(steps, n))
  {
    if n == 0 {
      assert steps[..0] == [];
    } else {
      RunIsKnown(steps, n - 1);
      PrefixPossible(steps, n - 1);
      CallsStep(steps, At(steps, n - 1), steps[n - 1]);
      if steps[n - 1].Delete? { SessionOpens(steps, At(steps, n - 1), steps[n - 1]); }
      else { SessionsKept(steps, At(steps, n - 1), steps[n - 1]); }
    }
  }

  /** One step replaces or removes a volunteer's code exactly when it touches it; a new code has a new number. */
  lemma {:induction false} CodeStep(steps: seq<Step>, k: nat, v: int)
    requires Possible(steps) && k < |steps|
    ensures !Touches(steps, k, v) ==> CodeOf(At(steps, k + 1), v) == CodeOf(At(steps, k), v)
    ensures Touches(steps, k, v) ==>
              CodeOf(At(steps, k + 1), v) == if steps[k].Store? then Some(At(steps, k).stored) else None
    ensures At(steps, k).stored <= At(steps, k + 1).stored
    ensures steps[k].Store? ==> At(steps, k + 1).stored == At(steps, k).stored + 1
  {
    PrefixPossible(steps, k);
  }

  lemma {:induction false} NumberBelow(steps: seq<Step>, n: nat, v: int, no: nat)
    requires Possible(steps) && n <= |steps| && CodeOf(At(steps, n), v) == Some(no)
    ensures no < At(steps, n).stored
  {
    RunIsKnown(steps, n);
  }

  ghost predicate Untouched(steps: seq<Step>, i: nat, j: nat, volunteer: int)
    requires Possible(steps) && j <= |steps|
  {
    forall k :: i <= k < j ==> !Touches(steps, k, volunteer)
  }

  lemma {:induction false} UntouchedStep(steps: seq<Step>, i: nat, j: nat, v: int)
    requires Possible(steps) && i < j <= |steps|
    ensures Untouched(steps, i, j, v) <==> Untouched(steps, i, j - 1, v) && !Touches(steps, j - 1, v)
  {
  }

  lemma {:induction false} NextCodeIff(steps: seq<Step>, k: nat, v: int, no: nat)
    requires Possible(steps) && k < |steps| && no < At(steps, k).stored
    ensures CodeOf(At(steps, k + 1), v) == Some(no) <==> CodeOf(At(steps, k), v) == Some(no) && !Touches(steps, k, v)
  {
    CodeStep(steps, k, v);
  }

  /** A volunteer still has the same code exactly when nothing has touched it. */
  lemma {:induction false} SameCodeIff(steps: seq<Step>, i: nat, j: nat, v: int, no: nat)
    requires Possible(steps) && i <= j <= |steps| && CodeOf(At(steps, i), v) == Some(no)
    ensures CodeOf(At(steps, j), v) == Some(no) <==> Untouched(steps, i, j, v)
    decreases j
  {
    if i < j {
      SameCodeIff(steps, i, j - 1, v, no);
      NumberBelow(steps, i, v, no);
      StoredGrows(steps, i, j - 1);
      NextCodeIff(steps, j - 1, v, no);
      UntouchedStep(steps, i, j, v);
    }
  }

  lemma {:induction false} StoredGrows(steps: seq<Step>, i: nat, j: nat)
    requires Possible(steps) && i <= j <= |steps|
    ensures At(steps, i).stored <= At(steps, j).stored
    decreases j
  {
    if i < j {
      StoredGrows(steps, i, j - 1);
      CodeStep(steps, j - 1, 0);
    }
  }

  // ---------- sessions ----------

  /** Some step strictly between the two changes the volunteer's code. */
  ghost predicate Between(steps: seq<Step>, i: nat, j: nat, volunteer: int)
    requires Possible(steps)
  {
    exists k :: i < k < j && k < |steps| && Touches(steps, k, volunteer)
  }

  ghost predicate Apart(steps: seq<Step>, a: Session, b: Session)
    requires Possible(steps)
  {
    a.found.volunteer == b.found.volunteer ==>
      if a.call < b.call then Between(steps, a.call, b.call, a.found.volunteer)
      else Between(steps, b.call, a.call, a.found.volunteer)
  }

  lemma {:induction false} SameFindIff(steps: seq<Step>, a: Session, b: Session)
    requires Possible(steps) && Seen(steps, a.call, a.found) && Seen(steps, b.call, b.found) && a.call < b.call
    ensures a.found != b.found <==> Apart(steps, a, b)
  {
    var v := a.found.volunteer;
    if b.found.volunteer == v {
      SameCodeIff(steps, a.call, b.call, v, a.found.no);
      assert !Touches(steps, a.call, v);
    }
  }

  /**
   * Exactly when every code opens at most one session: whenever a volunteer has two sessions, their code was
   * stored or deleted between the two selects.
   */
  lemma {:induction false} OneSessionPerCodeIff(steps: seq<Step>)
    requires Possible(steps)
    ensures var sessions := Run(steps).sessions;
      (forall x, y :: 0 <= x < y < |sessions| ==> sessions[x].found != sessions[y].found) <==>
      (forall x, y :: 0 <= x < y < |sessions| ==> Apart(steps, sessions[x], sessions[y]))
  {
    RunIsKnown(steps, |steps|);
    assert steps[..|steps|] == steps;
    var sessions := Run(steps).sessions;
    forall x, y | 0 <= x < y < |sessions|
      ensures sessions[x].found != sessions[y].found <==> Apart(steps, sessions[x], sessions[y])
    {
      if sessions[x].call < sessions[y].call { SameFindIff(steps, sessions[x], sessions[y]); }
      else { SameFindIff(steps, sessions[y], sessions[x]); }
    }
  }

  /** A session was opened by the delete of its call. */
  ghost predicate Opened(steps: seq<Step>, p: nat, session: Session)
    requires Possible(steps)
  {
    && session.call < p < |steps| && steps[p] == Delete(session.call)
    && session.call in At(steps, p).calls && At(steps, p).calls[session.call] == session.found
  }

  /** Whoever opens a session gave the address of that volunteer and the hash of their code, in time. */
  lemma {:induction false} SessionIsEntitled(steps: seq<Step>, session: Session)
    requires Possible(steps) && session in Run(steps).sessions
    ensures session.call < |steps| && steps[session.call].Select?
    ensures var select, v, s := steps[session.call], session.found.volunteer, At(steps, session.call);
      && v in select.among && v in s.codes
      && s.codes[v] == Code(select.hash, s.codes[v].createdAt, session.found.no)
      && s.codes[v].createdAt >= select.expiresAfter
  {
    assert steps[..|steps|] == steps;
    RunIsKnown(steps, |steps|);
    var x :| 0 <= x < |Run(steps).sessions| && Run(steps).sessions[x] == session;
    assert Seen(steps, session.call, session.found);
    PrefixPossible(steps, session.call);
  }

  lemma {:induction false} SessionWasOpened(steps: seq<Step>, n: nat, session: Session)
    requires Possible(steps) && n <= |steps| && session in At(steps, n).sessions
    ensures exists p: nat :: Opened(steps, p, session)
  {
    if n > 0 {
      PrefixPossible(steps, n - 1);
      if session in At(steps, n - 1).sessions {
        SessionWasOpened(steps, n - 1, session);
      } else {
        RunIsKnown(steps, n - 1);
        assert Opened(steps, n - 1, session);
      }
    }
  }

  lemma CallKept(s: State, step: Step, call: nat)
    requires Enabled(s, step) && call != s.clock && call in Apply(s, step).calls
    ensures call in s.calls && s.calls[call] == Apply(s, step).calls[call]
  {
  }

  lemma {:induction false} UnderWayBefore(steps: seq<Step>, call: nat, p: nat)
    requires Possible(steps) && call < p < |steps| && call in At(steps, p + 1).calls
    ensures call in At(steps, p).calls && At(steps, p).calls[call] == At(steps, p + 1).calls[call]
  {
    RunIsKnown(steps, p);
    PrefixPossible(steps, p);
    CallKept(At(steps, p), steps[p], call);
  }

  /** A call that is under way has been so since its select. */
  lemma {:induction false} UnderWaySince(steps: seq<Step>, call: nat, m: nat, p: nat)
    requires Possible(steps) && call < m <= p <= |steps| && call in At(steps, p).calls
    ensures call in At(steps, m).calls && At(steps, m).calls[call] == At(steps, p).calls[call]
    decreases p
  {
    if m < p {
      UnderWayBefore(steps, call, p - 1);
      UnderWaySince(steps, call, m, p - 1);
    }
  }

  /** No select finds a volunteer for whom a call is under way. */
  ghost predicate OneCallAtATime(steps: seq<Step>)
    requires Possible(steps)
  {
    forall k, c :: 0 <= k < |steps| && steps[k].Select? && steps[k].row.Some? && c in At(steps, k).calls ==>
      At(steps, k).calls[c].volunteer != steps[k].row.value
  }

  lemma {:induction false} CallsOfAVolunteerFollow(steps: seq<Step>, a: Session, b: Session)
    requires Possible(steps) && OneCallAtATime(steps) && a in Run(steps).sessions && b in Run(steps).sessions
    requires a.call < b.call < |steps| && steps[b.call].Select? && steps[b.call].row == Some(b.found.volunteer)
    ensures Apart(steps, a, b)
  {
    assert steps[..|steps|] == steps;
    SessionWasOpened(steps, |steps|, a);
    var p: nat :| Opened(steps, p, a);
    if a.found.volunteer == b.found.volunteer {
      if p < b.call {
        assert Touches(steps, p, a.found.volunteer);
      } else {
        UnderWaySince(steps, a.call, b.call, p);
        assert false;
      }
    }
  }

  /** So calls for one volunteer that follow each other open at most one session with each code. */
  lemma {:induction false} OneCallAtATimeOpensOnce(steps: seq<Step>)
    requires Possible(steps) && OneCallAtATime(steps)
    ensures var sessions := Run(steps).sessions;
      forall x, y :: 0 <= x < y < |sessions| ==> sessions[x].found != sessions[y].found
  {
    RunIsKnown(steps, |steps|);
    assert steps[..|steps|] == steps;
    var sessions := Run(steps).sessions;
    forall x, y | 0 <= x < y < |sessions| ensures Apart(steps, sessions[x], sessions[y]) {
      if sessions[x].call < sessions[y].call { CallsOfAVolunteerFollow(steps, sessions[x], sessions[y]); }
      else { CallsOfAVolunteerFollow(steps, sessions[y], sessions[x]); }
    }
    OneSessionPerCodeIff(steps);
  }

  /** The delete removes the code that its call found exactly when nothing has touched it since. */
  lemma {:induction false} DeletesWhatItFoundIff(steps: seq<Step>, p: nat)
    requires Possible(steps) && p < |steps| && steps[p].Delete?
    ensures steps[p].call in At(steps, p).calls && steps[p].call < p
    ensures var found := At(steps, p).calls[steps[p].call];
      CodeOf(At(steps, p), found.volunteer) == Some(found.no) <==> Untouched(steps, steps[p].call, p, found.volunteer)
  {
    PrefixPossible(steps, p);
    RunIsKnown(steps, p);
    var found := At(steps, p).calls[steps[p].call];
    SameCodeIff(steps, steps[p].call, p, found.volunteer, found.no);
  }

  // ---------- both happen ----------

  lemma {:induction false} Extend(steps: seq<Step>, step: Step, here: State)
    requires Possible(steps) && Run(steps) == here && Enabled(here, step)
    ensures Possible(steps + [step]) && Run(steps + [step]) == Apply(here, step)
  {
    assert (steps + [step])[..|steps|] == steps;
  }

  /** Two calls select before either deletes: any code opens two sessions. */
  lemma OneCodeOpensTwice(v: int, hash: Hash, at: int)
    ensures var select := Select({v}, hash, at, Some(v));
      var steps := [Store(v, hash, at)] + [select] + [select] + [Delete(1)] + [Delete(2)];
      Possible(steps) && Run(steps).sessions == [Session(1, Found(v, 0)), Session(2, Found(v, 0))]
  {
    var select := Select({v}, hash, at, Some(v));
    var first, second := Session(1, Found(v, 0)), Session(2, Found(v, 0));
    var codes := map[v := Code(hash, at, 0)];
    Extend([], Store(v, hash, at), EMPTY);
    assert [] + [Store(v, hash, at)] == [Store(v, hash, at)];
    Extend([Store(v, hash, at)], select, State(1, codes, 1, map[], []));
    Extend([Store(v, hash, at)] + [select], select, State(2, codes, 1, map[1 := first.found], []));
    var both := [Store(v, hash, at)] + [select] + [select];
    Extend(both, Delete(1), State(3, codes, 1, map[1 := first.found, 2 := second.found], []));
    Extend(both + [Delete(1)], Delete(2), State(4, map[], 1, map[2 := second.found], [first]));
  }

  /** A code that is stored between select and delete is lost, and opens no session. */
  lemma NewCodeIsLost(v: int, hash: Hash, at: int, newer: Hash, later: int)
    ensures var select := Select({v}, hash, at, Some(v));
      var steps := [Store(v, hash, at)] + [select] + [Store(v, newer, later)] + [Delete(1)];
      Possible(steps) && Run(steps) == State(4, map[], 2, map[], [Session(1, Found(v, 0))])
  {
    var select := Select({v}, hash, at, Some(v));
    Extend([], Store(v, hash, at), EMPTY);
    assert [] + [Store(v, hash, at)] == [Store(v, hash, at)];
    var codes := map[v := Code(hash, at, 0)];
    Extend([Store(v, hash, at)], select, State(1, codes, 1, map[], []));
    Extend([Store(v, hash, at)] + [select], Store(v, newer, later), State(2, codes, 1, map[1 := Found(v, 0)], []));
    var s := State(3, codes[v := Code(newer, later, 1)], 2, map[1 := Found(v, 0)], []);
    Extend([Store(v, hash, at)] + [select] + [Store(v, newer, later)], Delete(1), s);
    assert s.codes - {v} == map[];
  }
}
