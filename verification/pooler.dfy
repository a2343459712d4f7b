/** The transaction-pooler canary: closures shared by coroutines that run undisturbed from one await to the next. */
module Pooler {
  import opened Wrappers

  const CACHE_SECONDS := 30.0

  datatype Settings = Settings(enabled: bool, cooldown: real)

  /** The closure variables of both files. */
  datatype Vars = Vars(percentage: int, expiresAt: real, refreshing: bool, retryAfter: real, connecting: bool)

  const INITIAL_VARS := Vars(0, 0.0, false, 0.0, false)

  /** What a segment awaits next. */
  datatype Next = Fallback | Refresh | Trial

  /** How an awaited operation ends. */
  datatype Ending = Returned | Raised | Cancelled

  // ---------- the segments ----------

  function Decide(v: Vars, roll: int, percentage: int): (Vars, Next) {
    if roll < percentage then (v.(connecting := true), Trial) else (v, Fallback)
  }

  /** connect() up to its first await; `roll` is drawn before the percentage is asked for. */
  function Admit(cfg: Settings, v: Vars, roll: int, now: real): (Vars, Next) {
    if v.connecting || now < v.retryAfter then (v, Fallback)
    else if !cfg.enabled then Decide(v, roll, 0)
    else if now < v.expiresAt then Decide(v, roll, v.percentage)
    else if v.refreshing then Decide(v, roll, 0)
    else (v.(refreshing := true, percentage := 0), Refresh)
  }

  /** The flag service answered; only a whole number from 0 to 100 replaces the fail-closed zero. */
  function Answer(v: Vars, payload: Option<int>): Vars {
    if payload.Some? && 0 <= payload.value <= 100 then v.(percentage := payload.value) else v
  }

  /** The end of a refresh, and of the condition that awaited it: neither guard is tested again. */
  function EndRefresh(v: Vars, ending: Ending, roll: int, now: real): (Vars, Next) {
    var shown := if ending.Raised? then 0 else v.percentage;
    var v' := v.(percentage := shown, expiresAt := now + CACHE_SECONDS, refreshing := false);
    if ending.Cancelled? then (v', Fallback) else Decide(v', roll, shown)
  }

  function EndTrial(cfg: Settings, v: Vars, ending: Ending, now: real): Vars {
    var v' := v.(connecting := false);
    if ending.Raised? then v'.(retryAfter := now + cfg.cooldown) else v'
  }

  /** The closures as they run. */
  class Connector {
    const cfg: Settings
    var percentage: int
    var expiresAt: real
    var refreshing: bool
    var retryAfter: real
    var connecting: bool

    constructor (cfg: Settings)
      ensures this.cfg == cfg && Closure() == INITIAL_VARS
    {
      this.cfg := cfg;
      percentage, expiresAt, refreshing := 0, 0.0, false;
      retryAfter, connecting := 0.0, false;
    }

    function Closure(): Vars
      reads this
    {
      Vars(percentage, expiresAt, refreshing, retryAfter, connecting)
    }

    method ConnectStarts(roll: int, now: real) returns (next: Next)
      modifies this
      ensures (Closure(), next) == Admit(cfg, old(Closure()), roll, now)
    {
      next := Fallback;
      if !connecting && now >= retryAfter {
        var shown := 0;
        if cfg.enabled {
          if now < expiresAt {
            shown := percentage;
          } else if !refreshing {
            refreshing := true;
            percentage := 0;
            return Refresh;
          }
        }
        if roll < shown {
          connecting := true;
          next := Trial;
        }
      }
    }

    method RefreshAnswered(payload: Option<int>)
      modifies this`percentage
      ensures Closure() == Answer(old(Closure()), payload)
    {
      if payload.Some? && 0 <= payload.value <= 100 { percentage := payload.value; }
    }

    method RefreshEnds(ending: Ending, roll: int, now: real) returns (next: Next)
      modifies this
      ensures (Closure(), next) == EndRefresh(old(Closure()), ending, roll, now)
    {
      if ending.Raised? { percentage := 0; }
      expiresAt := now + CACHE_SECONDS;
      refreshing := false;
      next := Fallback;
      if !ending.Cancelled? && roll < percentage {
        connecting := true;
        next := Trial;
      }
    }

    method TrialEnds(ending: Ending, now: real)
      modifies this
      ensures Closure() == EndTrial(cfg, old(Closure()), ending, now)
    {
      if ending.Raised? { retryAfter := now + cfg.cooldown; }
      connecting := false;
    }
  }

  // ---------- any number of interleaved calls ----------

  type CallId = nat

  /** Where a call of connect() waits. The flag client is closed by an await of its own. */
  datatype Await = Asking(roll: int) | ClosingClient(roll: int) | Handshake | FallbackConnect

  datatype Event =
    | Refreshed(at: real, percentage: int)
    | Started(at: real, percentage: int, roll: int)
    | Failed(at: real)

  datatype State = State(now: real, vars: Vars, calls: map<CallId, Await>, log: seq<Event>)

  datatype Step =
    | Tick(to: real)
    | Connect(c: CallId, roll: int)
    | Answered(c: CallId, payload: Option<int>)
    | RefreshOver(c: CallId, ending: Ending)
    | TrialOver(c: CallId, ending: Ending)
    | FallbackOver(c: CallId)

  predicate InRefresh(s: State, c: CallId) {
    c in s.calls && (s.calls[c].Asking? || s.calls[c].ClosingClient?)
  }

  predicate InTrial(s: State, c: CallId) {
    c in s.calls && s.calls[c].Handshake?
  }

  predicate Enabled(s: State, step: Step) {
    match step
    case Tick(to) => s.now <= to
    case Connect(c, roll) => c !in s.calls && 0 <= roll < 100
    case Answered(c, payload) => c in s.calls && s.calls[c].Asking?
    case RefreshOver(c, ending) => InRefresh(s, c) && (ending.Returned? ==> s.calls[c].ClosingClient?)
    case TrialOver(c, ending) => InTrial(s, c)
    case FallbackOver(c) => c in s.calls && s.calls[c].FallbackConnect?
  }

  function Waiting(next: Next, roll: int): Await {
    match next
    case Fallback => FallbackConnect
    case Refresh => Asking(roll)
    case Trial => Handshake
  }

  /** A step that may start a handshake logs the percentage and the roll it was started with. */
  function StartLog(next: Next, now: real, percentage: int, roll: int): seq<Event> {
    if next.Trial? then [Started(now, percentage, roll)] else []
  }

  function Apply(cfg: Settings, s: State, step: Step): State
    requires Enabled(s, step)
  {
    match step
    case Tick(to) => s.(now := to)
    case Connect(c, roll) =>
      var (v, next) := Admit(cfg, s.vars, roll, s.now);
      s.(vars := v, calls := s.calls[c := Waiting(next, roll)], log := s.log + StartLog(next, s.now, v.percentage, roll))
    case Answered(c, payload) =>
      s.(vars := Answer(s.vars, payload), calls := s.calls[c := ClosingClient(s.calls[c].roll)])
    case RefreshOver(c, ending) =>
      var roll := s.calls[c].roll;
      var (v, next) := EndRefresh(s.vars, ending, roll, s.now);
      s.(vars := v,
         calls := if ending.Cancelled? then s.calls - {c} else s.calls[c := Waiting(next, roll)],
         log := s.log + [Refreshed(s.now, v.percentage)] + StartLog(next, s.now, v.percentage, roll))
    case TrialOver(c, ending) =>
      s.(vars := EndTrial(cfg, s.vars, ending, s.now),
         calls := if ending.Raised? then s.calls[c := FallbackConnect] else s.calls - {c},
         log := s.log + if ending.Raised? then [Failed(s.now)] else [])
    case FallbackOver(c) => s.(calls := s.calls - {c})
  }

  const INITIAL := State(0.0, INITIAL_VARS, map[], [])

  ghost predicate Run(cfg: Settings, states: seq<State>, steps: seq<Step>) {
    && |states| == |steps| + 1
    && states[0] == INITIAL
    && forall i :: 0 <= i < |steps| ==> Enabled(states[i], steps[i]) && states[i + 1] == Apply(cfg, states[i], steps[i])
  }

  // ---------- the joint invariant of the two closures ----------

  predicate Busy(s: State, c: CallId) {
    InRefresh(s, c) || InTrial(s, c)
  }

  /** A handshake was started with a percentage that a refresh returned less than 30 seconds before. */
  ghost predicate Fresh(log: seq<Event>, j: nat)
    requires j < |log| && log[j].Started?
  {
    exists i :: 0 <= i < j && Supplies(log[i], log[j])
  }

  ghost predicate Supplies(e: Event, start: Event)
    requires start.Started?
  {
    e.Refreshed? && e.percentage == start.percentage && e.at <= start.at < e.at + CACHE_SECONDS
  }

  ghost predicate Cached(s: State) {
    exists i :: 0 <= i < |s.log| && s.log[i].Refreshed? && s.log[i].percentage == s.vars.percentage
                && s.log[i].at <= s.now && s.vars.expiresAt == s.log[i].at + CACHE_SECONDS
  }

  /** Every handshake was started by a roll below its percentage. */
  ghost predicate Chosen(s: State) {
    && 0 <= s.vars.percentage <= 100
    && forall j :: 0 <= j < |s.log| && s.log[j].Started? ==> 0 <= s.log[j].roll < s.log[j].percentage <= 100
  }

  ghost predicate Inv(cfg: Settings, s: State) {
    && FlagsOk(s)
    && (s.vars.refreshing ==> s.vars.expiresAt <= s.now && s.vars.retryAfter <= s.now)
    && (!s.vars.refreshing && s.vars.percentage != 0 ==> Cached(s))
    && (forall i :: 0 <= i < |s.log| && s.log[i].Failed? ==> s.log[i].at + cfg.cooldown <= s.vars.retryAfter)
    && (forall i :: 0 <= i < |s.log| ==> s.log[i].at <= s.now)
    && (forall j :: 0 <= j < |s.log| && s.log[j].Started? ==> Fresh(s.log, j))
    && (forall i, j :: 0 <= i < j < |s.log| && s.log[i].Failed? && s.log[j].Started? ==>
          s.log[j].at >= s.log[i].at + cfg.cooldown)
    && (forall c :: InRefresh(s, c) ==> 0 <= s.calls[c].roll < 100)
    && Chosen(s)
  }

  lemma FreshKept(log: seq<Event>, more: seq<Event>, j: nat)
    requires j < |log| && log[j].Started? && Fresh(log, j)
    ensures Fresh(log + more, j)
  {
    var i :| 0 <= i < j && Supplies(log[i], log[j]);
    assert Supplies((log + more)[i], (log + more)[j]);
  }

  /** The two flags after a step. */
  ghost predicate FlagsOk(s: State) {
    && (forall c, d :: Busy(s, c) && Busy(s, d) ==> c == d)
    && (s.vars.refreshing <==> exists c :: InRefresh(s, c))
    && (s.vars.connecting <==> exists c :: InTrial(s, c))
  }

  lemma IdleMeansNobody(s: State)
    requires FlagsOk(s) && !s.vars.refreshing && !s.vars.connecting
    ensures forall d :: !Busy(s, d)
  {
  }

  /** At most `c` is busy, and the flags say what it is doing. */
  lemma OnlyOne(t: State, c: CallId)
    requires forall d :: d != c ==> !Busy(t, d)
    requires t.vars.refreshing <==> InRefresh(t, c)
    requires t.vars.connecting <==> InTrial(t, c)
    ensures FlagsOk(t)
  {
    forall d | InRefresh(t, d) || InTrial(t, d) ensures d == c { assert Busy(t, d); }
  }

  /** A call that was not busy: it gets past the guards only when nobody else is. */
  lemma FlagsConnect(cfg: Settings, s: State, step: Step)
    requires Inv(cfg, s) && Enabled(s, step) && step.Connect?
    ensures FlagsOk(Apply(cfg, s, step))
  {
    var t := Apply(cfg, s, step);
    var c := step.c;
    assert forall d :: d != c ==> (InRefresh(t, d) <==> InRefresh(s, d)) && (InTrial(t, d) <==> InTrial(s, d));
    if Busy(t, c) {
      IdleMeansNobody(s);
      OnlyOne(t, c);
    } else {
      assert !Busy(s, c);
      SameBusy(s, t);
    }
  }

  lemma SameBusy(s: State, t: State)
    requires FlagsOk(s)
    requires forall d :: (InRefresh(t, d) <==> InRefresh(s, d)) && (InTrial(t, d) <==> InTrial(s, d))
    requires t.vars.refreshing == s.vars.refreshing && t.vars.connecting == s.vars.connecting
    ensures FlagsOk(t)
  {
    forall c, d | Busy(t, c) && Busy(t, d) ensures c == d { assert Busy(s, c) && Busy(s, d); }
    if s.vars.refreshing { var c :| InRefresh(s, c); assert InRefresh(t, c); }
    if s.vars.connecting { var c :| InTrial(s, c); assert InTrial(t, c); }
  }

  /** The busy call moves on: nobody else was busy. */
  lemma FlagsBusy(cfg: Settings, s: State, step: Step)
    requires Inv(cfg, s) && Enabled(s, step) && (step.Answered? || step.RefreshOver? || step.TrialOver?)
    ensures FlagsOk(Apply(cfg, s, step))
  {
    var t := Apply(cfg, s, step);
    var c := step.c;
    assert Busy(s, c);
    assert forall d :: d != c ==> !Busy(s, d);
    assert forall d :: d != c ==> (InRefresh(t, d) <==> InRefresh(s, d)) && (InTrial(t, d) <==> InTrial(s, d));
    forall d | InRefresh(s, d) || InTrial(s, d) ensures d == c { assert Busy(s, d); }
    forall d | d != c ensures !Busy(t, d) {
      assert InRefresh(t, d) <==> InRefresh(s, d);
    }
    OnlyOne(t, c);
  }

  lemma FlagsStep(cfg: Settings, s: State, step: Step)
    requires Inv(cfg, s) && Enabled(s, step)
    ensures FlagsOk(Apply(cfg, s, step))
  {
    if step.Connect? {
      FlagsConnect(cfg, s, step);
    } else if step.Tick? || step.FallbackOver? {
      SameBusy(s, Apply(cfg, s, step));
    } else {
      FlagsBusy(cfg, s, step);
    }
  }

  lemma CacheStep(cfg: Settings, s: State, step: Step)
    requires Inv(cfg, s) && Enabled(s, step)
    ensures var t := Apply(cfg, s, step);
      && s.log <= t.log
      && (t.vars.refreshing ==> t.vars.expiresAt <= t.now && t.vars.retryAfter <= t.now)
      && (!t.vars.refreshing && t.vars.percentage != 0 ==> Cached(t))
  {
    var t := Apply(cfg, s, step);
    match step
    case RefreshOver(c, ending) =>
      assert t.log[|s.log|] == Refreshed(s.now, t.vars.percentage);
    case Answered(c, payload) =>
      assert InRefresh(s, c);
    case TrialOver(c, ending) =>
      assert InTrial(s, c) && Busy(s, c);
      assert !s.vars.refreshing by {
        if s.vars.refreshing { var d :| InRefresh(s, d); assert Busy(s, d); }
      }
      if s.vars.percentage != 0 { CachedKept(s, t); }
    case _ =>
      if !t.vars.refreshing && t.vars.percentage != 0 { CachedKept(s, t); }
  }

  lemma CachedKept(s: State, t: State)
    requires Cached(s) && s.log <= t.log && s.now <= t.now
    requires t.vars.percentage == s.vars.percentage && t.vars.expiresAt == s.vars.expiresAt
    ensures Cached(t)
  {
    var i :| 0 <= i < |s.log| && s.log[i].Refreshed? && s.log[i].percentage == s.vars.percentage
      && s.log[i].at <= s.now && s.vars.expiresAt == s.log[i].at + CACHE_SECONDS;
    assert t.log[i] == s.log[i];
  }

  /** A handshake only starts after every cooldown, and with a percentage that is still fresh. */
  lemma StartStep(cfg: Settings, s: State, step: Step)
    requires Inv(cfg, s) && Enabled(s, step)
    ensures var t := Apply(cfg, s, step);
      forall j :: |s.log| <= j < |t.log| && t.log[j].Started? ==> Fresh(t.log, j) && t.log[j].at >= s.vars.retryAfter
  {
    var t := Apply(cfg, s, step);
    match step
    case Connect(c, roll) =>
      if t.log != s.log {
        var i :| 0 <= i < |s.log| && s.log[i].Refreshed? && s.log[i].percentage == s.vars.percentage
          && s.log[i].at <= s.now && s.vars.expiresAt == s.log[i].at + CACHE_SECONDS;
        assert Supplies(t.log[i], t.log[|s.log|]);
      }
    case RefreshOver(c, ending) =>
      if |t.log| == |s.log| + 2 {
        assert Supplies(t.log[|s.log|], t.log[|s.log| + 1]);
      }
    case _ =>
  }

  /** A failure puts off every handshake by the cooldown, and the log lies in the past. */
  lemma FailureStep(cfg: Settings, s: State, step: Step)
    requires Inv(cfg, s) && Enabled(s, step)
    ensures var t := Apply(cfg, s, step);
      && (forall i :: 0 <= i < |t.log| && t.log[i].Failed? ==> t.log[i].at + cfg.cooldown <= t.vars.retryAfter)
      && (forall i :: 0 <= i < |t.log| ==> t.log[i].at <= t.now)
  {
    CacheStep(cfg, s, step);
  }

  lemma FreshStep(cfg: Settings, s: State, step: Step, j: nat)
    requires Inv(cfg, s) && Enabled(s, step)
    requires j < |Apply(cfg, s, step).log| && Apply(cfg, s, step).log[j].Started?
    ensures Fresh(Apply(cfg, s, step).log, j)
  {
    var t := Apply(cfg, s, step);
    if j < |s.log| {
      CacheStep(cfg, s, step);
      FreshKept(s.log, t.log[|s.log|..], j);
      assert s.log + t.log[|s.log|..] == t.log;
    } else {
      StartStep(cfg, s, step);
    }
  }

  lemma CooldownStep(cfg: Settings, s: State, step: Step, i: nat, j: nat)
    requires Inv(cfg, s) && Enabled(s, step)
    requires i < j < |Apply(cfg, s, step).log| && Apply(cfg, s, step).log[i].Failed?
    requires Apply(cfg, s, step).log[j].Started?
    ensures Apply(cfg, s, step).log[j].at >= Apply(cfg, s, step).log[i].at + cfg.cooldown
  {
    CacheStep(cfg, s, step);
    StartStep(cfg, s, step);
  }

  lemma LogStep(cfg: Settings, s: State, step: Step)
    requires Inv(cfg, s) && Enabled(s, step)
    ensures var t := Apply(cfg, s, step);
      && (forall i :: 0 <= i < |t.log| && t.log[i].Failed? ==> t.log[i].at + cfg.cooldown <= t.vars.retryAfter)
      && (forall i :: 0 <= i < |t.log| ==> t.log[i].at <= t.now)
      && (forall j :: 0 <= j < |t.log| && t.log[j].Started? ==> Fresh(t.log, j))
      && (forall i, j :: 0 <= i < j < |t.log| && t.log[i].Failed? && t.log[j].Started? ==>
            t.log[j].at >= t.log[i].at + cfg.cooldown)
  {
    var t := Apply(cfg, s, step);
    FailureStep(cfg, s, step);
    forall j | 0 <= j < |t.log| && t.log[j].Started? ensures Fresh(t.log, j) { FreshStep(cfg, s, step, j); }
    forall i, j | 0 <= i < j < |t.log| && t.log[i].Failed? && t.log[j].Started?
      ensures t.log[j].at >= t.log[i].at + cfg.cooldown
    {
      CooldownStep(cfg, s, step, i, j);
    }
  }

  lemma ChosenStep(cfg: Settings, s: State, step: Step)
    requires Inv(cfg, s) && Enabled(s, step)
    ensures Chosen(Apply(cfg, s, step))
  {
  }

  lemma InvStep(cfg: Settings, s: State, step: Step)
    requires Inv(cfg, s) && Enabled(s, step)
    ensures Inv(cfg, Apply(cfg, s, step))
  {
    FlagsStep(cfg, s, step);
    CacheStep(cfg, s, step);
    LogStep(cfg, s, step);
    ChosenStep(cfg, s, step);
  }

  lemma {:induction false} RunInv(cfg: Settings, states: seq<State>, steps: seq<Step>, i: nat)
    requires Run(cfg, states, steps) && i < |states|
    ensures Inv(cfg, states[i])
  {
    if i > 0 {
      RunInv(cfg, states, steps, i - 1);
      InvStep(cfg, states[i - 1], steps[i - 1]);
      assert states[i - 1 + 1] == Apply(cfg, states[i - 1], steps[i - 1]);
    }
  }

  // ---------- the guarantees ----------

  /** In every interleaving the calls inside a flag refresh and those inside a trial handshake number at most one. */
  lemma SingleFlight(cfg: Settings, states: seq<State>, steps: seq<Step>, i: nat)
    requires Run(cfg, states, steps) && i < |states|
    ensures |set c | c in states[i].calls && Busy(states[i], c)| <= 1
  {
    RunInv(cfg, states, steps, i);
    var busy := set c | c in states[i].calls && Busy(states[i], c);
    if busy != {} {
      var c :| c in busy;
      assert busy == {c};
    }
  }

  /** No handshake starts before the cooldown of any earlier failure is over. */
  lemma CooldownRespected(cfg: Settings, states: seq<State>, steps: seq<Step>, n: nat, i: nat, j: nat)
    requires Run(cfg, states, steps) && n < |states|
    requires i < j < |states[n].log| && states[n].log[i].Failed? && states[n].log[j].Started?
    ensures states[n].log[j].at >= states[n].log[i].at + cfg.cooldown
  {
    RunInv(cfg, states, steps, n);
  }

  /** Every handshake was allowed by a percentage that some refresh returned less than 30 seconds earlier. */
  lemma PercentageIsFresh(cfg: Settings, states: seq<State>, steps: seq<Step>, n: nat, j: nat)
    requires Run(cfg, states, steps) && n < |states|
    requires j < |states[n].log| && states[n].log[j].Started?
    ensures exists i :: 0 <= i < j && states[n].log[i].Refreshed?
              && states[n].log[i].percentage == states[n].log[j].percentage
              && states[n].log[i].at <= states[n].log[j].at < states[n].log[i].at + 30.0
  {
    RunInv(cfg, states, steps, n);
    assert Fresh(states[n].log, j);
    var i :| 0 <= i < j && Supplies(states[n].log[i], states[n].log[j]);
  }

  // ---------- the share of the calls ----------

  /** Before its first await a call starts a handshake iff no guard stops it and its roll is below the cached share. */
  lemma StartsAtOnceIff(cfg: Settings, v: Vars, roll: int, now: real)
    requires 0 <= roll
    ensures Admit(cfg, v, roll, now).1.Trial? <==>
              !v.connecting && now >= v.retryAfter && cfg.enabled && now < v.expiresAt && roll < v.percentage
    ensures Admit(cfg, v, roll, now).1.Refresh? <==>
              !v.connecting && now >= v.retryAfter && cfg.enabled && now >= v.expiresAt && !v.refreshing
  {
  }

  /** After a refresh exactly when that returned and the roll is below what it shows. */
  lemma StartsAfterRefreshIff(v: Vars, ending: Ending, roll: int, now: real)
    requires 0 <= roll
    ensures EndRefresh(v, ending, roll, now).1.Trial? <==> ending.Returned? && roll < v.percentage
    ensures !EndRefresh(v, ending, roll, now).1.Refresh?
  {
  }

  ghost function Below(n: nat): (r: set<int>)
    ensures |r| == n && forall k :: k in r <==> 0 <= k < n
  {
    if n == 0 then {} else Below(n - 1) + {n - 1}
  }

  /** A percentage of p sends exactly p of the 100 rolls to the trial, and none while a guard stops the call. */
  lemma ShareOfRolls(cfg: Settings, v: Vars, now: real)
    requires 0 <= v.percentage <= 100
    ensures |set roll | 0 <= roll < 100 && Admit(cfg, v, roll, now).1.Trial?| ==
            if !v.connecting && now >= v.retryAfter && cfg.enabled && now < v.expiresAt then v.percentage else 0
    ensures forall ending ::
              |set roll | 0 <= roll < 100 && EndRefresh(v, ending, roll, now).1.Trial?| ==
              if ending.Returned? then v.percentage else 0
  {
    var open := !v.connecting && now >= v.retryAfter && cfg.enabled && now < v.expiresAt;
    forall roll | 0 <= roll ensures Admit(cfg, v, roll, now).1.Trial? <==> open && roll < v.percentage {
      StartsAtOnceIff(cfg, v, roll, now);
    }
    assert (set roll | 0 <= roll < 100 && Admit(cfg, v, roll, now).1.Trial?) == Below(if open then v.percentage else 0);
    forall ending
      ensures |set roll | 0 <= roll < 100 && EndRefresh(v, ending, roll, now).1.Trial?| ==
              if ending.Returned? then v.percentage else 0
    {
      var share := if ending.Returned? then v.percentage else 0;
      assert (set roll | 0 <= roll < 100 && EndRefresh(v, ending, roll, now).1.Trial?) == Below(share);
    }
  }

  /** In every run a handshake is started by a roll below its percentage, which never exceeds 100. */
  lemma StartedByItsRoll(cfg: Settings, states: seq<State>, steps: seq<Step>, n: nat, j: nat)
    requires Run(cfg, states, steps) && n < |states|
    requires j < |states[n].log| && states[n].log[j].Started?
    ensures 0 <= states[n].log[j].roll < states[n].log[j].percentage <= 100
  {
    RunInv(cfg, states, steps, n);
  }

  /** The flag service answered a call with this percentage before step n. */
  ghost predicate AnsweredBefore(steps: seq<Step>, n: nat, percentage: int)
    requires n <= |steps|
  {
    exists k :: 0 <= k < n && steps[k].Answered? && steps[k].payload == Some(percentage)
  }

  /** Zero, or a percentage that was answered. */
  ghost predicate Backed(steps: seq<Step>, n: nat, percentage: int)
    requires n <= |steps|
  {
    percentage == 0 || AnsweredBefore(steps, n, percentage)
  }

  lemma ShownStep(cfg: Settings, s: State, steps: seq<Step>, n: nat)
    requires n < |steps| && Enabled(s, steps[n]) && Backed(steps, n, s.vars.percentage)
    requires forall e :: e in s.log && !e.Failed? ==> Backed(steps, n, e.percentage)
    ensures Backed(steps, n + 1, Apply(cfg, s, steps[n]).vars.percentage)
    ensures forall e :: e in Apply(cfg, s, steps[n]).log && !e.Failed? ==> Backed(steps, n + 1, e.percentage)
  {
    assert forall p :: Backed(steps, n, p) ==> Backed(steps, n + 1, p);
    if steps[n].Answered? && steps[n].payload.Some? { assert AnsweredBefore(steps, n + 1, steps[n].payload.value); }
  }

  lemma {:induction false} ShownWasAnswered(cfg: Settings, states: seq<State>, steps: seq<Step>, n: nat)
    requires Run(cfg, states, steps) && n < |states|
    ensures Backed(steps, n, states[n].vars.percentage)
    ensures forall e :: e in states[n].log && !e.Failed? ==> Backed(steps, n, e.percentage)
  {
    if n > 0 {
      ShownWasAnswered(cfg, states, steps, n - 1);
      ShownStep(cfg, states[n - 1], steps, n - 1);
      assert states[n - 1 + 1] == Apply(cfg, states[n - 1], steps[n - 1]);
    }
  }

  /** And the flag service itself has asked for that percentage. */
  lemma HandshakeWasAskedFor(cfg: Settings, states: seq<State>, steps: seq<Step>, n: nat, j: nat)
    requires Run(cfg, states, steps) && n < |states|
    requires j < |states[n].log| && states[n].log[j].Started?
    ensures cfg.enabled && AnsweredBefore(steps, n, states[n].log[j].percentage)
  {
    ShownWasAnswered(cfg, states, steps, n);
    StartedByItsRoll(cfg, states, steps, n, j);
    assert states[n].log[j] in states[n].log;
    StartedMeansEnabled(cfg, states, steps, n);
  }

  /** What an answer of the flag service is worth: anything but a whole number from 0 to 100 is nothing. */
  function Worth(payload: Option<int>): int {
    if payload.Some? && 0 <= payload.value <= 100 then payload.value else 0
  }

  /** Step k was the answer to this call, which has not begun anew since. */
  ghost predicate AnswerTo(steps: seq<Step>, n: nat, c: CallId, k: nat) {
    && k < n <= |steps| && steps[k].Answered? && steps[k].c == c
    && forall m :: k < m < n ==> !(steps[m].Connect? && steps[m].c == c) && !(steps[m].Answered? && steps[m].c == c)
  }

  /** What a refreshing call has put into the shared percentage by step n. */
  ghost predicate HasForgotten(steps: seq<Step>, n: nat, s: State, c: CallId)
    requires InRefresh(s, c)
  {
    if s.calls[c].Asking? then s.vars.percentage == 0
    else exists k: nat :: AnswerTo(steps, n, c, k) && s.vars.percentage == Worth(steps[k].payload)
  }

  lemma ForgottenStep(cfg: Settings, s: State, steps: seq<Step>, n: nat, c: CallId)
    requires n < |steps| && Inv(cfg, s) && Enabled(s, steps[n]) && InRefresh(s, c) && HasForgotten(steps, n, s, c)
    requires InRefresh(Apply(cfg, s, steps[n]), c)
    ensures HasForgotten(steps, n + 1, Apply(cfg, s, steps[n]), c)
  {
    RefreshAlone(cfg, s, steps[n], c);
    if s.calls[c].ClosingClient? {
      var k: nat :| AnswerTo(steps, n, c, k) && s.vars.percentage == Worth(steps[k].payload);
      assert AnswerTo(steps, n + 1, c, k);
    } else if steps[n].Answered? {
      assert AnswerTo(steps, n + 1, c, n);
    }
  }

  /**
   * A refresh forgets the old percentage when it begins, and has no other than the one of its own answer: a
   * value from before an outage is never shown again.
   */
  lemma {:induction false} RefreshForgets(cfg: Settings, states: seq<State>, steps: seq<Step>, n: nat, c: CallId)
    requires Run(cfg, states, steps) && n < |states| && InRefresh(states[n], c)
    ensures HasForgotten(steps, n, states[n], c)
  {
    if n > 0 {
      RunInv(cfg, states, steps, n - 1);
      assert states[n - 1 + 1] == Apply(cfg, states[n - 1], steps[n - 1]);
      if InRefresh(states[n - 1], c) {
        RefreshForgets(cfg, states, steps, n - 1, c);
        ForgottenStep(cfg, states[n - 1], steps, n - 1, c);
      }
    }
  }

  /** While a call refreshes, only its own answer moves the percentage. */
  lemma RefreshAlone(cfg: Settings, s: State, step: Step, c: CallId)
    requires Inv(cfg, s) && Enabled(s, step) && InRefresh(s, c) && InRefresh(Apply(cfg, s, step), c)
    ensures !(step.Connect? && step.c == c)
    ensures step.Answered? ==> step.c == c && s.calls[c].Asking? && Apply(cfg, s, step).calls[c].ClosingClient?
    ensures !step.Answered? ==> Apply(cfg, s, step).vars.percentage == s.vars.percentage
                                && Apply(cfg, s, step).calls[c] == s.calls[c]
    ensures step.Answered? && s.vars.percentage == 0 ==> Apply(cfg, s, step).vars.percentage == Worth(step.payload)
  {
    assert Busy(s, c);
    if step.Answered? || step.RefreshOver? || step.TrialOver? { assert Busy(s, step.c); }
  }

  /** The end of a refresh shows that answer, or nothing if it raised. */
  lemma RefreshShows(cfg: Settings, s: State, step: Step)
    requires Enabled(s, step) && step.RefreshOver?
    ensures var t := Apply(cfg, s, step);
      && |s.log| < |t.log| && t.log[|s.log|] == Refreshed(s.now, if step.ending.Raised? then 0 else s.vars.percentage)
      && t.vars.expiresAt == s.now + 30.0 && !t.vars.refreshing
  {
  }

  /** No call is lost: it goes on from await to await, and ends with a handshake, a fallback or a cancellation. */
  lemma CallsGoOn(cfg: Settings, s: State, step: Step)
    requires Inv(cfg, s) && Enabled(s, step) && !step.Tick?
    ensures var t := Apply(cfg, s, step);
      && (forall c :: c != step.c ==> (c in t.calls <==> c in s.calls) && (c in s.calls ==> t.calls[c] == s.calls[c]))
      && (step.Connect? ==> step.c in t.calls && (t.calls[step.c].Asking? ==> t.calls[step.c].roll == step.roll))
      && (step.Answered? ==> step.c in t.calls && t.calls[step.c] == ClosingClient(s.calls[step.c].roll))
      && (step.RefreshOver? ==> (step.c in t.calls <==> !step.ending.Cancelled?))
      && (step.RefreshOver? && step.c in t.calls ==> t.calls[step.c].Handshake? || t.calls[step.c].FallbackConnect?)
      && (step.TrialOver? ==> (step.c in t.calls <==> step.ending.Raised?))
      && (step.TrialOver? && step.c in t.calls ==> t.calls[step.c].FallbackConnect?)
      && (step.FallbackOver? ==> step.c !in t.calls)
  {
  }

  /** A trial that is switched off asks for no flag and starts nothing. */
  lemma {:induction false} StartedMeansEnabled(cfg: Settings, states: seq<State>, steps: seq<Step>, n: nat)
    requires Run(cfg, states, steps) && n < |states|
    ensures cfg.enabled || (states[n].log == [] && forall c :: c in states[n].calls ==> states[n].calls[c].FallbackConnect?)
  {
    if n > 0 {
      StartedMeansEnabled(cfg, states, steps, n - 1);
      assert states[n - 1 + 1] == Apply(cfg, states[n - 1], steps[n - 1]);
    }
  }

  // ---------- the cooldown can be reached ----------

  ghost predicate Reachable(cfg: Settings, s: State) {
    exists states, steps :: Run(cfg, states, steps) && states[|states| - 1] == s
  }

  lemma Reach(cfg: Settings, s: State, step: Step, t: State)
    requires Reachable(cfg, s) && Enabled(s, step) && t == Apply(cfg, s, step)
    ensures Reachable(cfg, t)
  {
    var states, steps :| Run(cfg, states, steps) && states[|states| - 1] == s;
    var states', steps' := states + [t], steps + [step];
    forall i | 0 <= i < |steps'|
      ensures Enabled(states'[i], steps'[i]) && states'[i + 1] == Apply(cfg, states'[i], steps'[i])
    {
      if i < |steps| { assert states'[i] == states[i] && states'[i + 1] == states[i + 1] && steps'[i] == steps[i]; }
    }
    assert Run(cfg, states', steps') && states'[|states'| - 1] == t;
  }

  const SHOWN := Vars(100, CACHE_SECONDS, false, 0.0, true)
  const FIRST_LOG := [Refreshed(0.0, 100), Started(0.0, 100, 0)]

  /** The first call refreshes the flag and starts a handshake. */
  lemma FirstStarts(cfg: Settings)
    requires cfg.enabled
    ensures Reachable(cfg, State(0.0, SHOWN, map[0 := Handshake], FIRST_LOG))
  {
    assert Run(cfg, [INITIAL], []) && [INITIAL][0] == INITIAL;
    var s1 := State(0.0, Vars(0, 0.0, true, 0.0, false), map[0 := Asking(0)], []);
    Reach(cfg, INITIAL, Connect(0, 0), s1);
    var s2 := State(0.0, Vars(100, 0.0, true, 0.0, false), map[0 := ClosingClient(0)], []);
    Reach(cfg, s1, Answered(0, Some(100)), s2);
    Reach(cfg, s2, RefreshOver(0, Returned), State(0.0, SHOWN, map[0 := Handshake], FIRST_LOG));
  }

  /** Two handshakes can start exactly one cooldown apart, on the strength of one refresh. */
  lemma CooldownIsReached(cfg: Settings)
    requires cfg.enabled && 0.0 <= cfg.cooldown < CACHE_SECONDS
    ensures exists s :: Reachable(cfg, s) && s.log == FIRST_LOG + [Failed(0.0), Started(cfg.cooldown, 100, 0)]
  {
    FirstStarts(cfg);
    var v := SHOWN.(connecting := false, retryAfter := cfg.cooldown);
    var s4 := State(0.0, v, map[0 := FallbackConnect], FIRST_LOG + [Failed(0.0)]);
    Reach(cfg, State(0.0, SHOWN, map[0 := Handshake], FIRST_LOG), TrialOver(0, Raised), s4);
    var s5 := s4.(now := cfg.cooldown);
    Reach(cfg, s4, Tick(cfg.cooldown), s5);
    var s6 := Apply(cfg, s5, Connect(1, 0));
    Reach(cfg, s5, Connect(1, 0), s6);
    assert s6.log == FIRST_LOG + [Failed(0.0), Started(cfg.cooldown, 100, 0)];
  }
}
