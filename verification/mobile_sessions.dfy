/** Mobile card sessions: signed tokens that are renewed, single-use trial codes, and refresh tokens. */
module MobileSessions {
  import opened Wrappers

  /** Whole seconds, as in the tokens' timestamps. */
  datatype Settings = Settings(ttl: nat, threshold: nat)

  datatype Payload = Payload(review: bool, person: Option<int>, trial: Option<int>)

  datatype Token = Token(payload: Payload, issuedAt: int)

  datatype Refusal = Expired | Malformed | TrialEnded | NoCard

  datatype Decoded = Decoded(age: int, review: bool, person: Option<int>, trial: Option<int>, remaining: int)

  function AtLeastZero(x: int): int {
    if x < 0 then 0 else x
  }

  // ---------- the session manager ----------

  /** A genuine token; one from the future counts as expired. */
  function Decode(s: Settings, t: Token, now: int): Result<Decoded, Refusal> {
    var age := now - t.issuedAt;
    if age > s.ttl || age < 0 then Failure(Expired)
    else if !t.payload.review && t.payload.person.None? && t.payload.trial.None? then Failure(Malformed)
    else Success(Decoded(AtLeastZero(age), t.payload.review, t.payload.person, t.payload.trial, AtLeastZero(s.ttl - AtLeastZero(age))))
  }

  function PersonPayload(person: int): Payload {
    Payload(false, Some(person), None)
  }

  function MaybeRenew(s: Settings, d: Decoded, now: int): Option<Token> {
    if d.remaining > s.threshold then None
    else if d.review then Some(Token(Payload(true, Some(0), None), now))
    else if d.trial.Some? then Some(Token(Payload(false, None, d.trial), now))
    else Some(Token(PersonPayload(if d.person.Some? then d.person.value else 0), now))
  }

  // ---------- get_current_card ----------

  /** What the database says at one call. */
  datatype World = World(active: set<int>, approved: map<int, int>, carded: set<int>)

  /** A call reads the clock when it decodes the token and when it signs a new one. */
  datatype Call = Call(decodeAt: int, issueAt: int, world: World)

  /** The renewed token, if any. */
  function CurrentCard(s: Settings, t: Token, c: Call): Result<Option<Token>, Refusal> {
    var decoded := Decode(s, t, c.decodeAt);
    if decoded.Failure? then Failure(decoded.error)
    else
      var d := decoded.value;
      if d.review then Success(MaybeRenew(s, d, c.issueAt))
      else if d.trial.Some? then
        if d.trial.value in c.world.active then Success(MaybeRenew(s, d, c.issueAt))
        else if d.trial.value !in c.world.approved then Failure(TrialEnded)
        else if c.world.approved[d.trial.value] !in c.world.carded then Failure(NoCard)
        else Success(Some(Token(PersonPayload(c.world.approved[d.trial.value]), c.issueAt)))
      else if d.person.value !in c.world.carded then Failure(NoCard)
      else Success(MaybeRenew(s, d, c.issueAt))
  }

  function Newest(t: Token, renewed: Option<Token>): Token {
    if renewed.Some? then renewed.value else t
  }

  /** A client that calls again and again with the newest token it was given. */
  function Run(s: Settings, t: Token, calls: seq<Call>): Result<Token, Refusal>
    decreases |calls|
  {
    if calls == [] then Success(t)
    else
      var before := Run(s, t, calls[..|calls| - 1]);
      if before.Failure? then before
      else
        var card := CurrentCard(s, before.value, calls[|calls| - 1]);
        if card.Failure? then Failure(card.error) else Success(Newest(before.value, card.value))
  }

  // ---------- a client that calls often enough never expires ----------

  function PreviousCall(t: Token, calls: seq<Call>): int {
    if calls == [] then t.issuedAt else calls[|calls| - 1].decodeAt
  }

  /** No two calls lie more than `gap` seconds apart, and the token of one call is in hand at the next. */
  ghost predicate Prompt(t: Token, calls: seq<Call>, gap: nat)
    decreases |calls|
  {
    calls == [] ||
    var before, last := calls[..|calls| - 1], calls[|calls| - 1];
    && Prompt(t, before, gap)
    && last.decodeAt <= last.issueAt
    && PreviousIssue(t, before) <= last.decodeAt <= PreviousCall(t, before) + gap
  }

  function PreviousIssue(t: Token, calls: seq<Call>): int {
    if calls == [] then t.issuedAt else calls[|calls| - 1].issueAt
  }

  /** After a call the newest token is new, or has more than the threshold left. */
  ghost predicate Lasting(s: Settings, newest: Token, previousCall: int, previousIssue: int) {
    && newest.issuedAt <= previousIssue
    && (newest.issuedAt >= previousCall || s.ttl - (previousCall - newest.issuedAt) > s.threshold)
  }

  lemma {:induction false} RunLasts(s: Settings, t: Token, calls: seq<Call>, gap: nat)
    requires gap <= s.ttl && gap <= s.threshold + 1 && Prompt(t, calls, gap)
    ensures Run(s, t, calls).Success? ==> Lasting(s, Run(s, t, calls).value, PreviousCall(t, calls), PreviousIssue(t, calls))
    ensures Run(s, t, calls) != Failure(Expired)
    decreases |calls|
  {
    if calls != [] { RunLasts(s, t, calls[..|calls| - 1], gap); }
  }

  /** The longest pause between calls that is always safe: one second more than the threshold, and no more than a token's life. */
  predicate SafeGap(s: Settings, gap: nat) {
    gap <= s.ttl && gap <= s.threshold + 1
  }

  ghost predicate NeverRefused(s: Settings, gap: nat) {
    forall t, calls :: Prompt(t, calls, gap) ==> Run(s, t, calls) != Failure(Expired)
  }

  /** A client that keeps the newest token is never refused as expired, whatever else happens, exactly for safe pauses. */
  lemma NeverRefusedIff(s: Settings, gap: nat)
    requires gap >= 1
    ensures NeverRefused(s, gap) <==> SafeGap(s, gap)
  {
    if SafeGap(s, gap) {
      forall t, calls | Prompt(t, calls, gap) ensures Run(s, t, calls) != Failure(Expired) { RunLasts(s, t, calls, gap); }
    } else {
      var n := if gap > s.ttl then 0 else s.ttl - s.threshold - 1;
      QuietRun(s, n, gap);
      var last := Call(s.ttl + 1, s.ttl + 1, NOWHERE);
      var calls := Quiet(n) + [last];
      assert calls[..n] == Quiet(n);
      assert n > 0 ==> Quiet(n)[n - 1] == Call(n, n, NOWHERE);
      assert Prompt(REVIEWER, calls, gap);
      assert Run(s, REVIEWER, calls) == Failure(Expired);
    }
  }

  const NOWHERE := World({}, map[], {})
  const REVIEWER := Token(Payload(true, Some(0), None), 0)

  /** One call a second. */
  function Quiet(n: nat): (calls: seq<Call>)
    ensures |calls| == n && forall i {:trigger calls[i]} :: 0 <= i < n ==> calls[i] == Call(i + 1, i + 1, NOWHERE)
  {
    seq(n, i => Call(i + 1, i + 1, NOWHERE))
  }

  lemma {:induction false} QuietRun(s: Settings, n: nat, gap: nat)
    requires gap >= 1 && (n == 0 || n <= s.ttl - s.threshold - 1)
    ensures Prompt(REVIEWER, Quiet(n), gap) && Run(s, REVIEWER, Quiet(n)) == Success(REVIEWER)
    decreases n
  {
    if n > 0 {
      QuietRun(s, n - 1, gap);
      assert Quiet(n)[..n - 1] == Quiet(n - 1);
      assert Quiet(n)[n - 1] == Call(n, n, NOWHERE);
      assert n > 1 ==> Quiet(n - 1)[n - 2] == Call(n - 1, n - 1, NOWHERE);
    }
  }

  // ---------- the subject stays ----------

  datatype Subject = Reviewer | Trial(application: int) | Person(id: int)

  /** Whom a token names. */
  function SubjectOf(p: Payload): Subject {
    if p.review then Reviewer
    else if p.trial.Some? then Trial(p.trial.value)
    else Person(if p.person.Some? then p.person.value else 0)
  }

  /** A trial application was approved as this volunteer, at one of the calls that no longer found the trial. */
  ghost predicate ApprovedAt(calls: seq<Call>, application: int, volunteer: int) {
    exists i :: 0 <= i < |calls| && application !in calls[i].world.active &&
                application in calls[i].world.approved && calls[i].world.approved[application] == volunteer
  }

  lemma {:induction false} SubjectStays(s: Settings, t: Token, calls: seq<Call>)
    requires Run(s, t, calls).Success?
    ensures var from, to := SubjectOf(t.payload), SubjectOf(Run(s, t, calls).value.payload);
      to == from || (from.Trial? && to.Person? && ApprovedAt(calls, from.application, to.id))
    decreases |calls|
  {
    if calls != [] {
      var n := |calls| - 1;
      SubjectStays(s, t, calls[..n]);
      var from, middle := SubjectOf(t.payload), SubjectOf(Run(s, t, calls[..n]).value.payload);
      if from.Trial? && middle.Person? && ApprovedAt(calls[..n], from.application, middle.id) {
        var i :| 0 <= i < n && from.application !in calls[..n][i].world.active &&
          from.application in calls[..n][i].world.approved && calls[..n][i].world.approved[from.application] == middle.id;
        assert calls[i] == calls[..n][i];
      }
    }
  }

  /** Only a trial ever moves, so nobody moves twice: from the first token that names someone else on, the subject is fixed. */
  lemma {:induction false} MovesAtMostOnce(s: Settings, t: Token, calls: seq<Call>, k: nat)
    requires k <= |calls| && Run(s, t, calls[..k]).Success? && Run(s, t, calls).Success?
    requires SubjectOf(Run(s, t, calls[..k]).value.payload) != SubjectOf(t.payload)
    ensures SubjectOf(Run(s, t, calls).value.payload) == SubjectOf(Run(s, t, calls[..k]).value.payload)
  {
    var middle := Run(s, t, calls[..k]).value;
    SubjectStays(s, t, calls[..k]);
    RunSplits(s, t, calls, k);
    SubjectStays(s, middle, calls[k..]);
  }

  lemma {:induction false} RunSplits(s: Settings, t: Token, calls: seq<Call>, k: nat)
    requires k <= |calls| && Run(s, t, calls[..k]).Success?
    ensures Run(s, t, calls) == Run(s, Run(s, t, calls[..k]).value, calls[k..])
    decreases |calls| - k
  {
    if k == |calls| {
      assert calls[..k] == calls;
    } else {
      var n := |calls| - 1;
      assert calls[..n][..k] == calls[..k];
      RunSplits(s, t, calls[..n], k);
      assert calls[k..][..n - k] == calls[..n][k..];
    }
  }

  // ---------- the answer to one call ----------

  /** The token's trial is no longer active, and was approved as a volunteer. */
  predicate Promoted(p: Payload, w: World) {
    !p.review && p.trial.Some? && p.trial.value !in w.active && p.trial.value in w.approved
  }

  /** There is a card to show: always for a reviewer, else for an active trial, or a volunteer who has one. */
  predicate HasCard(p: Payload, w: World) {
    if p.review then true
    else if p.trial.Some? then
      p.trial.value in w.active || (p.trial.value in w.approved && w.approved[p.trial.value] in w.carded)
    else p.person.Some? && p.person.value in w.carded
  }

  /** A call is answered with a card exactly when the token is genuine and in its life and there is a card for it. */
  lemma AnsweredIff(s: Settings, t: Token, c: Call)
    ensures var r, age := CurrentCard(s, t, c), c.decodeAt - t.issuedAt;
      && (r.Success? <==> 0 <= age <= s.ttl && HasCard(t.payload, c.world))
      && (r == Failure(Expired) <==> !(0 <= age <= s.ttl))
      && (r == Failure(Malformed) <==>
            0 <= age <= s.ttl && !t.payload.review && t.payload.person.None? && t.payload.trial.None?)
      && (r == Failure(TrialEnded) <==>
            0 <= age <= s.ttl && !t.payload.review && t.payload.trial.Some?
            && t.payload.trial.value !in c.world.active && t.payload.trial.value !in c.world.approved)
  {
  }

  /** It brings a new token exactly when the old one is near its end or its trial was approved. */
  lemma RenewedIff(s: Settings, t: Token, c: Call)
    requires CurrentCard(s, t, c).Success?
    ensures var token := CurrentCard(s, t, c).value;
      var p, w := t.payload, c.world;
      var subject := if Promoted(p, w) then Person(w.approved[p.trial.value]) else SubjectOf(p);
      && (token.Some? <==> Promoted(p, w) || s.ttl - (c.decodeAt - t.issuedAt) <= s.threshold)
      && (token.Some? ==> token.value.issuedAt == c.issueAt)
      && (token.Some? ==> SubjectOf(token.value.payload) == subject)
      && (token.Some? ==> token.value.payload == match subject
            case Reviewer => Payload(true, Some(0), None)
            case Trial(application) => Payload(false, None, Some(application))
            case Person(id) => Payload(false, Some(id), None))
  {
  }
}
