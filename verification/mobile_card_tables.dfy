/** The tables behind the sessions. */
module MobileCardTables {
  import opened Wrappers
  import opened MobileSessions

  type Hash = string

  datatype Code = Code(hash: Hash, createdAt: int)

  /** A refresh token names one subject. */
  datatype Refresh = Refresh(subject: Subject, expiresAt: int)

  class MobileCardRepository {
    var trialCodes: map<int, Code>
    var refreshTokens: map<Hash, Refresh>

    constructor ()
      ensures trialCodes == map[] && refreshTokens == map[]
    {
      trialCodes, refreshTokens := map[], map[];
    }

    method StoreTrialAccessCode(application: int, hash: Hash, createdAt: int)
      modifies this`trialCodes
      ensures trialCodes == Apply(old(trialCodes), Store(application, hash, createdAt))
    {
      trialCodes := trialCodes[application := Code(hash, createdAt)];
    }

    /** One DELETE with all predicates. */
    method ConsumeTrialAccessCode(application: int, hash: Hash, expiresAfter: int) returns (accepted: bool)
      modifies this`trialCodes
      ensures trialCodes == Apply(old(trialCodes), Consume(application, hash, expiresAfter))
      ensures accepted <==> Accepts(old(trialCodes), Consume(application, hash, expiresAfter))
      ensures accepted <==> application in old(trialCodes) && old(trialCodes)[application].hash == hash
                            && old(trialCodes)[application].createdAt >= expiresAfter
      ensures trialCodes == if accepted then old(trialCodes) - {application} else old(trialCodes)
    {
      accepted := application in trialCodes && trialCodes[application].hash == hash && trialCodes[application].createdAt >= expiresAfter;
      if accepted { trialCodes := trialCodes - {application}; }
    }

    method StoreRefreshToken(hash: Hash, subject: Subject, expiresAt: int)
      modifies this`refreshTokens
      ensures refreshTokens == old(refreshTokens)[hash := Refresh(subject, expiresAt)]
    {
      refreshTokens := refreshTokens[hash := Refresh(subject, expiresAt)];
    }

    /** One UPDATE: a token that has not expired gets a new expiry. */
    method UseRefreshToken(hash: Hash, now: int, newExpiresAt: int) returns (subject: Option<Subject>)
      modifies this`refreshTokens
      ensures refreshTokens == Slid(old(refreshTokens), hash, now, newExpiresAt)
      ensures subject == if Usable(old(refreshTokens), hash, now) then Some(old(refreshTokens)[hash].subject) else None
    {
      if hash !in refreshTokens || refreshTokens[hash].expiresAt <= now { return None; }
      subject := Some(refreshTokens[hash].subject);
      refreshTokens := refreshTokens[hash := refreshTokens[hash].(expiresAt := newExpiresAt)];
    }
  }

  // ---------- trial codes, in every interleaving of the statements ----------

  datatype Op = Store(application: int, hash: Hash, createdAt: int) | Consume(application: int, hash: Hash, expiresAfter: int)

  predicate Accepts(t: map<int, Code>, op: Op) {
    op.Consume? && op.application in t && t[op.application].hash == op.hash && t[op.application].createdAt >= op.expiresAfter
  }

  function Apply(t: map<int, Code>, op: Op): map<int, Code> {
    if op.Store? then t[op.application := Code(op.hash, op.createdAt)]
    else if Accepts(t, op) then t - {op.application}
    else t
  }

  function Codes(ops: seq<Op>): map<int, Code> {
    if ops == [] then map[] else Apply(Codes(ops[..|ops| - 1]), ops[|ops| - 1])
  }

  /** The statement lets its caller open a session. */
  predicate Opens(ops: seq<Op>, i: nat)
    requires i < |ops|
  {
    Accepts(Codes(ops[..i]), ops[i])
  }

  /** The last code stored for an application. */
  function LastStore(ops: seq<Op>, application: int): Option<nat> {
    if ops == [] then None
    else if ops[|ops| - 1].Store? && ops[|ops| - 1].application == application then Some(|ops| - 1)
    else LastStore(ops[..|ops| - 1], application)
  }

  /** A code in the table is the last one stored, and nothing was opened with it yet. */
  lemma {:induction false} CodeIsUnspent(ops: seq<Op>, application: int)
    requires application in Codes(ops)
    ensures LastStore(ops, application).Some?
    ensures var k := LastStore(ops, application).value;
      && k < |ops| && ops[k] == Store(application, Codes(ops)[application].hash, Codes(ops)[application].createdAt)
      && forall i {:trigger Opens(ops, i)} :: k < i < |ops| && ops[i].application == application ==> !Opens(ops, i)
    decreases |ops|
  {
    var n := |ops| - 1;
    if !(ops[n].Store? && ops[n].application == application) {
      CodeIsUnspent(ops[..n], application);
      var k := LastStore(ops, application).value;
      forall i | k < i < |ops| && ops[i].application == application ensures !Opens(ops, i) {
        if i < n {
          assert ops[..n][..i] == ops[..i];
          assert !Opens(ops[..n], i);
        }
      }
    }
  }

  /** No session was opened with a code of the application after step k. */
  predicate UnspentSince(ops: seq<Op>, application: int, k: nat) {
    forall i {:trigger Opens(ops, i)} :: k < i < |ops| && ops[i].application == application ==> !Opens(ops, i)
  }

  lemma UnspentStep(ops: seq<Op>, application: int, k: nat)
    requires ops != [] && k < |ops| - 1
    ensures UnspentSince(ops, application, k) <==>
            && UnspentSince(ops[..|ops| - 1], application, k)
            && !(ops[|ops| - 1].application == application && Accepts(Codes(ops[..|ops| - 1]), ops[|ops| - 1]))
  {
    var n := |ops| - 1;
    var before := ops[..n];
    forall i: nat | i < n ensures Opens(ops, i) <==> Opens(before, i) { assert before[..i] == ops[..i]; }
    assert Opens(ops, n) <==> Accepts(Codes(before), ops[n]);
    if UnspentSince(ops, application, k) {
      forall i | k < i < n && before[i].application == application ensures !Opens(before, i) {
        assert !Opens(ops, i);
      }
    }
  }

  /** Exactly then a code is in the table: attempts with a wrong hash, or too late, cost nothing. */
  lemma {:induction false} CodeIsThereIff(ops: seq<Op>, application: int)
    ensures application in Codes(ops) <==>
            LastStore(ops, application).Some? && UnspentSince(ops, application, LastStore(ops, application).value)
    decreases |ops|
  {
    if ops != [] {
      var n := |ops| - 1;
      CodeIsThereIff(ops[..n], application);
      LastStoreBefore(ops[..n], application);
      if !(ops[n].Store? && ops[n].application == application) && LastStore(ops, application).Some? {
        UnspentStep(ops, application, LastStore(ops, application).value);
      }
    }
  }

  lemma {:induction false} LastStoreBefore(ops: seq<Op>, application: int)
    ensures LastStore(ops, application).Some? ==> LastStore(ops, application).value < |ops|
    decreases |ops|
  {
    if ops != [] { LastStoreBefore(ops[..|ops| - 1], application); }
  }

  /**
   * In every interleaving each stored trial code opens at most one session: a session is opened with the code
   * that was stored last, young enough and with the right hash, and no other session is opened with that code.
   */
  lemma OneSessionPerCode(ops: seq<Op>, i: nat, j: nat)
    requires i < j < |ops| && ops[i].application == ops[j].application && Opens(ops, i) && Opens(ops, j)
    ensures var first, second := LastStore(ops[..i], ops[i].application), LastStore(ops[..j], ops[j].application);
      && first.Some? && second.Some? && first.value < i < second.value < j
      && ops[first.value].Store? && ops[second.value].Store?
      && ops[first.value].hash == ops[i].hash && ops[first.value].createdAt >= ops[i].expiresAfter
      && ops[second.value].hash == ops[j].hash && ops[second.value].createdAt >= ops[j].expiresAfter
  {
    CodeIsUnspent(ops[..i], ops[i].application);
    CodeIsUnspent(ops[..j], ops[j].application);
    assert ops[..j][..i] == ops[..i];
    assert Opens(ops[..j], i);
  }

  function Count(ops: seq<Op>, application: int, stores: bool): nat {
    if ops == [] then 0
    else
      var n := |ops| - 1;
      var hit := ops[n].application == application && if stores then ops[n].Store? else Opens(ops, n);
      Count(ops[..n], application, stores) + if hit then 1 else 0
  }

  /** So an application never has more sessions opened by code than codes stored, and one fewer while a code is waiting. */
  lemma {:induction false} SessionsWithinCodes(ops: seq<Op>, application: int)
    ensures Count(ops, application, false) + (if application in Codes(ops) then 1 else 0) <= Count(ops, application, true)
    decreases |ops|
  {
    if ops != [] { SessionsWithinCodes(ops[..|ops| - 1], application); }
  }

  // ---------- refresh tokens ----------

  predicate Usable(t: map<Hash, Refresh>, hash: Hash, now: int) {
    hash in t && t[hash].expiresAt > now
  }

  function Slid(t: map<Hash, Refresh>, hash: Hash, now: int, newExpiresAt: int): map<Hash, Refresh> {
    if Usable(t, hash, now) then t[hash := t[hash].(expiresAt := newExpiresAt)] else t
  }

  datatype Use = Use(hash: Hash, at: int)

  /** Uses of any tokens, each of which slides an expiry by the time to live. */
  function Used(t: map<Hash, Refresh>, uses: seq<Use>, ttl: nat): map<Hash, Refresh> {
    if uses == [] then t
    else
      var last := uses[|uses| - 1];
      Slid(Used(t, uses[..|uses| - 1], ttl), last.hash, last.at, last.at + ttl)
  }

  /** When a token was last used, or else would have been, given its expiry. */
  function LastUse(t: map<Hash, Refresh>, uses: seq<Use>, hash: Hash, ttl: nat): int
    requires hash in t
  {
    if uses == [] then t[hash].expiresAt - ttl
    else if uses[|uses| - 1].hash == hash then uses[|uses| - 1].at
    else LastUse(t, uses[..|uses| - 1], hash, ttl)
  }

  /** Every use of the token follows the one before it by less than the time to live. */
  ghost predicate Regular(t: map<Hash, Refresh>, uses: seq<Use>, hash: Hash, ttl: nat)
    requires hash in t
    decreases |uses|
  {
    uses == [] ||
    (Regular(t, uses[..|uses| - 1], hash, ttl) &&
     (uses[|uses| - 1].hash == hash ==> uses[|uses| - 1].at < LastUse(t, uses[..|uses| - 1], hash, ttl) + ttl))
  }

  /** A device that refreshes regularly is never turned away, and its token names the same subject for ever. */
  lemma {:induction false} RegularUseNeverFails(t: map<Hash, Refresh>, uses: seq<Use>, hash: Hash, ttl: nat, now: int)
    requires hash in t && Regular(t, uses, hash, ttl)
    ensures hash in Used(t, uses, ttl) && Used(t, uses, ttl)[hash] == Refresh(t[hash].subject, LastUse(t, uses, hash, ttl) + ttl)
    ensures Usable(Used(t, uses, ttl), hash, now) <==> now < LastUse(t, uses, hash, ttl) + ttl
    decreases |uses|
  {
    if uses != [] { RegularUseNeverFails(t, uses[..|uses| - 1], hash, ttl, uses[|uses| - 1].at); }
  }

  /** refresh_session: a token signed for the subject of the refresh token, which get_current_card may replace. */
  function RefreshSession(s: Settings, subject: Subject, c: Call): Result<Token, Refusal> {
    var payload :=
      match subject
      case Person(id) => PersonPayload(id)
      case Trial(application) => Payload(false, None, Some(application))
      case Reviewer => Payload(true, Some(0), None);
    Run(s, Token(payload, c.decodeAt), [c])
  }

  /** A refreshed session is for the subject of the refresh token, or for the volunteer its application was approved as. */
  lemma RefreshedSubject(s: Settings, subject: Subject, c: Call)
    requires RefreshSession(s, subject, c).Success?
    ensures var to := SubjectOf(RefreshSession(s, subject, c).value.payload);
      to == subject || (subject.Trial? && to.Person? && ApprovedAt([c], subject.application, to.id))
  {
    var payload :=
      match subject
      case Person(id) => PersonPayload(id)
      case Trial(application) => Payload(false, None, Some(application))
      case Reviewer => Payload(true, Some(0), None);
    SubjectStays(s, Token(payload, c.decodeAt), [c]);
  }
}
