/** The daily recruitment digest: which applications are reported to whom, and when. */
module Digest {
  import opened Wrappers

  /** Times are in microseconds. */
  const DAY := 86400 * 1_000_000

  type Email = string

  datatype Status = Fresh | Contacted | OnTrial | Settled

  datatype Section = New | Waiting3d | Waiting7d | Trial7d | TrialDone | Waiting | InContact | TrialActive

  /** A row of the applications table, with the group of its trial assignment looked up. */
  datatype Application = Application(id: int, status: Status, createdAt: int, trialEndsAt: Option<int>,
                                     first: Option<int>, second: Option<int>, initial: Option<int>, placed: Option<int>)

  datatype Candidate = Candidate(id: int, status: Status, createdAt: int, trialEndsAt: Option<int>,
                                 groups: seq<int>, trialGroup: Option<int>)

  datatype Recipient = Recipient(email: Email, name: Option<string>)

  datatype Item = Item(name: Option<string>, sections: map<Section, seq<int>>)

  type Digests = map<(Email, int), Item>

  // ---------- one application ----------

  /** Python's `or` on optional numbers: zero is as good as nothing. */
  function Or(a: Option<int>, b: Option<int>): Option<int> {
    if a.Some? && a.value != 0 then a else b
  }

  function CandidateOf(a: Application): Candidate {
    var chosen := if a.first.Some? then [a.first.value] else [];
    Candidate(a.id, a.status, a.createdAt, a.trialEndsAt,
              if a.second.Some? && a.second.value !in chosen then chosen + [a.second.value] else chosen,
              if a.status.OnTrial? then Or(a.placed, Or(a.initial, a.first)) else None)
  }

  function Only(b: bool, s: Section): seq<Section> {
    if b then [s] else []
  }

  predicate Within(value: int, start: int, end: int, now: int) {
    now - start < value <= now - end
  }

  function Classify(c: Candidate, now: int): seq<Section> {
    Only(Within(c.createdAt, DAY, 0, now), New) +
    (if c.status.Fresh? then
       Only(Within(c.createdAt, 4 * DAY, 3 * DAY, now), Waiting3d) + Only(Within(c.createdAt, 8 * DAY, 7 * DAY, now), Waiting7d)
     else []) +
    (if c.status.OnTrial? && c.trialEndsAt.Some? then
       Only(now + 6 * DAY < c.trialEndsAt.value <= now + 7 * DAY, Trial7d) + Only(Within(c.trialEndsAt.value, DAY, 0, now), TrialDone)
     else [])
  }

  function ClassifySnapshot(c: Candidate, now: int): seq<Section> {
    if c.status.Fresh? then [Waiting]
    else if c.status.Contacted? then [InContact]
    else if c.status.OnTrial? && c.trialEndsAt.Some? then (if c.trialEndsAt.value > now then [TrialActive] else [TrialDone])
    else []
  }

  function Sections(c: Candidate, now: int, snapshot: bool): seq<Section> {
    if snapshot then ClassifySnapshot(c, now) else Classify(c, now)
  }

  function GroupsFor(c: Candidate, s: Section): seq<int> {
    if s in {Trial7d, TrialDone, TrialActive}
    then (if c.trialGroup.Some? && c.trialGroup.value != 0 then [c.trialGroup.value] else [])
    else c.groups
  }

  /** The WHERE clause that narrows the table; a comparison with a missing end of trial is not true. */
  predicate Prefilter(a: Application, now: int, snapshot: bool) {
    if snapshot then !a.status.Settled?
    else
      a.createdAt > now - 8 * DAY ||
      (a.status.OnTrial? && a.trialEndsAt.Some? && now - DAY < a.trialEndsAt.value <= now + 7 * DAY)
  }

  /** An application the query leaves out has no section. */
  lemma PrefilterIsSound(a: Application, now: int, snapshot: bool)
    ensures Sections(CandidateOf(a), now, snapshot) != [] ==> Prefilter(a, now, snapshot)
  {
  }

  /** What the query loads: nothing that is settled, or that lies outside the longest of the windows. */
  lemma LoadedIff(a: Application, now: int, snapshot: bool)
    ensures Prefilter(a, now, snapshot) <==>
            if snapshot then a.status.Fresh? || a.status.Contacted? || a.status.OnTrial?
            else
              || now - a.createdAt < 691_200_000_000
              || (a.status.OnTrial? && a.trialEndsAt.Some?
                  && -604_800_000_000 <= now - a.trialEndsAt.value < 86_400_000_000)
  {
  }

  // ---------- each section once ----------

  /** From when on, for one day, an application that keeps its status belongs to a section of the daily digest. */
  function DueAt(c: Candidate, s: Section): Option<int> {
    match s
    case New => Some(c.createdAt)
    case Waiting3d => if c.status.Fresh? then Some(c.createdAt + 3 * DAY) else None
    case Waiting7d => if c.status.Fresh? then Some(c.createdAt + 7 * DAY) else None
    case Trial7d => if c.status.OnTrial? && c.trialEndsAt.Some? then Some(c.trialEndsAt.value - 7 * DAY) else None
    case TrialDone => if c.status.OnTrial? then c.trialEndsAt else None
    case _ => None
  }

  lemma InSectionIff(c: Candidate, s: Section, now: int)
    ensures s in Classify(c, now) <==> DueAt(c, s).Some? && DueAt(c, s).value <= now < DueAt(c, s).value + DAY
  {
  }

  /**
   * The two digests agree at every moment: a daily reminder about waiting or about a trial concerns an
   * application that the snapshot puts under waiting, running trial or finished trial, and nothing else.
   */
  lemma SnapshotAgrees(c: Candidate, now: int)
    ensures Waiting3d in Classify(c, now) || Waiting7d in Classify(c, now) ==> ClassifySnapshot(c, now) == [Waiting]
    ensures Trial7d in Classify(c, now) ==> ClassifySnapshot(c, now) == [TrialActive]
    ensures TrialDone in Classify(c, now) ==> ClassifySnapshot(c, now) == [TrialDone]
    ensures ClassifySnapshot(c, now) == [TrialDone] ==> exists before :: before <= now && TrialDone in Classify(c, before)
  {
    if ClassifySnapshot(c, now) == [TrialDone] {
      InSectionIff(c, TrialDone, c.trialEndsAt.value);
      assert TrialDone in Classify(c, c.trialEndsAt.value);
    }
  }

  /** Which of the runs at base, base + DAY, base + 2 * DAY, ... is the one. */
  function RunFor(due: int, base: int): int {
    -((base - due) / DAY)
  }

  /**
   * Over runs exactly 24 hours apart, an application whose status and dates stay as they are appears under each
   * section it ever reaches in exactly one run.
   */
  lemma ReportedOnce(c: Candidate, s: Section, base: int, k: int)
    requires DueAt(c, s).Some?
    ensures s in Classify(c, base + k * DAY) <==> k == RunFor(DueAt(c, s).value, base)
  {
    InSectionIff(c, s, base + k * DAY);
    OneDay(DueAt(c, s).value, base, k);
  }

  lemma OneDay(due: int, base: int, k: int)
    ensures due <= base + k * DAY < due + DAY <==> k == RunFor(due, base)
  {
    var q := (base - due) / DAY;
    assert base - due == q * DAY + (base - due) % DAY;
  }

  /** A section lists an application at most once. */
  lemma SectionsDistinct(c: Candidate, now: int, snapshot: bool)
    ensures forall i, j :: 0 <= i < j < |Sections(c, now, snapshot)| ==> Sections(c, now, snapshot)[i] != Sections(c, now, snapshot)[j]
  {
  }

  ghost predicate Reported(c: Candidate, s: Section, base: int, k: int) {
    s in Classify(c, base + k * DAY)
  }

  /** Nothing but its creation is due for this application: nobody waits for it and it has no trial with an end. */
  predicate OnlyNew(c: Candidate) {
    !c.status.Fresh? && !(c.status.OnTrial? && c.trialEndsAt.Some?)
  }

  /**
   * But not every application is reported exactly once by a daily run, as the comment in the source says: it is
   * reported at least once, and over all runs and sections only once exactly when nothing but its creation is due.
   */
  lemma ReportedOnceInAllIff(c: Candidate, base: int)
    ensures Reported(c, New, base, RunFor(c.createdAt, base))
    ensures (forall s, k, s', k' :: Reported(c, s, base, k) && Reported(c, s', base, k') ==> s == s' && k == k')
            <==> OnlyNew(c)
  {
    forall s, k ensures Reported(c, s, base, k) <==> DueAt(c, s).Some? && k == RunFor(DueAt(c, s).value, base) {
      InSectionIff(c, s, base + k * DAY);
      if DueAt(c, s).Some? { ReportedOnce(c, s, base, k); }
    }
    if !OnlyNew(c) {
      var other := if c.status.Fresh? then Waiting3d else TrialDone;
      assert Reported(c, other, base, RunFor(DueAt(c, other).value, base));
    }
  }

  predicate LessThanADayApart(a: int, b: int) {
    -DAY < a - b < DAY
  }

  /**
   * Even a single run can report an application under two sections, never under more: exactly when it is on a
   * trial that ends within a day of its creation, or within a day of seven days after it.
   */
  lemma TwoAtOnceIff(c: Candidate)
    ensures forall now :: |Classify(c, now)| <= 2
    ensures forall now :: |Classify(c, now)| == 2 <==>
              New in Classify(c, now) && (Trial7d in Classify(c, now) || TrialDone in Classify(c, now))
    ensures (exists now :: |Classify(c, now)| == 2) <==>
            && c.status.OnTrial? && c.trialEndsAt.Some?
            && (LessThanADayApart(c.trialEndsAt.value, c.createdAt)
                || LessThanADayApart(c.trialEndsAt.value - 7 * DAY, c.createdAt))
  {
    if c.status.OnTrial? && c.trialEndsAt.Some? {
      var ends := c.trialEndsAt.value;
      var due := if LessThanADayApart(ends, c.createdAt) then ends else ends - 7 * DAY;
      if LessThanADayApart(due, c.createdAt) {
        var now := if due > c.createdAt then due else c.createdAt;
        assert |Classify(c, now)| == 2;
      }
    }
  }

  // ---------- collecting ----------

  /** One application listed for one recipient. */
  datatype Listing = Listing(to: Recipient, group: int, section: Section, id: int)

  function Listed(item: Item, section: Section): seq<int> {
    if section in item.sections then item.sections[section] else []
  }

  function Add(d: Digests, l: Listing): Digests {
    var key := (l.to.email, l.group);
    var item := if key in d then d[key] else Item(l.to.name, map[]);
    var ids := Listed(item, l.section);
    d[key := item.(sections := item.sections[l.section := if l.id in ids then ids else ids + [l.id]])]
  }

  function AddAll(d: Digests, ls: seq<Listing>): Digests
    decreases |ls|
  {
    if ls == [] then d else Add(AddAll(d, ls[..|ls| - 1]), ls[|ls| - 1])
  }

  function ToAll(c: Candidate, s: Section, g: int, rs: seq<Recipient>): seq<Listing> {
    if rs == [] then [] else ToAll(c, s, g, rs[..|rs| - 1]) + [Listing(rs[|rs| - 1], g, s, c.id)]
  }

  function InGroups(c: Candidate, s: Section, gs: seq<int>, recipients: int -> seq<Recipient>): seq<Listing> {
    if gs == [] then []
    else InGroups(c, s, gs[..|gs| - 1], recipients) + ToAll(c, s, gs[|gs| - 1], recipients(gs[|gs| - 1]))
  }

  function InSections(c: Candidate, ss: seq<Section>, recipients: int -> seq<Recipient>): seq<Listing> {
    if ss == [] then []
    else
      var s := ss[|ss| - 1];
      InSections(c, ss[..|ss| - 1], recipients) + InGroups(c, s, GroupsFor(c, s), recipients)
  }

  function Listings(cs: seq<Candidate>, now: int, snapshot: bool, recipients: int -> seq<Recipient>): seq<Listing> {
    if cs == [] then []
    else
      var c := cs[|cs| - 1];
      Listings(cs[..|cs| - 1], now, snapshot, recipients) + InSections(c, Sections(c, now, snapshot), recipients)
  }

  /** Applicants per group; a group that is not a key has none. */
  function CountOf(m: map<int, nat>, g: int): nat {
    if g in m then m[g] else 0
  }

  function Bump(m: map<int, nat>, gs: set<int>): map<int, nat> {
    map g | g in m.Keys + gs :: CountOf(m, g) + if g in gs then 1 else 0
  }

  /** Groups nobody is told about, among those a candidate is listed under. */
  ghost function Unserved(c: Candidate, ss: seq<Section>, recipients: int -> seq<Recipient>): set<int> {
    if ss == [] then {}
    else
      var s := ss[|ss| - 1];
      Unserved(c, ss[..|ss| - 1], recipients) + UnservedIn(GroupsFor(c, s), recipients)
  }

  ghost function UnservedIn(gs: seq<int>, recipients: int -> seq<Recipient>): set<int> {
    set g | g in gs && recipients(g) == []
  }

  ghost function Missing(cs: seq<Candidate>, now: int, snapshot: bool, recipients: int -> seq<Recipient>): map<int, nat> {
    if cs == [] then map[]
    else
      var c := cs[|cs| - 1];
      Bump(Missing(cs[..|cs| - 1], now, snapshot, recipients), Unserved(c, Sections(c, now, snapshot), recipients))
  }

  function Load(table: seq<Application>, now: int, snapshot: bool): seq<Candidate> {
    if table == [] then []
    else
      Load(table[..|table| - 1], now, snapshot) +
      if Prefilter(table[|table| - 1], now, snapshot) then [CandidateOf(table[|table| - 1])] else []
  }

  lemma {:induction false} AddAllOfConcat(d: Digests, a: seq<Listing>, b: seq<Listing>)
    ensures AddAll(d, a + b) == AddAll(AddAll(d, a), b)
    decreases |b|
  {
    if b == [] { assert a + b == a; }
    else {
      assert (a + b)[..|a + b| - 1] == a + b[..|b| - 1];
      AddAllOfConcat(d, a, b[..|b| - 1]);
    }
  }

  /** The recipients of a group, read once per run. */
  class Collector {
    var digests: Digests
    var recipientsByGroup: map<int, seq<Recipient>>
    var missing: map<int, nat>
    const recipients: int -> seq<Recipient>

    ghost predicate Valid()
      reads this
    {
      forall g :: g in recipientsByGroup ==> recipientsByGroup[g] == recipients(g)
    }

    constructor (recipients: int -> seq<Recipient>)
      ensures Valid() && this.recipients == recipients && digests == map[] && missing == map[]
    {
      this.recipients := recipients;
      digests, recipientsByGroup, missing := map[], map[], map[];
    }

    method AddListing(l: Listing)
      modifies this`digests
      ensures digests == Add(old(digests), l)
    {
      var key := (l.to.email, l.group);
      ghost var found := if key in digests then digests[key] else Item(l.to.name, map[]);
      if key !in digests { digests := digests[key := Item(l.to.name, map[])]; }
      var item := digests[key];
      if l.section !in item.sections { item := item.(sections := item.sections[l.section := []]); }
      var ids := item.sections[l.section];
      if l.id !in ids { ids := ids + [l.id]; }
      assert item.sections[l.section := ids] == found.sections[l.section := ids];
      digests := digests[key := item.(sections := item.sections[l.section := ids])];
    }

    /** The innermost loop: everyone who gets the group's digest. */
    method ListForAll(c: Candidate, section: Section, g: int)
      requires Valid() && g in recipientsByGroup
      modifies this`digests
      ensures digests == AddAll(old(digests), ToAll(c, section, g, recipients(g)))
    {
      var rs := recipientsByGroup[g];
      for i := 0 to |rs|
        invariant digests == AddAll(old(digests), ToAll(c, section, g, rs[..i]))
      {
        RecipientStep(old(digests), c, section, g, rs, i);
        AddListing(Listing(rs[i], g, section, c.id));
      }
      assert rs[..|rs|] == rs;
    }

    /** A group's recipients are read at its first turn; a group without any is counted once per candidate. */
    method Visit(g: int, seen: set<int>) returns (seen': set<int>)
      requires Valid()
      modifies this`recipientsByGroup, this`missing
      ensures Valid() && g in recipientsByGroup
      ensures seen' == seen + UnservedIn([g], recipients)
      ensures missing == Bump(old(missing), seen' - seen)
    {
      if g !in recipientsByGroup { recipientsByGroup := recipientsByGroup[g := recipients(g)]; }
      seen' := seen;
      if recipientsByGroup[g] == [] && g !in seen {
        seen' := seen + {g};
        missing := missing[g := (if g in missing then missing[g] else 0) + 1];
      }
    }

    method ListInSection(c: Candidate, section: Section, seen: set<int>) returns (seen': set<int>)
      requires Valid()
      modifies this
      ensures Valid() && digests == AddAll(old(digests), InGroups(c, section, GroupsFor(c, section), recipients))
      ensures seen' == seen + UnservedIn(GroupsFor(c, section), recipients)
      ensures missing == Bump(old(missing), seen' - seen)
    {
      var gs := GroupsFor(c, section);
      seen' := seen;
      BumpTwice(missing, {}, {});
      for i := 0 to |gs|
        invariant Valid() && digests == AddAll(old(digests), InGroups(c, section, gs[..i], recipients))
        invariant seen' == seen + UnservedIn(gs[..i], recipients)
        invariant missing == Bump(old(missing), seen' - seen)
      {
        ghost var was := seen';
        seen' := Visit(gs[i], seen');
        SeenStep(old(missing), seen, gs, i, was, seen', recipients);
        ListForAll(c, section, gs[i]);
        GroupStep(old(digests), c, section, gs, i, recipients);
      }
      assert gs[..|gs|] == gs;
    }

    method ListCandidate(c: Candidate, sections: seq<Section>)
      requires Valid()
      modifies this
      ensures Valid() && digests == AddAll(old(digests), InSections(c, sections, recipients))
      ensures missing == Bump(old(missing), Unserved(c, sections, recipients))
    {
      var seen: set<int> := {};
      for i := 0 to |sections|
        invariant Valid() && digests == AddAll(old(digests), InSections(c, sections[..i], recipients))
        invariant seen == Unserved(c, sections[..i], recipients)
        invariant missing == Bump(old(missing), seen)
      {
        assert sections[..i + 1][..i] == sections[..i];
        AddAllOfConcat(old(digests), InSections(c, sections[..i], recipients),
                       InGroups(c, sections[i], GroupsFor(c, sections[i]), recipients));
        BumpTwice(old(missing), seen, seen + UnservedIn(GroupsFor(c, sections[i]), recipients));
        seen := ListInSection(c, sections[i], seen);
      }
      assert sections[..|sections|] == sections;
    }

    /** _collect. */
    method Collect(table: seq<Application>, now: int, snapshot: bool)
      requires Valid() && digests == map[] && missing == map[]
      modifies this
      ensures digests == AddAll(map[], Listings(Load(table, now, snapshot), now, snapshot, recipients))
      ensures missing == Missing(Load(table, now, snapshot), now, snapshot, recipients)
    {
      var candidates := Load(table, now, snapshot);
      for i := 0 to |candidates|
        invariant Valid() && digests == AddAll(map[], Listings(candidates[..i], now, snapshot, recipients))
        invariant missing == Missing(candidates[..i], now, snapshot, recipients)
      {
        CandidateStep(map[], candidates, i, now, snapshot, recipients);
        ListCandidate(candidates[i], Sections(candidates[i], now, snapshot));
      }
      assert candidates[..|candidates|] == candidates;
    }
  }

  lemma UnservedOfAppend(gs: seq<int>, g: int, recipients: int -> seq<Recipient>)
    ensures UnservedIn(gs + [g], recipients) == UnservedIn(gs, recipients) + UnservedIn([g], recipients)
  {
  }

  lemma SeenStep(m: map<int, nat>, seen: set<int>, gs: seq<int>, i: nat, a: set<int>, b: set<int>,
                 recipients: int -> seq<Recipient>)
    requires i < |gs| && a == seen + UnservedIn(gs[..i], recipients) && b == a + UnservedIn([gs[i]], recipients)
    ensures b == seen + UnservedIn(gs[..i + 1], recipients)
    ensures Bump(Bump(m, a - seen), b - a) == Bump(m, b - seen)
  {
    assert gs[..i + 1] == gs[..i] + [gs[i]];
    UnservedOfAppend(gs[..i], gs[i], recipients);
    BumpTwice(m, a - seen, b - seen);
    assert b - a == (b - seen) - (a - seen);
  }

  lemma {:induction false} RecipientStep(d: Digests, c: Candidate, section: Section, g: int, rs: seq<Recipient>, i: nat)
    requires i < |rs|
    ensures AddAll(d, ToAll(c, section, g, rs[..i + 1])) == Add(AddAll(d, ToAll(c, section, g, rs[..i])), Listing(rs[i], g, section, c.id))
  {
    assert rs[..i + 1][..i] == rs[..i];
    AddAllOfAppend(d, ToAll(c, section, g, rs[..i]), Listing(rs[i], g, section, c.id));
  }

  lemma {:induction false} AddAllOfAppend(d: Digests, ls: seq<Listing>, l: Listing)
    ensures AddAll(d, ls + [l]) == Add(AddAll(d, ls), l)
  {
    assert (ls + [l])[..|ls|] == ls;
  }

  lemma {:induction false} CandidateStep(d: Digests, cs: seq<Candidate>, i: nat, now: int, snapshot: bool,
                      recipients: int -> seq<Recipient>)
    requires i < |cs|
    ensures AddAll(d, Listings(cs[..i + 1], now, snapshot, recipients)) ==
            AddAll(AddAll(d, Listings(cs[..i], now, snapshot, recipients)),
                   InSections(cs[i], Sections(cs[i], now, snapshot), recipients))
    ensures Missing(cs[..i + 1], now, snapshot, recipients) ==
            Bump(Missing(cs[..i], now, snapshot, recipients), Unserved(cs[i], Sections(cs[i], now, snapshot), recipients))
  {
    assert cs[..i + 1][..i] == cs[..i];
    AddAllOfConcat(d, Listings(cs[..i], now, snapshot, recipients), InSections(cs[i], Sections(cs[i], now, snapshot), recipients));
  }

  lemma {:induction false} GroupStep(d: Digests, c: Candidate, section: Section, gs: seq<int>, i: nat, recipients: int -> seq<Recipient>)
    requires i < |gs|
    ensures AddAll(AddAll(d, InGroups(c, section, gs[..i], recipients)), ToAll(c, section, gs[i], recipients(gs[i]))) ==
            AddAll(d, InGroups(c, section, gs[..i + 1], recipients))
  {
    assert gs[..i + 1][..i] == gs[..i];
    AddAllOfConcat(d, InGroups(c, section, gs[..i], recipients), ToAll(c, section, gs[i], recipients(gs[i])));
  }

  lemma BumpTwice(m: map<int, nat>, a: set<int>, b: set<int>)
    requires a <= b
    ensures Bump(Bump(m, a), b - a) == Bump(m, b)
    ensures Bump(m, {}) == m
  {
  }

  // ---------- what is collected ----------

  predicate Reports(d: Digests, email: Email, g: int, s: Section, id: int) {
    (email, g) in d && id in Listed(d[(email, g)], s)
  }

  /** The definition: over all applications, without the filter, the memo or the loops. */
  ghost predicate Belongs(a: Application, now: int, snapshot: bool, recipients: int -> seq<Recipient>,
                          email: Email, g: int, s: Section) {
    && s in Sections(CandidateOf(a), now, snapshot)
    && g in GroupsFor(CandidateOf(a), s)
    && exists r :: r in recipients(g) && r.email == email
  }

  ghost predicate Due(table: seq<Application>, now: int, snapshot: bool, recipients: int -> seq<Recipient>,
                      email: Email, g: int, s: Section, id: int) {
    exists a :: a in table && a.id == id && Belongs(a, now, snapshot, recipients, email, g, s)
  }

  // ---------- the same, from the columns of the table alone ----------

  /** A number that Python's `or` passes over. */
  predicate Absent(x: Option<int>) {
    x == None || x == Some(0)
  }

  /** When an application is listed under a section: days are 86400 seconds, times microseconds. */
  ghost predicate ListedUnder(a: Application, s: Section, now: int, snapshot: bool) {
    var day := 86_400_000_000;
    match s
    case New => !snapshot && now - day < a.createdAt <= now
    case Waiting3d => !snapshot && a.status.Fresh? && now - 4 * day < a.createdAt <= now - 3 * day
    case Waiting7d => !snapshot && a.status.Fresh? && now - 8 * day < a.createdAt <= now - 7 * day
    case Trial7d =>
      !snapshot && a.status.OnTrial? && a.trialEndsAt.Some? && now + 6 * day < a.trialEndsAt.value <= now + 7 * day
    case TrialDone =>
      a.status.OnTrial? && a.trialEndsAt.Some? && a.trialEndsAt.value <= now && (snapshot || now - day < a.trialEndsAt.value)
    case Waiting => snapshot && a.status.Fresh?
    case InContact => snapshot && a.status.Contacted?
    case TrialActive => snapshot && a.status.OnTrial? && a.trialEndsAt.Some? && now < a.trialEndsAt.value
  }

  /**
   * Which groups hear of it: about a trial the one of the trial's assignment, else the initial one, else the
   * first choice; about anything else both choices.
   */
  predicate Concerns(a: Application, s: Section, g: int) {
    if s == Trial7d || s == TrialDone || s == TrialActive then
      && a.status.OnTrial? && g != 0
      && (a.placed == Some(g)
          || (Absent(a.placed) && (a.initial == Some(g) || (Absent(a.initial) && a.first == Some(g)))))
    else
      a.first == Some(g) || a.second == Some(g)
  }

  lemma SectionsAre(a: Application, s: Section, now: int, snapshot: bool)
    ensures s in Sections(CandidateOf(a), now, snapshot) <==> ListedUnder(a, s, now, snapshot)
  {
    if !snapshot { InSectionIff(CandidateOf(a), s, now); }
  }

  lemma GroupsAre(a: Application, s: Section, g: int)
    ensures g in GroupsFor(CandidateOf(a), s) <==> Concerns(a, s, g)
    ensures forall i, j :: 0 <= i < j < |GroupsFor(CandidateOf(a), s)| ==>
              GroupsFor(CandidateOf(a), s)[i] != GroupsFor(CandidateOf(a), s)[j]
  {
  }

  /** So an application belongs under a section of a group's digest exactly when its columns say so. */
  lemma BelongsIff(a: Application, now: int, snapshot: bool, recipients: int -> seq<Recipient>,
                   email: Email, g: int, s: Section)
    ensures Belongs(a, now, snapshot, recipients, email, g, s) <==>
            && ListedUnder(a, s, now, snapshot) && Concerns(a, s, g)
            && exists r :: r in recipients(g) && r.email == email
  {
    SectionsAre(a, s, now, snapshot);
    GroupsAre(a, s, g);
  }

  /** And a group that has no recipients misses it exactly when they say that it concerns the group. */
  lemma UntoldIff(a: Application, now: int, snapshot: bool, recipients: int -> seq<Recipient>, g: int)
    ensures Untold(CandidateOf(a), now, snapshot, recipients, g) <==>
            recipients(g) == [] && exists s :: ListedUnder(a, s, now, snapshot) && Concerns(a, s, g)
  {
    forall s ensures s in Sections(CandidateOf(a), now, snapshot) && g in GroupsFor(CandidateOf(a), s) <==>
        ListedUnder(a, s, now, snapshot) && Concerns(a, s, g)
    {
      SectionsAre(a, s, now, snapshot);
      GroupsAre(a, s, g);
    }
  }

  ghost predicate HasListing(ls: seq<Listing>, email: Email, g: int, s: Section, id: int) {
    exists l :: l in ls && l.to.email == email && l.group == g && l.section == s && l.id == id
  }

  lemma HasListingOfConcat(a: seq<Listing>, b: seq<Listing>, email: Email, g: int, s: Section, id: int)
    ensures HasListing(a + b, email, g, s, id) <==> HasListing(a, email, g, s, id) || HasListing(b, email, g, s, id)
  {
  }

  lemma {:induction false} AddAllReports(ls: seq<Listing>, email: Email, g: int, s: Section, id: int)
    ensures Reports(AddAll(map[], ls), email, g, s, id) <==> HasListing(ls, email, g, s, id)
    decreases |ls|
  {
    if ls != [] {
      var n := |ls| - 1;
      AddAllReports(ls[..n], email, g, s, id);
      HasListingOfConcat(ls[..n], [ls[n]], email, g, s, id);
      assert ls == ls[..n] + [ls[n]];
    }
  }

  lemma {:induction false} ToAllHas(c: Candidate, s: Section, g: int, rs: seq<Recipient>, email: Email,
                                    g': int, s': Section, id: int)
    ensures HasListing(ToAll(c, s, g, rs), email, g', s', id) <==>
            g' == g && s' == s && id == c.id && exists r :: r in rs && r.email == email
    decreases |rs|
  {
    if rs != [] {
      var n := |rs| - 1;
      ToAllHas(c, s, g, rs[..n], email, g', s', id);
      HasListingOfConcat(ToAll(c, s, g, rs[..n]), [Listing(rs[n], g, s, c.id)], email, g', s', id);
      assert rs == rs[..n] + [rs[n]];
      assert Listing(rs[n], g, s, c.id) in [Listing(rs[n], g, s, c.id)];
    }
  }

  lemma {:induction false} InGroupsHas(c: Candidate, s: Section, gs: seq<int>, recipients: int -> seq<Recipient>,
                                       email: Email, g: int, s': Section, id: int)
    ensures HasListing(InGroups(c, s, gs, recipients), email, g, s', id) <==>
            g in gs && s' == s && id == c.id && exists r :: r in recipients(g) && r.email == email
    decreases |gs|
  {
    if gs != [] {
      var n := |gs| - 1;
      InGroupsHas(c, s, gs[..n], recipients, email, g, s', id);
      ToAllHas(c, s, gs[n], recipients(gs[n]), email, g, s', id);
      HasListingOfConcat(InGroups(c, s, gs[..n], recipients), ToAll(c, s, gs[n], recipients(gs[n])), email, g, s', id);
      assert gs == gs[..n] + [gs[n]];
    }
  }

  lemma {:induction false} InSectionsHas(c: Candidate, ss: seq<Section>, recipients: int -> seq<Recipient>,
                                         email: Email, g: int, s: Section, id: int)
    ensures HasListing(InSections(c, ss, recipients), email, g, s, id) <==>
            s in ss && g in GroupsFor(c, s) && id == c.id && exists r :: r in recipients(g) && r.email == email
    decreases |ss|
  {
    if ss != [] {
      var n := |ss| - 1;
      InSectionsHas(c, ss[..n], recipients, email, g, s, id);
      InGroupsHas(c, ss[n], GroupsFor(c, ss[n]), recipients, email, g, s, id);
      HasListingOfConcat(InSections(c, ss[..n], recipients), InGroups(c, ss[n], GroupsFor(c, ss[n]), recipients), email, g, s, id);
      assert ss == ss[..n] + [ss[n]];
    }
  }

  lemma DueStep(table: seq<Application>, now: int, snapshot: bool, recipients: int -> seq<Recipient>,
                email: Email, g: int, s: Section, id: int)
    requires table != []
    ensures var a := table[|table| - 1];
      Due(table, now, snapshot, recipients, email, g, s, id) <==>
      Due(table[..|table| - 1], now, snapshot, recipients, email, g, s, id) ||
      (a.id == id && Belongs(a, now, snapshot, recipients, email, g, s))
  {
    assert table == table[..|table| - 1] + [table[|table| - 1]];
  }

  /** A candidate's listings, whether the query lets it through or not. */
  lemma {:induction false} CandidateListings(cs: seq<Candidate>, a: Application, now: int, snapshot: bool, recipients: int -> seq<Recipient>,
                          email: Email, g: int, s: Section, id: int)
    ensures HasListing(Listings(cs + [CandidateOf(a)], now, snapshot, recipients), email, g, s, id) <==>
            HasListing(Listings(cs, now, snapshot, recipients), email, g, s, id) ||
            (a.id == id && Belongs(a, now, snapshot, recipients, email, g, s))
  {
    var c := CandidateOf(a);
    assert (cs + [c])[..|cs|] == cs;
    InSectionsHas(c, Sections(c, now, snapshot), recipients, email, g, s, id);
    HasListingOfConcat(Listings(cs, now, snapshot, recipients), InSections(c, Sections(c, now, snapshot), recipients), email, g, s, id);
  }

  lemma {:induction false} ListingsAre(table: seq<Application>, now: int, snapshot: bool, recipients: int -> seq<Recipient>,
                                       email: Email, g: int, s: Section, id: int)
    ensures HasListing(Listings(Load(table, now, snapshot), now, snapshot, recipients), email, g, s, id) <==>
            Due(table, now, snapshot, recipients, email, g, s, id)
    decreases |table|
  {
    if table != [] {
      var n := |table| - 1;
      var before := Load(table[..n], now, snapshot);
      ListingsAre(table[..n], now, snapshot, recipients, email, g, s, id);
      DueStep(table, now, snapshot, recipients, email, g, s, id);
      PrefilterIsSound(table[n], now, snapshot);
      CandidateListings(before, table[n], now, snapshot, recipients, email, g, s, id);
      assert before + [] == before;
    }
  }

  /**
   * The filtered, memoised, nested loops report exactly what the definition says over all applications: an
   * application under a section to an address for a group.
   */
  lemma {:induction false} CollectIsExact(table: seq<Application>, now: int, snapshot: bool, recipients: int -> seq<Recipient>,
                       email: Email, g: int, s: Section, id: int)
    ensures Reports(AddAll(map[], Listings(Load(table, now, snapshot), now, snapshot, recipients)), email, g, s, id) <==>
            Due(table, now, snapshot, recipients, email, g, s, id)
  {
    AddAllReports(Listings(Load(table, now, snapshot), now, snapshot, recipients), email, g, s, id);
    ListingsAre(table, now, snapshot, recipients, email, g, s, id);
  }

  ghost predicate NoRepeats(d: Digests) {
    forall key, s, i, j :: key in d && s in d[key].sections && 0 <= i < j < |d[key].sections[s]| ==>
      d[key].sections[s][i] != d[key].sections[s][j]
  }

  /** No digest lists an application twice under a section, and no digest or section is empty. */
  lemma {:induction false} CollectHasNoRepeats(ls: seq<Listing>)
    ensures NoRepeats(AddAll(map[], ls))
    ensures forall key :: key in AddAll(map[], ls) ==> AddAll(map[], ls)[key].sections != map[]
    ensures forall key, s :: key in AddAll(map[], ls) && s in AddAll(map[], ls)[key].sections ==> AddAll(map[], ls)[key].sections[s] != []
    decreases |ls|
  {
    if ls != [] {
      CollectHasNoRepeats(ls[..|ls| - 1]);
      var l := ls[|ls| - 1];
      assert l.section in AddAll(map[], ls)[(l.to.email, l.group)].sections;
    }
  }

  // ---------- groups nobody is told about ----------

  ghost predicate Untold(c: Candidate, now: int, snapshot: bool, recipients: int -> seq<Recipient>, g: int) {
    recipients(g) == [] && exists s :: s in Sections(c, now, snapshot) && g in GroupsFor(c, s)
  }

  /** How many applications a group misses. */
  ghost function UntoldCount(table: seq<Application>, now: int, snapshot: bool,
                             recipients: int -> seq<Recipient>, g: int): nat
    decreases |table|
  {
    if table == [] then 0
    else
      UntoldCount(table[..|table| - 1], now, snapshot, recipients, g) +
      if Untold(CandidateOf(table[|table| - 1]), now, snapshot, recipients, g) then 1 else 0
  }

  lemma {:induction false} UnservedIs(c: Candidate, ss: seq<Section>, recipients: int -> seq<Recipient>, g: int)
    ensures g in Unserved(c, ss, recipients) <==> recipients(g) == [] && exists s :: s in ss && g in GroupsFor(c, s)
    decreases |ss|
  {
    if ss != [] {
      var n := |ss| - 1;
      UnservedIs(c, ss[..n], recipients, g);
      assert ss == ss[..n] + [ss[n]];
    }
  }

  lemma {:induction false} MissingStep(cs: seq<Candidate>, c: Candidate, now: int, snapshot: bool,
                    recipients: int -> seq<Recipient>, g: int)
    ensures CountOf(Missing(cs + [c], now, snapshot, recipients), g) ==
            CountOf(Missing(cs, now, snapshot, recipients), g) + if Untold(c, now, snapshot, recipients, g) then 1 else 0
  {
    assert (cs + [c])[..|cs|] == cs;
    UnservedIs(c, Sections(c, now, snapshot), recipients, g);
  }

  /** Each application counts once for a group without recipients, under however many sections it is listed there. */
  lemma {:induction false} MissingIsExact(table: seq<Application>, now: int, snapshot: bool,
                                          recipients: int -> seq<Recipient>, g: int)
    ensures CountOf(Missing(Load(table, now, snapshot), now, snapshot, recipients), g) == UntoldCount(table, now, snapshot, recipients, g)
    decreases |table|
  {
    if table != [] {
      var n := |table| - 1;
      var a, c := table[n], CandidateOf(table[n]);
      var before := Load(table[..n], now, snapshot);
      MissingIsExact(table[..n], now, snapshot, recipients, g);
      PrefilterIsSound(a, now, snapshot);
      MissingStep(before, c, now, snapshot, recipients, g);
      assert before + [] == before;
    }
  }
}
