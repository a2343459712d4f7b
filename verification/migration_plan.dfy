/** Planning individual admin accounts from shared ones: who gets which grant, and what is left to review. */
module MigrationPlan {
  import opened Wrappers

  type Role = string

  /** `display` and `fullName` are compared after normalisation; `email` has been stripped, and is empty if missing. */
  datatype Account = Account(id: int, user: int, role: Role, display: string)
  datatype Volunteer = Volunteer(fullName: string, email: string)
  datatype Assignment = Assignment(volunteer: int, group: Option<int>, semester: int)

  /** `volunteers` is the dictionary made of the list whose ids are `volunteerIds`. */
  datatype Inventory = Inventory(
    accounts: seq<Account>, volunteerIds: seq<int>, volunteers: map<int, Volunteer>, groups: set<int>,
    memberships: set<(int, int)>, assignments: seq<Assignment>)

  datatype Action = Map | Remove | NoRecipient | Pending | Invalid

  datatype Decision = Decision(action: Action, role: Option<Role>, groups: Option<set<int>>, selected: seq<int>, reviewed: Option<bool>)

  const UNDECIDED := Decision(Pending, None, None, [], None)

  /** The groups whose members become admins, and the semester in which they must be members. */
  datatype Eligibility = Eligibility(adminGroup: Option<int>, boardGroup: Option<int>, semester: Option<int>)

  datatype Issue = IdentityUnresolved | GroupScopeMissing | EmailMissing | PendingReview | EmailShared

  /** A grant from a source account, or from a membership. */
  datatype Grant = FromAccount(account: int, role: Role, groups: set<int>, reviewed: bool) | FromMembership(group: int)

  /** One grant to one volunteer, with the issues raised up to that moment. */
  datatype Award = Award(to: int, grant: Grant, issues: set<Issue>)

  datatype Row = Row(account: int, action: Action, proposed: seq<int>, issues: set<Issue>, awards: seq<Award>)

  datatype Individual = Individual(email: string, grants: seq<Grant>, issues: set<Issue>, role: Role, groups: set<int>)

  datatype Plan = Plan(rows: seq<Row>, organization: seq<(int, int)>, individuals: map<int, Individual>)

  predicate ValidRole(r: Role) {
    r == "Admin" || r == "Gruppeadmin" || r == "Frivillig" || r == "Tilskuer"
  }

  function Priority(r: Role): nat {
    if r == "Admin" then 3 else if r == "Gruppeadmin" then 2 else if r == "Frivillig" then 1 else 0
  }

  function RoleOf(g: Grant): Role {
    if g.FromAccount? then g.role else "Admin"
  }

  function GroupsOf(g: Grant): set<int> {
    if g.FromAccount? then g.groups else {}
  }

  predicate Reviewed(g: Grant) {
    g.FromAccount? ==> g.reviewed
  }

  predicate NoDuplicates<T(==)>(s: seq<T>) {
    forall i, j :: 0 <= i < j < |s| ==> s[i] != s[j]
  }

  // ---------- one account ----------

  function DecisionFor(decisions: map<int, Decision>, a: Account): Decision {
    if a.id in decisions then decisions[a.id] else UNDECIDED
  }

  function AccountGroups(inv: Inventory, a: Account, d: Decision): set<int> {
    if d.groups.Some? then d.groups.value else set m | m in inv.memberships && m.0 == a.user :: m.1
  }

  function AccountRole(a: Account, d: Decision): Role {
    if d.role.Some? then d.role.value else a.role
  }

  predicate Accepted(inv: Inventory, a: Account, d: Decision) {
    && !d.action.Invalid?
    && ValidRole(AccountRole(a, d))
    && AccountGroups(inv, a, d) <= inv.groups
    && NoDuplicates(d.selected) && (forall v :: v in d.selected ==> v in inv.volunteers)
    && (d.action.Map? <==> d.selected != [])
  }

  predicate EverActive(inv: Inventory, v: int) {
    exists i :: 0 <= i < |inv.assignments| && inv.assignments[i].volunteer == v && inv.assignments[i].semester > 0
  }

  /** A volunteer with the name of the account, who has held a position. */
  predicate Namesake(inv: Inventory, norm: string -> string, a: Account, v: int) {
    && v in inv.volunteers && norm(a.display) != ""
    && norm(inv.volunteers[v].fullName) == norm(a.display) && EverActive(inv, v)
  }

  function Namesakes(inv: Inventory, norm: string -> string, a: Account, ids: seq<int>): seq<int> {
    if ids == [] then []
    else Namesakes(inv, norm, a, ids[..|ids| - 1]) +
         if Namesake(inv, norm, a, ids[|ids| - 1]) then [ids[|ids| - 1]] else []
  }

  function Proposed(inv: Inventory, norm: string -> string, a: Account, d: Decision): seq<int> {
    var found := Namesakes(inv, norm, a, inv.volunteerIds);
    if d.action.Pending? && |found| == 1 then found else d.selected
  }

  function GrantOf(inv: Inventory, a: Account, d: Decision): Grant {
    FromAccount(a.id, AccountRole(a, d), AccountGroups(inv, a, d),
                d.action.Map? && (d.reviewed.Some? ==> d.reviewed.value))
  }

  predicate Blank(inv: Inventory, v: int) {
    v !in inv.volunteers || inv.volunteers[v].email == ""
  }

  /** Issues of the account before its volunteers are looked at. */
  function Before(proposed: seq<int>, d: Decision, g: Grant): set<Issue> {
    (if proposed == [] && d.action.Pending? then {IdentityUnresolved} else {}) +
    (if proposed != [] && RoleOf(g) == "Gruppeadmin" && GroupsOf(g) == {} then {GroupScopeMissing} else {})
  }

  /** Issues after the first volunteers: a missing email stays an issue for those who come later. */
  function After(inv: Inventory, proposed: seq<int>, base: set<Issue>): set<Issue> {
    if exists i :: 0 <= i < |proposed| && Blank(inv, proposed[i]) then base + {EmailMissing} else base
  }

  function Awards(inv: Inventory, proposed: seq<int>, g: Grant, base: set<Issue>): seq<Award> {
    if proposed == [] then []
    else Awards(inv, proposed[..|proposed| - 1], g, base) + [Award(proposed[|proposed| - 1], g, After(inv, proposed, base))]
  }

  function RowOf(inv: Inventory, norm: string -> string, a: Account, d: Decision): Row {
    var proposed, g := Proposed(inv, norm, a, d), GrantOf(inv, a, d);
    Row(a.id, d.action, proposed, After(inv, proposed, Before(proposed, d, g)), Awards(inv, proposed, g, Before(proposed, d, g)))
  }

  function AllAwards(rows: seq<Row>): seq<Award> {
    if rows == [] then [] else AllAwards(rows[..|rows| - 1]) + rows[|rows| - 1].awards
  }

  // ---------- individuals ----------

  predicate Awarded(ws: seq<Award>, v: int) {
    exists i :: 0 <= i < |ws| && ws[i].to == v
  }

  function GrantsTo(ws: seq<Award>, v: int): seq<Grant> {
    if ws == [] then []
    else GrantsTo(ws[..|ws| - 1], v) + if ws[|ws| - 1].to == v then [ws[|ws| - 1].grant] else []
  }

  function IssuesOf(ws: seq<Award>, v: int): set<Issue> {
    if ws == [] then {}
    else IssuesOf(ws[..|ws| - 1], v) + if ws[|ws| - 1].to == v then ws[|ws| - 1].issues else {}
  }

  function Highest(gs: seq<Grant>): (r: Role)
    requires gs != []
  {
    if |gs| == 1 then RoleOf(gs[0])
    else
      var before := Highest(gs[..|gs| - 1]);
      if Priority(RoleOf(gs[|gs| - 1])) > Priority(before) then RoleOf(gs[|gs| - 1]) else before
  }

  function AllGroups(gs: seq<Grant>): set<int> {
    set i, g | 0 <= i < |gs| && g in GroupsOf(gs[i]) :: g
  }

  function EmailOf(inv: Inventory, v: int): string {
    if v in inv.volunteers then inv.volunteers[v].email else ""
  }

  predicate Shared(inv: Inventory, ws: seq<Award>, fold: string -> string, v: int) {
    EmailOf(inv, v) != "" &&
    exists i :: 0 <= i < |ws| && ws[i].to != v && EmailOf(inv, ws[i].to) != "" &&
                fold(EmailOf(inv, ws[i].to)) == fold(EmailOf(inv, v))
  }

  /** What the plan must say of a volunteer. */
  ghost function Expected(inv: Inventory, ws: seq<Award>, fold: string -> string, v: int): Individual
    requires Awarded(ws, v) && GrantsTo(ws, v) != []
  {
    var gs := GrantsTo(ws, v);
    Individual(EmailOf(inv, v), gs,
               IssuesOf(ws, v) +
               (if exists i :: 0 <= i < |gs| && !Reviewed(gs[i]) then {PendingReview} else {}) +
               (if Shared(inv, ws, fold, v) then {EmailShared} else {}),
               Highest(gs), AllGroups(gs))
  }

  // ---------- memberships ----------

  function EligibleGroups(e: Eligibility): set<int> {
    (if e.adminGroup.Some? then {e.adminGroup.value} else {}) + (if e.boardGroup.Some? then {e.boardGroup.value} else {})
  }

  function Members(inv: Inventory, e: Eligibility): set<(int, int)> {
    set i | 0 <= i < |inv.assignments| && inv.assignments[i].group.Some?
            && inv.assignments[i].group.value in EligibleGroups(e) && Some(inv.assignments[i].semester) == e.semester
      :: (inv.assignments[i].volunteer, inv.assignments[i].group.value)
  }

  function MemberAward(inv: Inventory, m: (int, int)): Award {
    Award(m.0, FromMembership(m.1), if Blank(inv, m.0) then {EmailMissing} else {})
  }

  function MemberAwards(inv: Inventory, ms: seq<(int, int)>): (ws: seq<Award>)
    ensures |ws| == |ms| && forall i {:trigger ws[i]} :: 0 <= i < |ms| ==> ws[i] == MemberAward(inv, ms[i])
  {
    seq(|ms|, i requires 0 <= i < |ms| => MemberAward(inv, ms[i]))
  }

  predicate Precedes(a: (int, int), b: (int, int)) {
    a.0 < b.0 || (a.0 == b.0 && a.1 < b.1)
  }

  predicate Sorted(ms: seq<(int, int)>) {
    forall i, j :: 0 <= i < j < |ms| ==> Precedes(ms[i], ms[j])
  }

  ghost predicate InventoryAccepted(inv: Inventory, decisions: map<int, Decision>, e: Eligibility) {
    && (EligibleGroups(e) != {} <==> e.semester.Some?)
    && (EligibleGroups(e) != {} ==> EligibleGroups(e) <= inv.groups && e.semester.value > 0)
    && NoDuplicates(Ids(inv.accounts))
    && NoDuplicates(inv.volunteerIds)
    && decisions.Keys <= (set a | a in inv.accounts :: a.id)
  }

  ghost predicate MembersKnown(inv: Inventory, e: Eligibility) {
    forall m :: m in Members(inv, e) ==> m.0 in inv.volunteers
  }

  /** The inputs that are not refused with an error. */
  ghost predicate AllAccepted(inv: Inventory, decisions: map<int, Decision>, e: Eligibility) {
    InventoryAccepted(inv, decisions, e) && AccountsAccepted(inv, decisions) && MembersKnown(inv, e)
  }

  function Ids(accounts: seq<Account>): seq<int> {
    seq(|accounts|, i requires 0 <= i < |accounts| => accounts[i].id)
  }

  // ---------- the program ----------

  method CheckDecision(inv: Inventory, a: Account, d: Decision) returns (ok: bool)
    ensures ok <==> Accepted(inv, a, d)
  {
    if d.action.Invalid? || !ValidRole(AccountRole(a, d)) { return false; }
    if !(AccountGroups(inv, a, d) <= inv.groups) { return false; }
    if !NoDuplicates(d.selected) || exists v :: v in d.selected && v !in inv.volunteers { return false; }
    if d.action.Map? && d.selected == [] { return false; }
    if !d.action.Map? && d.selected != [] { return false; }
    return true;
  }

  method Propose(inv: Inventory, norm: string -> string, a: Account, d: Decision) returns (proposed: seq<int>)
    ensures proposed == Proposed(inv, norm, a, d)
  {
    proposed := d.selected;
    if d.action.Pending? {
      var candidates := FindNamesakes(inv, norm, a);
      if |candidates| == 1 { proposed := candidates; }
    }
  }

  /** The issues of an account grow while its volunteers are looked at, and each takes over what there is by then. */
  method AwardAll(inv: Inventory, proposed: seq<int>, g: Grant, base: set<Issue>)
    returns (awards: seq<Award>, issues: set<Issue>)
    ensures awards == Awards(inv, proposed, g, base) && issues == After(inv, proposed, base)
  {
    awards, issues := [], base;
    for k := 0 to |proposed|
      invariant issues == After(inv, proposed[..k], base)
      invariant awards == Awards(inv, proposed[..k], g, base)
    {
      AfterStep(inv, proposed, k, base);
      if Blank(inv, proposed[k]) { issues := issues + {EmailMissing}; }
      assert proposed[..k + 1][..k] == proposed[..k];
      awards := awards + [Award(proposed[k], g, issues)];
    }
    assert proposed[..|proposed|] == proposed;
  }

  method PlanAccount(inv: Inventory, norm: string -> string, a: Account, d: Decision) returns (row: Option<Row>)
    ensures row.Some? <==> Accepted(inv, a, d)
    ensures row.Some? ==> row.value == RowOf(inv, norm, a, d)
  {
    var ok := CheckDecision(inv, a, d);
    if !ok { return None; }
    var proposed := Propose(inv, norm, a, d);
    var issues: set<Issue> := {};
    if proposed == [] && d.action.Pending? { issues := issues + {IdentityUnresolved}; }
    if proposed != [] && AccountRole(a, d) == "Gruppeadmin" && AccountGroups(inv, a, d) == {} {
      issues := issues + {GroupScopeMissing};
    }
    assert issues == Before(proposed, d, GrantOf(inv, a, d));
    var awards, final := AwardAll(inv, proposed, GrantOf(inv, a, d), issues);
    row := Some(Row(a.id, d.action, proposed, final, awards));
  }

  lemma AfterStep(inv: Inventory, proposed: seq<int>, k: nat, base: set<Issue>)
    requires k < |proposed|
    ensures After(inv, proposed[..k + 1], base) ==
            After(inv, proposed[..k], base) + if Blank(inv, proposed[k]) then {EmailMissing} else {}
  {
    assert forall i :: 0 <= i < k ==> proposed[..k + 1][i] == proposed[..k][i];
    assert proposed[..k + 1][k] == proposed[k];
  }

  method FindNamesakes(inv: Inventory, norm: string -> string, a: Account) returns (found: seq<int>)
    ensures found == Namesakes(inv, norm, a, inv.volunteerIds)
  {
    found := [];
    for i := 0 to |inv.volunteerIds|
      invariant found == Namesakes(inv, norm, a, inv.volunteerIds[..i])
    {
      assert inv.volunteerIds[..i + 1][..i] == inv.volunteerIds[..i];
      if Namesake(inv, norm, a, inv.volunteerIds[i]) { found := found + [inv.volunteerIds[i]]; }
    }
    assert inv.volunteerIds[..|inv.volunteerIds|] == inv.volunteerIds;
  }

  /** setdefault, append and extend. */
  function Recorded(inv: Inventory, m: map<int, Individual>, w: Award): map<int, Individual> {
    var x := if w.to in m then m[w.to] else Individual(EmailOf(inv, w.to), [], {}, "", {});
    m[w.to := x.(grants := x.grants + [w.grant], issues := x.issues + w.issues)]
  }

  /** The individuals collected from a list of awards, before their summary. */
  ghost predicate Collected(m: map<int, Individual>, inv: Inventory, ws: seq<Award>) {
    && (forall v :: v in m <==> Awarded(ws, v))
    && (forall v :: v in m ==> m[v].email == EmailOf(inv, v) && m[v].grants == GrantsTo(ws, v) && m[v].issues == IssuesOf(ws, v))
  }

  lemma {:induction false} AwardedStep(ws: seq<Award>, w: Award, v: int)
    ensures Awarded(ws + [w], v) <==> Awarded(ws, v) || w.to == v
    ensures GrantsTo(ws + [w], v) == GrantsTo(ws, v) + if w.to == v then [w.grant] else []
    ensures IssuesOf(ws + [w], v) == IssuesOf(ws, v) + if w.to == v then w.issues else {}
  {
    assert (ws + [w])[..|ws|] == ws;
    assert (ws + [w])[|ws|] == w;
    assert forall i :: 0 <= i < |ws| ==> (ws + [w])[i] == ws[i];
  }

  lemma {:induction false} NeverAwarded(ws: seq<Award>, v: int)
    ensures Awarded(ws, v) <==> GrantsTo(ws, v) != []
    ensures !Awarded(ws, v) ==> IssuesOf(ws, v) == {}
    decreases |ws|
  {
    if ws != [] {
      var n := |ws| - 1;
      NeverAwarded(ws[..n], v);
      AwardedStep(ws[..n], ws[n], v);
      assert ws == ws[..n] + [ws[n]];
    }
  }

  lemma RecordedIsCollected(inv: Inventory, m: map<int, Individual>, ws: seq<Award>, w: Award)
    requires Collected(m, inv, ws)
    ensures Collected(Recorded(inv, m, w), inv, ws + [w])
  {
    forall v ensures v in Recorded(inv, m, w) <==> Awarded(ws + [w], v) { AwardedStep(ws, w, v); }
    forall v | v in Recorded(inv, m, w)
      ensures var x := Recorded(inv, m, w)[v];
        x.email == EmailOf(inv, v) && x.grants == GrantsTo(ws + [w], v) && x.issues == IssuesOf(ws + [w], v)
    {
      AwardedStep(ws, w, v);
      NeverAwarded(ws, v);
    }
  }

  method RecordAll(inv: Inventory, m: map<int, Individual>, ghost ws: seq<Award>, more: seq<Award>)
    returns (out: map<int, Individual>)
    requires Collected(m, inv, ws)
    ensures Collected(out, inv, ws + more)
  {
    out := m;
    assert ws + more[..0] == ws;
    for k := 0 to |more|
      invariant Collected(out, inv, ws + more[..k])
    {
      RecordedIsCollected(inv, out, ws + more[..k], more[k]);
      assert ws + more[..k + 1] == ws + more[..k] + [more[k]];
      out := Recorded(inv, out, more[k]);
    }
    assert more[..|more|] == more;
  }

  lemma LeastExists(s: set<(int, int)>)
    requires s != {}
    ensures exists m :: m in s && forall x :: x in s ==> x == m || Precedes(m, x)
    decreases |s|
  {
    var a :| a in s;
    if s != {a} {
      var rest := s - {a};
      assert s == rest + {a};
      LeastExists(rest);
      var m :| m in rest && forall x :: x in rest ==> x == m || Precedes(m, x);
      if Precedes(m, a) { assert forall x :: x in s ==> x == m || Precedes(m, x); }
      else {
        assert Precedes(a, m);
        forall x | x in s ensures x == a || Precedes(a, x) { assert x == a || x in rest; }
      }
    }
  }

  method SortPairs(s: set<(int, int)>) returns (ms: seq<(int, int)>)
    ensures Sorted(ms) && forall m :: m in ms <==> m in s
  {
    ms := [];
    var rest := s;
    while rest != {}
      invariant Sorted(ms) && forall m :: m in s <==> m in ms || m in rest
      invariant forall i, x :: 0 <= i < |ms| && x in rest ==> Precedes(ms[i], x)
      decreases |rest|
    {
      LeastExists(rest);
      var m :| m in rest && forall x :: x in rest ==> x == m || Precedes(m, x);
      ms := ms + [m];
      rest := rest - {m};
    }
  }

  lemma Inhabited(s: set<int>)
    requires s != {}
    ensures exists v :: v in s
  {
    if forall v :: v !in s { }
  }

  lemma SharedIff(inv: Inventory, ws: seq<Award>, fold: string -> string, v: int, sharers: set<int>)
    requires Awarded(ws, v) && EmailOf(inv, v) != ""
    requires forall u :: u in sharers <==> Awarded(ws, u) && EmailOf(inv, u) != "" && fold(EmailOf(inv, u)) == fold(EmailOf(inv, v))
    ensures |sharers| > 1 <==> Shared(inv, ws, fold, v)
  {
    assert v in sharers;
    var others := sharers - {v};
    assert |others| == |sharers| - 1;
    if Shared(inv, ws, fold, v) {
      var i :| 0 <= i < |ws| && ws[i].to != v && EmailOf(inv, ws[i].to) != "" && fold(EmailOf(inv, ws[i].to)) == fold(EmailOf(inv, v));
      assert Awarded(ws, ws[i].to) && ws[i].to in others;
    }
    if |others| > 0 {
      Inhabited(others);
      var u :| u in others;
      var i :| 0 <= i < |ws| && ws[i].to == u;
    }
  }

  predicate Under(emails: map<string, set<int>>, key: string, v: int) {
    key in emails && v in emails[key]
  }

  /** The entries of the dictionary of email addresses. */
  ghost predicate Grouped(emails: map<string, set<int>>, inv: Inventory, fold: string -> string, vs: set<int>) {
    forall key, v :: Under(emails, key, v) <==> v in vs && EmailOf(inv, v) != "" && fold(EmailOf(inv, v)) == key
  }

  lemma OneAddress(inv: Inventory, fold: string -> string, emails: map<string, set<int>>, vs: set<int>,
                   a: string, b: string, v: int)
    requires Grouped(emails, inv, fold, vs) && Under(emails, a, v) && Under(emails, b, v)
    ensures a == b && v in vs
  {
  }

  function Filed(emails: map<string, set<int>>, key: string, v: int): map<string, set<int>> {
    emails[key := (if key in emails then emails[key] else {}) + {v}]
  }

  lemma FiledIsGrouped(emails: map<string, set<int>>, inv: Inventory, fold: string -> string, vs: set<int>, v: int)
    requires Grouped(emails, inv, fold, vs)
    ensures Grouped(if EmailOf(inv, v) == "" then emails else Filed(emails, fold(EmailOf(inv, v)), v), inv, fold, vs + {v})
  {
    var key := fold(EmailOf(inv, v));
    var out := if EmailOf(inv, v) == "" then emails else Filed(emails, key, v);
    forall k, u
      ensures Under(out, k, u) <==> u in vs + {v} && EmailOf(inv, u) != "" && fold(EmailOf(inv, u)) == k
    {
      assert Under(out, k, u) <==> Under(emails, k, u) || (EmailOf(inv, v) != "" && k == key && u == v);
    }
  }

  function Summed(x: Individual): Individual
    requires x.grants != []
  {
    x.(issues := x.issues + if exists i :: 0 <= i < |x.grants| && !Reviewed(x.grants[i]) then {PendingReview} else {},
       role := Highest(x.grants), groups := AllGroups(x.grants))
  }

  method SumUp(inv: Inventory, m: map<int, Individual>, fold: string -> string)
    returns (out: map<int, Individual>, emails: map<string, set<int>>)
    requires forall v :: v in m ==> m[v].grants != [] && m[v].email == EmailOf(inv, v)
    ensures out.Keys == m.Keys && forall v :: v in m ==> out[v] == Summed(m[v])
    ensures Grouped(emails, inv, fold, m.Keys)
  {
    out, emails := m, map[];
    var left := m.Keys;
    while left != {}
      invariant left <= m.Keys && out.Keys == m.Keys
      invariant forall v :: v in m ==> out[v] == if v in left then m[v] else Summed(m[v])
      invariant Grouped(emails, inv, fold, m.Keys - left)
      decreases |left|
    {
      Inhabited(left);
      var v :| v in left;
      FiledIsGrouped(emails, inv, fold, m.Keys - left, v);
      assert m.Keys - (left - {v}) == m.Keys - left + {v};
      out := out[v := Summed(m[v])];
      if m[v].email != "" { emails := Filed(emails, fold(m[v].email), v); }
      left := left - {v};
    }
  }

  method MarkShared(m: map<int, Individual>, vs: set<int>) returns (out: map<int, Individual>)
    requires forall v :: v in vs ==> v in m
    ensures out.Keys == m.Keys
    ensures forall v :: v in m ==> out[v] == if v in vs then m[v].(issues := m[v].issues + {EmailShared}) else m[v]
  {
    out := m;
    var left := vs;
    while left != {}
      invariant left <= vs && out.Keys == m.Keys
      invariant forall v :: v in m ==> out[v] == if v in vs - left then m[v].(issues := m[v].issues + {EmailShared}) else m[v]
      decreases |left|
    {
      Inhabited(left);
      var v :| v in left;
      out := out[v := m[v].(issues := m[v].issues + {EmailShared})];
      left := left - {v};
    }
  }

  ghost predicate Crowded(emails: map<string, set<int>>, keys: set<string>, v: int) {
    exists key :: key in keys && Under(emails, key, v) && |emails[key]| > 1
  }

  /** Marking everyone whose address has several entries. No volunteer is under two addresses. */
  method MarkAllShared(m: map<int, Individual>, emails: map<string, set<int>>) returns (out: map<int, Individual>)
    requires forall key, v :: Under(emails, key, v) ==> v in m
    requires forall a, b, v :: Under(emails, a, v) && Under(emails, b, v) ==> a == b
    ensures out.Keys == m.Keys
    ensures forall v :: v in m ==> out[v] == if Crowded(emails, emails.Keys, v) then m[v].(issues := m[v].issues + {EmailShared}) else m[v]
  {
    out := m;
    var left := emails.Keys;
    while left != {}
      invariant left <= emails.Keys && out.Keys == m.Keys
      invariant forall v :: v in m ==>
        out[v] == if Crowded(emails, emails.Keys - left, v) then m[v].(issues := m[v].issues + {EmailShared}) else m[v]
      decreases |left|
    {
      var key :| key in left;
      ghost var seen := emails.Keys - left;
      assert forall v :: Crowded(emails, seen + {key}, v) <==> Crowded(emails, seen, v) || (Under(emails, key, v) && |emails[key]| > 1);
      if |emails[key]| > 1 {
        forall v | v in emails[key] ensures v in m { assert Under(emails, key, v); }
        out := MarkShared(out, emails[key]);
      }
      left := left - {key};
      assert emails.Keys - left == seen + {key};
    }
  }

  lemma CrowdedIsShared(inv: Inventory, ws: seq<Award>, fold: string -> string, emails: map<string, set<int>>,
                        vs: set<int>, v: int)
    requires Grouped(emails, inv, fold, vs) && (forall u :: u in vs <==> Awarded(ws, u)) && v in vs
    ensures Crowded(emails, emails.Keys, v) <==> Shared(inv, ws, fold, v)
  {
    if EmailOf(inv, v) != "" {
      var key := fold(EmailOf(inv, v));
      assert Under(emails, key, v);
      forall u ensures u in emails[key] <==> Awarded(ws, u) && EmailOf(inv, u) != "" && fold(EmailOf(inv, u)) == key {
        assert Under(emails, key, u) <==> u in emails[key];
      }
      SharedIff(inv, ws, fold, v, emails[key]);
      if |emails[key]| > 1 { assert Crowded(emails, emails.Keys, v); }
    }
  }

  method Finish(inv: Inventory, m: map<int, Individual>, fold: string -> string, ghost ws: seq<Award>)
    returns (out: map<int, Individual>)
    requires Collected(m, inv, ws)
    ensures out.Keys == m.Keys
    ensures forall v :: v in m ==> Awarded(ws, v) && GrantsTo(ws, v) != [] && out[v] == Expected(inv, ws, fold, v)
  {
    forall v | v in m ensures Awarded(ws, v) && GrantsTo(ws, v) != [] { NeverAwarded(ws, v); }
    var summed, emails := SumUp(inv, m, fold);
    forall v | v in m ensures Crowded(emails, emails.Keys, v) <==> Shared(inv, ws, fold, v) {
      CrowdedIsShared(inv, ws, fold, emails, m.Keys, v);
    }
    forall a, b, v | Under(emails, a, v) && Under(emails, b, v) ensures a == b { OneAddress(inv, fold, emails, m.Keys, a, b, v); }
    out := MarkAllShared(summed, emails);
  }

  ghost predicate AccountsAccepted(inv: Inventory, decisions: map<int, Decision>) {
    forall a :: a in inv.accounts ==> Accepted(inv, a, DecisionFor(decisions, a))
  }

  ghost predicate AreRows(rows: seq<Row>, inv: Inventory, decisions: map<int, Decision>, norm: string -> string) {
    forall k :: 0 <= k < |rows| ==> IsRow(rows[k], k, inv, decisions, norm)
  }

  ghost predicate IsRow(row: Row, k: nat, inv: Inventory, decisions: map<int, Decision>, norm: string -> string) {
    k < |inv.accounts| && row == RowOf(inv, norm, inv.accounts[k], DecisionFor(decisions, inv.accounts[k]))
  }

  lemma {:induction false} AwardsOfAppend(rows: seq<Row>, row: Row)
    ensures AllAwards(rows + [row]) == AllAwards(rows) + row.awards
  {
    assert (rows + [row])[..|rows|] == rows;
  }

  lemma AnotherRow(rows: seq<Row>, row: Row, inv: Inventory, decisions: map<int, Decision>, norm: string -> string)
    requires AreRows(rows, inv, decisions, norm) && IsRow(row, |rows|, inv, decisions, norm)
    ensures AreRows(rows + [row], inv, decisions, norm)
  {
  }

  ghost predicate AcceptedAt(k: nat, inv: Inventory, decisions: map<int, Decision>) {
    k < |inv.accounts| && Accepted(inv, inv.accounts[k], DecisionFor(decisions, inv.accounts[k]))
  }

  method RecordRow(inv: Inventory, m: map<int, Individual>, ghost rows: seq<Row>, row: Row)
    returns (out: map<int, Individual>)
    requires Collected(m, inv, AllAwards(rows))
    ensures Collected(out, inv, AllAwards(rows + [row]))
  {
    AwardsOfAppend(rows, row);
    out := RecordAll(inv, m, AllAwards(rows), row.awards);
  }

  lemma AllAcceptedIff(inv: Inventory, decisions: map<int, Decision>)
    ensures AccountsAccepted(inv, decisions) <==> forall k :: 0 <= k < |inv.accounts| ==> AcceptedAt(k, inv, decisions)
  {
    if AccountsAccepted(inv, decisions) {
      forall k | 0 <= k < |inv.accounts| ensures AcceptedAt(k, inv, decisions) { assert inv.accounts[k] in inv.accounts; }
    }
    if forall k :: 0 <= k < |inv.accounts| ==> AcceptedAt(k, inv, decisions) {
      forall a | a in inv.accounts ensures Accepted(inv, a, DecisionFor(decisions, a)) {
        var k :| 0 <= k < |inv.accounts| && inv.accounts[k] == a;
        assert AcceptedAt(k, inv, decisions);
      }
    }
  }

  /** The k-th account with its decision. */
  method PlanAccountAt(inv: Inventory, decisions: map<int, Decision>, norm: string -> string, k: nat)
    returns (row: Option<Row>)
    requires k < |inv.accounts|
    ensures row.Some? <==> AcceptedAt(k, inv, decisions)
    ensures row.Some? ==> IsRow(row.value, k, inv, decisions, norm)
  {
    row := PlanAccount(inv, norm, inv.accounts[k], DecisionFor(decisions, inv.accounts[k]));
  }

  method PlanAccounts(inv: Inventory, decisions: map<int, Decision>, norm: string -> string)
    returns (rows: Option<seq<Row>>, individuals: map<int, Individual>)
    ensures rows.Some? <==> forall k :: 0 <= k < |inv.accounts| ==> AcceptedAt(k, inv, decisions)
    ensures rows.Some? ==> |rows.value| == |inv.accounts| && AreRows(rows.value, inv, decisions, norm)
    ensures rows.Some? ==> Collected(individuals, inv, AllAwards(rows.value))
  {
    var done := [];
    individuals := map[];
    for i := 0 to |inv.accounts|
      invariant |done| == i && AreRows(done, inv, decisions, norm)
      invariant forall k :: 0 <= k < i ==> AcceptedAt(k, inv, decisions)
      invariant Collected(individuals, inv, AllAwards(done))
    {
      var row := PlanAccountAt(inv, decisions, norm, i);
      if row.None? { return None, map[]; }
      AnotherRow(done, row.value, inv, decisions, norm);
      individuals := RecordRow(inv, individuals, done, row.value);
      done := done + [row.value];
    }
    rows := Some(done);
  }

  method CheckInventory(inv: Inventory, decisions: map<int, Decision>, e: Eligibility) returns (ok: bool)
    ensures ok <==> InventoryAccepted(inv, decisions, e)
  {
    var eligible := EligibleGroups(e);
    if (eligible != {}) != e.semester.Some? { return false; }
    if eligible != {} && (!(eligible <= inv.groups) || e.semester.value <= 0) { return false; }
    if !NoDuplicates(Ids(inv.accounts)) || !NoDuplicates(inv.volunteerIds) { return false; }
    return decisions.Keys <= set a | a in inv.accounts :: a.id;
  }

  /** The grants of memberships, in the order of the pairs, and the summary of every individual. */
  method AddMembers(inv: Inventory, e: Eligibility, rows: seq<Row>, m: map<int, Individual>,
                    fold: string -> string) returns (plan: Option<Plan>)
    requires Collected(m, inv, AllAwards(rows))
    ensures plan.Some? <==> MembersKnown(inv, e)
    ensures plan.Some? ==> plan.value.rows == rows && IsSummed(plan.value, inv, e, fold)
  {
    var members := Members(inv, e);
    if exists p :: p in members && p.0 !in inv.volunteers { return None; }
    var organization := SortPairs(members);
    var all := RecordAll(inv, m, AllAwards(rows), MemberAwards(inv, organization));
    var individuals := Finish(inv, all, fold, AllAwards(rows) + MemberAwards(inv, organization));
    plan := Some(Plan(rows, organization, individuals));
  }

  method BuildPlan(inv: Inventory, decisions: map<int, Decision>, e: Eligibility, norm: string -> string,
                   fold: string -> string)
    returns (plan: Option<Plan>)
    ensures plan.Some? <==> AllAccepted(inv, decisions, e)
    ensures plan.Some? ==> IsPlan(plan.value, inv, decisions, e, norm, fold)
  {
    var ok := CheckInventory(inv, decisions, e);
    if !ok { return None; }
    AllAcceptedIff(inv, decisions);
    var rows, individuals := PlanAccounts(inv, decisions, norm);
    if rows.None? { return None; }
    plan := AddMembers(inv, e, rows.value, individuals, fold);
  }

  /** All awards of a plan: those of the accounts, then those of the memberships. */
  function PlanAwards(plan: Plan, inv: Inventory): seq<Award> {
    AllAwards(plan.rows) + MemberAwards(inv, plan.organization)
  }

  ghost predicate IsPlan(plan: Plan, inv: Inventory, decisions: map<int, Decision>, e: Eligibility,
                         norm: string -> string, fold: string -> string) {
    |plan.rows| == |inv.accounts| && AreRows(plan.rows, inv, decisions, norm) && IsSummed(plan, inv, e, fold)
  }

  ghost predicate IsSummed(plan: Plan, inv: Inventory, e: Eligibility, fold: string -> string) {
    && Sorted(plan.organization) && (forall m :: m in plan.organization <==> m in Members(inv, e))
    && (forall v :: v in plan.individuals <==> Awarded(PlanAwards(plan, inv), v))
    && (forall v :: v in plan.individuals ==>
          GrantsTo(PlanAwards(plan, inv), v) != [] && plan.individuals[v] == Expected(inv, PlanAwards(plan, inv), fold, v))
  }

  // ---------- no grant is lost or made up ----------

  function Pairs(ws: seq<Award>): seq<(int, Grant)> {
    if ws == [] then [] else Pairs(ws[..|ws| - 1]) + [(ws[|ws| - 1].to, ws[|ws| - 1].grant)]
  }

  lemma {:induction false} PairsCount(ws: seq<Award>, v: int, g: Grant)
    ensures multiset(Pairs(ws))[(v, g)] == multiset(GrantsTo(ws, v))[g]
    decreases |ws|
  {
    if ws != [] { PairsCount(ws[..|ws| - 1], v, g); }
  }

  lemma {:induction false} GrantsOfConcat(a: seq<Award>, b: seq<Award>, v: int)
    ensures GrantsTo(a + b, v) == GrantsTo(a, v) + GrantsTo(b, v)
    decreases |b|
  {
    if b == [] { assert a + b == a; }
    else {
      assert (a + b)[..|a + b| - 1] == a + b[..|b| - 1];
      GrantsOfConcat(a, b[..|b| - 1], v);
    }
  }

  lemma {:induction false} MemberGrants(ws: seq<Award>, v: int, g: Grant)
    requires (forall i :: 0 <= i < |ws| ==> ws[i].grant.FromMembership?) && g.FromAccount?
    ensures g !in GrantsTo(ws, v)
    decreases |ws|
  {
    if ws != [] { MemberGrants(ws[..|ws| - 1], v, g); }
  }

  /** Every grant of an account to a volunteer is among that individual's source grants, exactly as often as it was made. */
  lemma GrantsConserved(plan: Plan, inv: Inventory, decisions: map<int, Decision>, e: Eligibility,
                        norm: string -> string, fold: string -> string, v: int, g: Grant)
    requires IsPlan(plan, inv, decisions, e, norm, fold) && g.FromAccount?
    ensures multiset(Pairs(AllAwards(plan.rows)))[(v, g)] ==
            if v in plan.individuals then multiset(plan.individuals[v].grants)[g] else 0
  {
    var own, members := AllAwards(plan.rows), MemberAwards(inv, plan.organization);
    PairsCount(own, v, g);
    GrantsOfConcat(own, members, v);
    MemberGrants(members, v, g);
    NeverAwarded(own + members, v);
    if v in plan.individuals {
      assert plan.individuals[v].grants == GrantsTo(own, v) + GrantsTo(members, v);
    } else {
      assert GrantsTo(own, v) == [];
    }
  }

  predicate GrantsRole(gs: seq<Grant>, r: Role) {
    exists i :: 0 <= i < |gs| && RoleOf(gs[i]) == r
  }

  /** The role of an individual is one of the granted ones. */
  lemma {:induction false} HighestIsGranted(gs: seq<Grant>)
    requires gs != []
    ensures GrantsRole(gs, Highest(gs))
    decreases |gs|
  {
    var n := |gs| - 1;
    if n > 0 && Highest(gs) != RoleOf(gs[n]) {
      HighestIsGranted(gs[..n]);
      var i :| 0 <= i < n && RoleOf(gs[..n][i]) == Highest(gs[..n]);
      assert RoleOf(gs[i]) == Highest(gs);
    }
  }

  /** And no granted role ranks higher. */
  lemma {:induction false} HighestRanksFirst(gs: seq<Grant>, i: nat)
    requires i < |gs|
    ensures Priority(RoleOf(gs[i])) <= Priority(Highest(gs))
    decreases |gs|
  {
    if i < |gs| - 1 { HighestRanksFirst(gs[..|gs| - 1], i); }
  }

  // ---------- when an individual is ready ----------

  lemma {:induction false} NoIssuesIff(ws: seq<Award>, v: int)
    ensures IssuesOf(ws, v) == {} <==> forall i :: 0 <= i < |ws| && ws[i].to == v ==> ws[i].issues == {}
    decreases |ws|
  {
    if ws != [] {
      var n := |ws| - 1;
      NoIssuesIff(ws[..n], v);
      assert forall i :: 0 <= i < n ==> ws[i] == ws[..n][i];
      if IssuesOf(ws, v) == {} { assert IssuesOf(ws[..n], v) == {}; }
    }
  }

  lemma {:induction false} AwardsAre(inv: Inventory, proposed: seq<int>, g: Grant, base: set<Issue>, k: nat)
    requires k < |proposed|
    ensures |Awards(inv, proposed, g, base)| == |proposed|
    ensures Awards(inv, proposed, g, base)[k] == Award(proposed[k], g, After(inv, proposed[..k + 1], base))
    decreases |proposed|
  {
    var n := |proposed| - 1;
    if n > 0 { AwardsAre(inv, proposed[..n], g, base, if k < n then k else 0); }
    if k < n { assert proposed[..n][..k + 1] == proposed[..k + 1]; }
    else { assert proposed[..k + 1] == proposed; }
  }

  /** The row's k-th volunteer is burdened: the scope is missing, or someone up to the k-th has no address. */
  ghost predicate Burdened(inv: Inventory, row: Row, k: nat)
    requires k < |row.proposed| == |row.awards|
  {
    || (RoleOf(row.awards[k].grant) == "Gruppeadmin" && GroupsOf(row.awards[k].grant) == {})
    || exists j :: 0 <= j <= k && Blank(inv, row.proposed[j])
  }

  lemma RowIssues(inv: Inventory, norm: string -> string, a: Account, d: Decision, k: nat)
    requires k < |RowOf(inv, norm, a, d).proposed|
    ensures var row := RowOf(inv, norm, a, d);
      && |row.awards| == |row.proposed| && row.awards[k].to == row.proposed[k]
      && (row.awards[k].issues == {} <==> !Burdened(inv, row, k))
  {
    var row := RowOf(inv, norm, a, d);
    var g := GrantOf(inv, a, d);
    var base := Before(row.proposed, d, g);
    AwardsAre(inv, row.proposed, g, base, k);
    assert forall j :: 0 <= j <= k ==> row.proposed[..k + 1][j] == row.proposed[j];
    if exists j :: 0 <= j <= k && Blank(inv, row.proposed[j]) {
      var j :| 0 <= j <= k && Blank(inv, row.proposed[j]);
      assert Blank(inv, row.proposed[..k + 1][j]);
      assert EmailMissing in row.awards[k].issues;
    } else {
      assert row.awards[k].issues == base;
    }
    if RoleOf(g) == "Gruppeadmin" && GroupsOf(g) == {} { assert GroupScopeMissing in base; }
  }

  // ---------- the iff, over a whole plan ----------

  lemma {:induction false} InAllAwards(rows: seq<Row>, w: Award)
    ensures w in AllAwards(rows) <==> exists i :: 0 <= i < |rows| && w in rows[i].awards
    decreases |rows|
  {
    if rows != [] {
      var n := |rows| - 1;
      InAllAwards(rows[..n], w);
      assert forall i :: 0 <= i < n ==> rows[..n][i] == rows[i];
    }
  }

  /** No account burdens the volunteer. */
  ghost predicate Unburdened(plan: Plan, inv: Inventory, v: int) {
    forall i, k :: 0 <= i < |plan.rows| && 0 <= k < |plan.rows[i].proposed| == |plan.rows[i].awards| && plan.rows[i].proposed[k] == v ==>
      !Burdened(inv, plan.rows[i], k)
  }

  lemma UnburdenedIff(plan: Plan, inv: Inventory, decisions: map<int, Decision>, norm: string -> string, v: int)
    requires |plan.rows| == |inv.accounts| && AreRows(plan.rows, inv, decisions, norm)
    ensures Unburdened(plan, inv, v) <==> forall w :: w in AllAwards(plan.rows) && w.to == v ==> w.issues == {}
  {
    forall i, k | 0 <= i < |plan.rows| && 0 <= k < |plan.rows[i].proposed|
      ensures |plan.rows[i].awards| == |plan.rows[i].proposed|
      ensures plan.rows[i].awards[k].to == plan.rows[i].proposed[k]
      ensures plan.rows[i].awards[k].issues == {} <==> !Burdened(inv, plan.rows[i], k)
    {
      assert IsRow(plan.rows[i], i, inv, decisions, norm);
      RowIssues(inv, norm, inv.accounts[i], DecisionFor(decisions, inv.accounts[i]), k);
    }
    if Unburdened(plan, inv, v) {
      forall w | w in AllAwards(plan.rows) && w.to == v ensures w.issues == {} {
        InAllAwards(plan.rows, w);
        var i :| 0 <= i < |plan.rows| && w in plan.rows[i].awards;
        var k :| 0 <= k < |plan.rows[i].awards| && plan.rows[i].awards[k] == w;
        RowLength(plan, inv, decisions, norm, i);
        assert plan.rows[i].proposed[k] == v;
      }
    }
    if forall w :: w in AllAwards(plan.rows) && w.to == v ==> w.issues == {} {
      forall i, k | 0 <= i < |plan.rows| && 0 <= k < |plan.rows[i].proposed| == |plan.rows[i].awards| && plan.rows[i].proposed[k] == v
        ensures !Burdened(inv, plan.rows[i], k)
      {
        InAllAwards(plan.rows, plan.rows[i].awards[k]);
      }
    }
  }

  lemma RowLength(plan: Plan, inv: Inventory, decisions: map<int, Decision>, norm: string -> string, i: nat)
    requires i < |plan.rows| == |inv.accounts| && AreRows(plan.rows, inv, decisions, norm)
    ensures |plan.rows[i].awards| == |plan.rows[i].proposed|
  {
    assert IsRow(plan.rows[i], i, inv, decisions, norm);
    var a, d := inv.accounts[i], DecisionFor(decisions, inv.accounts[i]);
    var row := RowOf(inv, norm, a, d);
    if row.proposed != [] { AwardsAre(inv, row.proposed, GrantOf(inv, a, d), Before(row.proposed, d, GrantOf(inv, a, d)), 0); }
  }

  /**
   * Exactly when the plan leaves an individual without issues: every source grant was reviewed, there is an
   * address, nobody else in the plan has the same one up to case, and no account burdens them with a missing
   * group scope or with the missing address of a volunteer listed before them.
   */
  lemma ReadyIff(plan: Plan, inv: Inventory, decisions: map<int, Decision>, e: Eligibility,
                 norm: string -> string, fold: string -> string, v: int)
    requires IsPlan(plan, inv, decisions, e, norm, fold) && v in plan.individuals
    ensures plan.individuals[v].issues == {} <==>
            && (forall i :: 0 <= i < |plan.individuals[v].grants| ==> Reviewed(plan.individuals[v].grants[i]))
            && plan.individuals[v].email != ""
            && !Shared(inv, PlanAwards(plan, inv), fold, v)
            && Unburdened(plan, inv, v)
  {
    var ws := PlanAwards(plan, inv);
    NoIssuesIff(ws, v);
    UnburdenedIff(plan, inv, decisions, norm, v);
    SplitIssues(plan, inv, v);
    if Blank(inv, v) { BlankIsNoted(plan, inv, decisions, norm, v); }
  }

  lemma SplitIssues(plan: Plan, inv: Inventory, v: int)
    ensures var ws := PlanAwards(plan, inv);
      (forall i :: 0 <= i < |ws| && ws[i].to == v ==> ws[i].issues == {}) <==>
      && (forall w :: w in AllAwards(plan.rows) && w.to == v ==> w.issues == {})
      && (forall m :: m in plan.organization && m.0 == v ==> !Blank(inv, v))
  {
    var own, members := AllAwards(plan.rows), MemberAwards(inv, plan.organization);
    var ws := PlanAwards(plan, inv);
    assert ws == own + members;
    if forall i :: 0 <= i < |ws| && ws[i].to == v ==> ws[i].issues == {} {
      forall w | w in own && w.to == v ensures w.issues == {} {
        var i :| 0 <= i < |own| && own[i] == w;
        assert ws[i] == w;
      }
      forall m | m in plan.organization && m.0 == v ensures !Blank(inv, v) {
        var i :| 0 <= i < |plan.organization| && plan.organization[i] == m;
        assert ws[|own| + i] == members[i] == MemberAward(inv, m);
      }
    }
    if (forall w :: w in own && w.to == v ==> w.issues == {}) && forall m :: m in plan.organization && m.0 == v ==> !Blank(inv, v) {
      forall i | 0 <= i < |ws| && ws[i].to == v ensures ws[i].issues == {} {
        if i < |own| { assert ws[i] in own; }
        else { assert ws[i] == MemberAward(inv, plan.organization[i - |own|]); }
      }
    }
  }

  /** Whatever puts a volunteer without an address into the plan notes it. */
  lemma BlankIsNoted(plan: Plan, inv: Inventory, decisions: map<int, Decision>, norm: string -> string, v: int)
    requires |plan.rows| == |inv.accounts| && AreRows(plan.rows, inv, decisions, norm)
    requires Awarded(PlanAwards(plan, inv), v) && Blank(inv, v)
    ensures var ws := PlanAwards(plan, inv);
      exists i :: 0 <= i < |ws| && ws[i].to == v && ws[i].issues != {}
  {
    var own, ws := AllAwards(plan.rows), PlanAwards(plan, inv);
    var i :| 0 <= i < |ws| && ws[i].to == v;
    if i < |own| {
      InAllAwards(plan.rows, own[i]);
      var r :| 0 <= r < |plan.rows| && own[i] in plan.rows[r].awards;
      RowLength(plan, inv, decisions, norm, r);
      var k :| 0 <= k < |plan.rows[r].awards| && plan.rows[r].awards[k] == own[i];
      assert IsRow(plan.rows[r], r, inv, decisions, norm);
      RowIssues(inv, norm, inv.accounts[r], DecisionFor(decisions, inv.accounts[r]), k);
      assert ws[i].issues != {};
    } else {
      assert ws[i] == MemberAward(inv, plan.organization[i - |own|]);
    }
  }

  /**
   * A missing address burdens only those listed after it: of two volunteers selected for one account, the one
   * with an address is burdened if the other comes first, and not if the other comes last.
   */
  lemma {:induction false} OrderOfSelectionMatters(inv: Inventory, x: int, y: int, g: Grant)
    requires Blank(inv, x) && !Blank(inv, y)
    ensures Awards(inv, [x, y], g, {}) == [Award(x, g, {EmailMissing}), Award(y, g, {EmailMissing})]
    ensures Awards(inv, [y, x], g, {}) == [Award(y, g, {}), Award(x, g, {EmailMissing})]
  {
    AwardsAre(inv, [x, y], g, {}, 0);
    AwardsAre(inv, [x, y], g, {}, 1);
    AwardsAre(inv, [y, x], g, {}, 0);
    AwardsAre(inv, [y, x], g, {}, 1);
    assert [x, y][..1] == [x] && [x, y][..2] == [x, y] && [y, x][..1] == [y] && [y, x][..2] == [y, x];
    assert Blank(inv, [x][0]) && Blank(inv, [x, y][0]) && Blank(inv, [y, x][1]);
    assert Awards(inv, [x, y], g, {})[0] == Award(x, g, {EmailMissing}) && Awards(inv, [x, y], g, {})[1] == Award(y, g, {EmailMissing});
  }

  // ---------- proposals and memberships ----------

  lemma {:induction false} NamesakesAre(inv: Inventory, norm: string -> string, a: Account, ids: seq<int>, v: int)
    ensures v in Namesakes(inv, norm, a, ids) <==> v in ids && Namesake(inv, norm, a, v)
    ensures NoDuplicates(ids) ==> NoDuplicates(Namesakes(inv, norm, a, ids))
    decreases |ids|
  {
    if ids != [] {
      var n := |ids| - 1;
      var before := Namesakes(inv, norm, a, ids[..n]);
      NamesakesAre(inv, norm, a, ids[..n], v);
      NamesakesAre(inv, norm, a, ids[..n], ids[n]);
      assert ids == ids[..n] + [ids[n]];
      if NoDuplicates(ids) {
        assert ids[n] !in ids[..n];
        assert ids[n] !in before;
      }
    }
  }

  /** An undecided account is proposed to someone exactly when they are its only namesake who has held a position. */
  lemma ProposedIffOnlyNamesake(inv: Inventory, norm: string -> string, a: Account, d: Decision, v: int)
    requires d.action.Pending? && d.selected == [] && NoDuplicates(inv.volunteerIds)
    ensures v in Proposed(inv, norm, a, d) <==>
            v in inv.volunteerIds && Namesake(inv, norm, a, v) &&
            forall u :: u in inv.volunteerIds && Namesake(inv, norm, a, u) ==> u == v
  {
    var found := Namesakes(inv, norm, a, inv.volunteerIds);
    forall u ensures u in found <==> u in inv.volunteerIds && Namesake(inv, norm, a, u) {
      NamesakesAre(inv, norm, a, inv.volunteerIds, u);
    }
    NamesakesAre(inv, norm, a, inv.volunteerIds, v);
    if v in inv.volunteerIds && Namesake(inv, norm, a, v) && |found| > 1 {
      assert found[0] in found && found[1] in found && found[0] != found[1];
    }
  }

  lemma {:induction false} MembershipIn(ws: seq<Award>, v: int, g: int)
    ensures FromMembership(g) in GrantsTo(ws, v) <==> exists w :: w in ws && w.to == v && w.grant == FromMembership(g)
    decreases |ws|
  {
    if ws != [] {
      MembershipIn(ws[..|ws| - 1], v, g);
      assert ws == ws[..|ws| - 1] + [ws[|ws| - 1]];
    }
  }

  lemma NotFromAccounts(plan: Plan, inv: Inventory, decisions: map<int, Decision>, norm: string -> string, w: Award)
    requires |plan.rows| == |inv.accounts| && AreRows(plan.rows, inv, decisions, norm) && w in AllAwards(plan.rows)
    ensures w.grant.FromAccount?
  {
    InAllAwards(plan.rows, w);
    var i :| 0 <= i < |plan.rows| && w in plan.rows[i].awards;
    RowLength(plan, inv, decisions, norm, i);
    var k :| 0 <= k < |plan.rows[i].awards| && plan.rows[i].awards[k] == w;
    assert IsRow(plan.rows[i], i, inv, decisions, norm);
    var a, d := inv.accounts[i], DecisionFor(decisions, inv.accounts[i]);
    AwardsAre(inv, plan.rows[i].proposed, GrantOf(inv, a, d), Before(plan.rows[i].proposed, d, GrantOf(inv, a, d)), k);
  }

  /** Admin through a membership goes to exactly those with an assignment in that eligible group in the current semester. */
  lemma MembershipsConserved(plan: Plan, inv: Inventory, decisions: map<int, Decision>, e: Eligibility,
                             norm: string -> string, fold: string -> string, v: int, g: int)
    requires IsPlan(plan, inv, decisions, e, norm, fold)
    ensures (v in plan.individuals && FromMembership(g) in plan.individuals[v].grants) <==>
            g in EligibleGroups(e) &&
            exists i :: 0 <= i < |inv.assignments| && inv.assignments[i].volunteer == v
                        && inv.assignments[i].group == Some(g) && Some(inv.assignments[i].semester) == e.semester
  {
    var ws := PlanAwards(plan, inv);
    MembershipIn(ws, v, g);
    NeverAwarded(ws, v);
    var members := MemberAwards(inv, plan.organization);
    if w :| w in ws && w.to == v && w.grant == FromMembership(g) {
      if w in AllAwards(plan.rows) { NotFromAccounts(plan, inv, decisions, norm, w); }
      var i :| 0 <= i < |members| && members[i] == w;
      assert members[i] == MemberAward(inv, plan.organization[i]);
      assert plan.organization[i] == (v, g) && (v, g) in Members(inv, e);
    }
    if (v, g) in Members(inv, e) {
      var i :| 0 <= i < |plan.organization| && plan.organization[i] == (v, g);
      assert members[i] == MemberAward(inv, (v, g)) && members[i] in ws;
    }
  }
}
