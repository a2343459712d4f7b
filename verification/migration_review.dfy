/** What a finished migration plan says, in terms of its inputs alone. */
module MigrationReview {
  import opened Sets
  import opened Wrappers
  import opened MigrationPlan

  // ---------- who gets the grant of an account ----------

  /** A volunteer with the name of the account who has held a position: names are compared after normalisation. */
  ghost predicate SameName(inv: Inventory, norm: string -> string, a: Account, v: int) {
    && v in inv.volunteers && norm(a.display) != "" && norm(inv.volunteers[v].fullName) == norm(a.display)
    && exists s :: s in inv.assignments && s.volunteer == v && s.semester > 0
  }

  ghost predicate OnlySameName(inv: Inventory, norm: string -> string, a: Account, v: int) {
    && v in inv.volunteerIds && SameName(inv, norm, a, v)
    && forall u :: u in inv.volunteerIds && SameName(inv, norm, a, u) ==> u == v
  }

  predicate Undecided(decisions: map<int, Decision>, a: Account) {
    a.id !in decisions || decisions[a.id].action.Pending?
  }

  /** The volunteers of an account: those it is mapped to, or its only namesake while nobody has decided. */
  ghost predicate GoesTo(inv: Inventory, decisions: map<int, Decision>, norm: string -> string, a: Account, v: int) {
    || (a.id in decisions && decisions[a.id].action.Map? && v in decisions[a.id].selected)
    || (Undecided(decisions, a) && OnlySameName(inv, norm, a, v))
  }

  /** Somebody has mapped the account and has not said that this is still to be reviewed. */
  predicate ReviewedMapping(decisions: map<int, Decision>, a: Account) {
    a.id in decisions && decisions[a.id].action.Map? && decisions[a.id].reviewed != Some(false)
  }

  ghost predicate GrantsAs(inv: Inventory, decisions: map<int, Decision>, a: Account, g: Grant)
    requires g.FromAccount?
  {
    && g.account == a.id
    && g.role == (if a.id in decisions && decisions[a.id].role.Some? then decisions[a.id].role.value else a.role)
    && (forall x :: x in g.groups <==>
          if a.id in decisions && decisions[a.id].groups.Some? then x in decisions[a.id].groups.value
          else (a.user, x) in inv.memberships)
    && (g.reviewed <==> ReviewedMapping(decisions, a))
  }

  lemma GrantIs(inv: Inventory, decisions: map<int, Decision>, a: Account, g: Grant)
    requires g.FromAccount?
    ensures g == GrantOf(inv, a, DecisionFor(decisions, a)) <==> GrantsAs(inv, decisions, a, g)
  {
    var d := DecisionFor(decisions, a);
    forall x ensures x in AccountGroups(inv, a, d) <==>
        if a.id in decisions && decisions[a.id].groups.Some? then x in decisions[a.id].groups.value
        else (a.user, x) in inv.memberships
    {
      GroupsAre(inv, a, d, x);
    }
    if GrantsAs(inv, decisions, a, g) {
      assert forall x :: x in g.groups <==> x in AccountGroups(inv, a, d);
    }
  }

  lemma GroupsAre(inv: Inventory, a: Account, d: Decision, x: int)
    ensures x in AccountGroups(inv, a, d) <==>
              if d.groups.Some? then x in d.groups.value else (a.user, x) in inv.memberships
  {
    if (a.user, x) in inv.memberships { assert (a.user, x).0 == a.user && (a.user, x).1 == x; }
  }

  lemma NamesakeIff(inv: Inventory, norm: string -> string, a: Account, v: int)
    ensures Namesake(inv, norm, a, v) <==> SameName(inv, norm, a, v)
  {
    if SameName(inv, norm, a, v) {
      var s :| s in inv.assignments && s.volunteer == v && s.semester > 0;
      var i :| 0 <= i < |inv.assignments| && inv.assignments[i] == s;
    }
    if Namesake(inv, norm, a, v) {
      var i :| 0 <= i < |inv.assignments| && inv.assignments[i].volunteer == v && inv.assignments[i].semester > 0;
      assert inv.assignments[i] in inv.assignments;
    }
  }

  lemma ProposedIff(inv: Inventory, decisions: map<int, Decision>, norm: string -> string, a: Account, v: int)
    requires NoDuplicates(inv.volunteerIds) && Accepted(inv, a, DecisionFor(decisions, a))
    ensures v in Proposed(inv, norm, a, DecisionFor(decisions, a)) <==> GoesTo(inv, decisions, norm, a, v)
  {
    var d := DecisionFor(decisions, a);
    if d.action.Pending? {
      ProposedIffOnlyNamesake(inv, norm, a, d, v);
      forall u ensures Namesake(inv, norm, a, u) <==> SameName(inv, norm, a, u) { NamesakeIff(inv, norm, a, u); }
    }
  }

  lemma {:induction false} GrantIn(ws: seq<Award>, v: int, g: Grant)
    ensures g in GrantsTo(ws, v) <==> exists w :: w in ws && w.to == v && w.grant == g
    decreases |ws|
  {
    if ws != [] {
      GrantIn(ws[..|ws| - 1], v, g);
      assert ws == ws[..|ws| - 1] + [ws[|ws| - 1]];
    }
  }

  /** A row awards the grant of its account to each of its volunteers, and nothing else. */
  lemma RowAwards(inv: Inventory, norm: string -> string, a: Account, d: Decision, w: Award)
    ensures w in RowOf(inv, norm, a, d).awards ==> w.grant == GrantOf(inv, a, d) && w.to in RowOf(inv, norm, a, d).proposed
    ensures forall v :: v in RowOf(inv, norm, a, d).proposed ==>
              exists w' :: w' in RowOf(inv, norm, a, d).awards && w'.to == v && w'.grant == GrantOf(inv, a, d)
  {
    var row, g := RowOf(inv, norm, a, d), GrantOf(inv, a, d);
    var base := Before(row.proposed, d, g);
    if row.proposed != [] { AwardsAre(inv, row.proposed, g, base, 0); }
    forall k | 0 <= k < |row.proposed| ensures row.awards[k].to == row.proposed[k] && row.awards[k].grant == g {
      AwardsAre(inv, row.proposed, g, base, k);
    }
    if w in row.awards {
      var k :| 0 <= k < |row.awards| && row.awards[k] == w;
      assert w.to == row.proposed[k];
    }
    forall v | v in row.proposed ensures exists w' :: w' in row.awards && w'.to == v && w'.grant == g {
      var k :| 0 <= k < |row.proposed| && row.proposed[k] == v;
      assert row.awards[k] in row.awards;
    }
  }

  lemma InPlanAwards(plan: Plan, inv: Inventory, w: Award)
    ensures w in PlanAwards(plan, inv) <==> w in AllAwards(plan.rows) || w in MemberAwards(inv, plan.organization)
  {
  }

  /** An account gives its own grant to a volunteer. */
  ghost predicate Gives(inv: Inventory, decisions: map<int, Decision>, norm: string -> string, a: Account, v: int, g: Grant)
    requires g.FromAccount?
  {
    a in inv.accounts && GoesTo(inv, decisions, norm, a, v) && GrantsAs(inv, decisions, a, g)
  }

  lemma GivenIsAwarded(plan: Plan, inv: Inventory, decisions: map<int, Decision>, e: Eligibility,
                       norm: string -> string, fold: string -> string, a: Account, v: int, g: Grant)
    requires AllAccepted(inv, decisions, e) && IsPlan(plan, inv, decisions, e, norm, fold)
    requires g.FromAccount? && Gives(inv, decisions, norm, a, v, g)
    ensures exists w :: w in PlanAwards(plan, inv) && w.to == v && w.grant == g
  {
    var i :| 0 <= i < |inv.accounts| && inv.accounts[i] == a;
    var d := DecisionFor(decisions, a);
    assert IsRow(plan.rows[i], i, inv, decisions, norm);
    ProposedIff(inv, decisions, norm, a, v);
    GrantIs(inv, decisions, a, g);
    RowAwards(inv, norm, a, d, Award(v, g, {}));
    var w :| w in plan.rows[i].awards && w.to == v && w.grant == g;
    InAllAwards(plan.rows, w);
    InPlanAwards(plan, inv, w);
  }

  lemma AwardedIsGiven(plan: Plan, inv: Inventory, decisions: map<int, Decision>, e: Eligibility,
                       norm: string -> string, fold: string -> string, w: Award)
    requires AllAccepted(inv, decisions, e) && IsPlan(plan, inv, decisions, e, norm, fold)
    requires w in PlanAwards(plan, inv) && w.grant.FromAccount?
    ensures exists a :: Gives(inv, decisions, norm, a, w.to, w.grant)
  {
    InPlanAwards(plan, inv, w);
    InAllAwards(plan.rows, w);
    var i :| 0 <= i < |plan.rows| && w in plan.rows[i].awards;
    var a := inv.accounts[i];
    assert IsRow(plan.rows[i], i, inv, decisions, norm);
    RowAwards(inv, norm, a, DecisionFor(decisions, a), w);
    ProposedIff(inv, decisions, norm, a, w.to);
    GrantIs(inv, decisions, a, w.grant);
    assert Gives(inv, decisions, norm, a, w.to, w.grant);
  }

  /**
   * The grants from accounts that a plan lists for a volunteer are exactly those of the accounts that are mapped
   * to them, or that nobody has decided about and whose only namesake they are: with the role and the groups of
   * the decision or else of the account, and marked as reviewed exactly if the account was mapped and the
   * decision does not say otherwise.
   */
  lemma AccountGrantIff(plan: Plan, inv: Inventory, decisions: map<int, Decision>, e: Eligibility,
                        norm: string -> string, fold: string -> string, v: int, g: Grant)
    requires AllAccepted(inv, decisions, e) && IsPlan(plan, inv, decisions, e, norm, fold) && g.FromAccount?
    ensures (v in plan.individuals && g in plan.individuals[v].grants) <==>
            exists a :: Gives(inv, decisions, norm, a, v, g)
  {
    var ws := PlanAwards(plan, inv);
    GrantIn(ws, v, g);
    NeverAwarded(ws, v);
    if w :| w in ws && w.to == v && w.grant == g { AwardedIsGiven(plan, inv, decisions, e, norm, fold, w); }
    if a :| Gives(inv, decisions, norm, a, v, g) { GivenIsAwarded(plan, inv, decisions, e, norm, fold, a, v, g); }
  }

  /** So an individual without issues has no grant but reviewed ones: none from an account nobody has decided about. */
  lemma ReadyIsReviewed(plan: Plan, inv: Inventory, decisions: map<int, Decision>, e: Eligibility,
                        norm: string -> string, fold: string -> string, v: int, a: Account)
    requires AllAccepted(inv, decisions, e) && IsPlan(plan, inv, decisions, e, norm, fold)
    requires v in plan.individuals && plan.individuals[v].issues == {}
    requires a in inv.accounts && GoesTo(inv, decisions, norm, a, v)
    ensures ReviewedMapping(decisions, a) && !Undecided(decisions, a)
  {
    var g := GrantOf(inv, a, DecisionFor(decisions, a));
    GrantIs(inv, decisions, a, g);
    assert Gives(inv, decisions, norm, a, v, g);
    AccountGrantIff(plan, inv, decisions, e, norm, fold, v, g);
    ReadyIff(plan, inv, decisions, e, norm, fold, v);
    var i :| 0 <= i < |plan.individuals[v].grants| && plan.individuals[v].grants[i] == g;
    assert Reviewed(plan.individuals[v].grants[i]);
  }

  // ---------- what else a plan says of an individual ----------

  ghost predicate HasRole(gs: seq<Grant>, r: Role) {
    exists g :: g in gs && g.FromAccount? && g.role == r
  }

  ghost predicate HasMembership(gs: seq<Grant>) {
    exists g :: g in gs && g.FromMembership?
  }

  /** Whoever is in the plan is known, and the roles and groups of their grants are. */
  lemma GrantsAreKnown(plan: Plan, inv: Inventory, decisions: map<int, Decision>, e: Eligibility,
                       norm: string -> string, fold: string -> string, v: int, g: Grant)
    requires AllAccepted(inv, decisions, e) && IsPlan(plan, inv, decisions, e, norm, fold)
    requires v in plan.individuals && g in plan.individuals[v].grants
    ensures v in inv.volunteers
    ensures g.FromAccount? ==> g.role in ["Admin", "Gruppeadmin", "Frivillig", "Tilskuer"] && g.groups <= inv.groups
    ensures g.FromMembership? ==> g.group in inv.groups
  {
    if g.FromAccount? {
      AccountGrantIff(plan, inv, decisions, e, norm, fold, v, g);
      var a :| Gives(inv, decisions, norm, a, v, g);
      GrantIs(inv, decisions, a, g);
      assert Accepted(inv, a, DecisionFor(decisions, a));
    } else {
      MembershipsConserved(plan, inv, decisions, e, norm, fold, v, g.group);
      var i :| 0 <= i < |inv.assignments| && inv.assignments[i].volunteer == v
        && inv.assignments[i].group == Some(g.group) && Some(inv.assignments[i].semester) == e.semester;
      assert (v, g.group) in Members(inv, e);
    }
  }

  /** The highest of the roles that are present. */
  function TopRole(admin: bool, groupAdmin: bool, volunteer: bool): Role {
    if admin then "Admin" else if groupAdmin then "Gruppeadmin" else if volunteer then "Frivillig" else "Tilskuer"
  }

  ghost function RoleByName(gs: seq<Grant>): Role {
    TopRole(HasMembership(gs) || HasRole(gs, "Admin"), HasRole(gs, "Gruppeadmin"), HasRole(gs, "Frivillig"))
  }

  /** One more role is taken over exactly if it ranks higher. */
  lemma TopRoleStep(admin: bool, groupAdmin: bool, volunteer: bool, r: Role)
    requires r in ["Admin", "Gruppeadmin", "Frivillig", "Tilskuer"]
    ensures var top := TopRole(admin, groupAdmin, volunteer);
      (if Priority(r) > Priority(top) then r else top) ==
      TopRole(admin || r == "Admin", groupAdmin || r == "Gruppeadmin", volunteer || r == "Frivillig")
  {
    DifferentNames();
  }

  lemma DifferentNames()
    ensures "Admin" != "Gruppeadmin" && "Admin" != "Frivillig" && "Admin" != "Tilskuer"
    ensures "Gruppeadmin" != "Frivillig" && "Gruppeadmin" != "Tilskuer" && "Frivillig" != "Tilskuer"
  {
    assert "Admin"[0] == 'A' && "Gruppeadmin"[0] == 'G' && "Frivillig"[0] == 'F' && "Tilskuer"[0] == 'T';
  }

  lemma {:induction false} HighestIs(gs: seq<Grant>)
    requires gs != []
    requires forall g :: g in gs ==> RoleOf(g) in ["Admin", "Gruppeadmin", "Frivillig", "Tilskuer"]
    ensures Highest(gs) == RoleByName(gs)
    decreases |gs|
  {
    var n := |gs| - 1;
    var before := gs[..n];
    var r := RoleOf(gs[n]);
    assert gs == before + [gs[n]] && gs[n] in gs;
    HasStep(before, gs[n]);
    TopRoleStep(HasMembership(before) || HasRole(before, "Admin"), HasRole(before, "Gruppeadmin"),
                HasRole(before, "Frivillig"), r);
    if n == 0 { FirstRole(r); } else { HighestIs(before); }
  }

  lemma FirstRole(r: Role)
    requires r in ["Admin", "Gruppeadmin", "Frivillig", "Tilskuer"]
    ensures r == TopRole(r == "Admin", r == "Gruppeadmin", r == "Frivillig")
  {
  }

  lemma HasStep(gs: seq<Grant>, g: Grant)
    ensures HasMembership(gs + [g]) || HasRole(gs + [g], "Admin") <==>
              HasMembership(gs) || HasRole(gs, "Admin") || RoleOf(g) == "Admin"
    ensures HasRole(gs + [g], "Gruppeadmin") <==> HasRole(gs, "Gruppeadmin") || RoleOf(g) == "Gruppeadmin"
    ensures HasRole(gs + [g], "Frivillig") <==> HasRole(gs, "Frivillig") || RoleOf(g) == "Frivillig"
  {
    DifferentNames();
    OneMoreGrant(gs, g, "Admin");
    OneMoreGrant(gs, g, "Gruppeadmin");
    OneMoreGrant(gs, g, "Frivillig");
  }

  lemma OneMoreGrant(gs: seq<Grant>, g: Grant, r: Role)
    ensures HasRole(gs + [g], r) <==> HasRole(gs, r) || (g.FromAccount? && g.role == r)
    ensures HasMembership(gs + [g]) <==> HasMembership(gs) || g.FromMembership?
  {
    assert g in gs + [g];
    if HasRole(gs, r) {
      var x :| x in gs && x.FromAccount? && x.role == r;
      assert x in gs + [g];
    }
    if HasMembership(gs) {
      var x :| x in gs && x.FromMembership?;
      assert x in gs + [g];
    }
  }

  /** Address, role and groups of an individual: the highest granted role, and all granted groups. */
  lemma IndividualIs(plan: Plan, inv: Inventory, decisions: map<int, Decision>, e: Eligibility,
                     norm: string -> string, fold: string -> string, v: int)
    requires AllAccepted(inv, decisions, e) && IsPlan(plan, inv, decisions, e, norm, fold) && v in plan.individuals
    ensures var x := plan.individuals[v];
      && v in inv.volunteers && x.email == inv.volunteers[v].email
      && x.role == (if HasMembership(x.grants) || HasRole(x.grants, "Admin") then "Admin"
                    else if HasRole(x.grants, "Gruppeadmin") then "Gruppeadmin"
                    else if HasRole(x.grants, "Frivillig") then "Frivillig"
                    else "Tilskuer")
      && forall i :: i in x.groups <==> exists g :: g in x.grants && g.FromAccount? && i in g.groups
  {
    var gs := plan.individuals[v].grants;
    forall g | g in gs ensures v in inv.volunteers
      ensures RoleOf(g) in ["Admin", "Gruppeadmin", "Frivillig", "Tilskuer"]
    {
      GrantsAreKnown(plan, inv, decisions, e, norm, fold, v, g);
    }
    assert gs[0] in gs;
    HighestIs(gs);
    forall i ensures i in AllGroups(gs) <==> exists g :: g in gs && g.FromAccount? && i in g.groups { GroupIn(gs, i); }
  }

  lemma GroupIn(gs: seq<Grant>, i: int)
    ensures i in AllGroups(gs) <==> exists g :: g in gs && g.FromAccount? && i in g.groups
  {
    if i in AllGroups(gs) {
      var k :| 0 <= k < |gs| && i in GroupsOf(gs[k]);
      assert gs[k] in gs && gs[k].FromAccount? && i in gs[k].groups;
    }
    if g :| g in gs && g.FromAccount? && i in g.groups {
      var k :| 0 <= k < |gs| && gs[k] == g;
      assert i in GroupsOf(gs[k]);
    }
  }

  /** Admin memberships are listed for exactly the assignments to an eligible group in the current semester. */
  lemma OrganizationIs(plan: Plan, inv: Inventory, decisions: map<int, Decision>, e: Eligibility,
                       norm: string -> string, fold: string -> string, v: int, g: int)
    requires IsPlan(plan, inv, decisions, e, norm, fold)
    ensures (v, g) in plan.organization <==>
            && (e.adminGroup == Some(g) || e.boardGroup == Some(g))
            && exists s :: s in inv.assignments && s.volunteer == v && s.group == Some(g) && Some(s.semester) == e.semester
    ensures (v, g) in plan.organization <==> v in plan.individuals && FromMembership(g) in plan.individuals[v].grants
  {
    MembershipsConserved(plan, inv, decisions, e, norm, fold, v, g);
    if (v, g) in Members(inv, e) {
      var i :| 0 <= i < |inv.assignments| && inv.assignments[i].volunteer == v
        && inv.assignments[i].group == Some(g) && Some(inv.assignments[i].semester) == e.semester;
      assert inv.assignments[i] in inv.assignments;
    }
    if s :| s in inv.assignments && s.volunteer == v && s.group == Some(g) && Some(s.semester) == e.semester {
      var i :| 0 <= i < |inv.assignments| && inv.assignments[i] == s;
    }
  }

  // ---------- what is left to review ----------

  lemma {:induction false} IssueIn(ws: seq<Award>, v: int, x: Issue)
    ensures x in IssuesOf(ws, v) <==> exists w :: w in ws && w.to == v && x in w.issues
    decreases |ws|
  {
    if ws != [] {
      IssueIn(ws[..|ws| - 1], v, x);
      assert ws == ws[..|ws| - 1] + [ws[|ws| - 1]];
    }
  }

  predicate NoAddress(inv: Inventory, v: int) {
    v in inv.volunteers ==> inv.volunteers[v].email == ""
  }

  /** What the k-th award of a row notes: a missing scope, and a missing address up to this volunteer. */
  lemma AwardNotes(inv: Inventory, norm: string -> string, a: Account, d: Decision, k: nat)
    requires k < |RowOf(inv, norm, a, d).proposed|
    ensures var row := RowOf(inv, norm, a, d); var g := GrantOf(inv, a, d);
      && k < |row.awards| && row.awards[k].to == row.proposed[k] && row.awards[k].grant == g
      && (GroupScopeMissing in row.awards[k].issues <==> g.role == "Gruppeadmin" && g.groups == {})
      && (EmailMissing in row.awards[k].issues <==> exists j :: 0 <= j <= k && NoAddress(inv, row.proposed[j]))
      && !(PendingReview in row.awards[k].issues) && !(EmailShared in row.awards[k].issues)
      && !(IdentityUnresolved in row.awards[k].issues)
  {
    var row := RowOf(inv, norm, a, d);
    var g := GrantOf(inv, a, d);
    AwardsAre(inv, row.proposed, g, Before(row.proposed, d, g), k);
    var upTo := row.proposed[..k + 1];
    assert forall j :: 0 <= j <= k ==> upTo[j] == row.proposed[j];
    forall v ensures Blank(inv, v) <==> NoAddress(inv, v) { }
    if exists j :: 0 <= j <= k && NoAddress(inv, row.proposed[j]) {
      var j :| 0 <= j <= k && NoAddress(inv, row.proposed[j]);
      assert Blank(inv, upTo[j]);
    }
  }

  /** A row lists the volunteers of its account and what is wrong with them or with nobody being proposed. */
  lemma RowSays(plan: Plan, inv: Inventory, decisions: map<int, Decision>, e: Eligibility,
                norm: string -> string, fold: string -> string, i: nat)
    requires AllAccepted(inv, decisions, e) && IsPlan(plan, inv, decisions, e, norm, fold) && i < |inv.accounts|
    ensures |plan.rows| == |inv.accounts|
    ensures var row, a := plan.rows[i], inv.accounts[i];
      && row.account == a.id
      && (row.action.Pending? <==> Undecided(decisions, a)) && (a.id in decisions ==> row.action == decisions[a.id].action)
      && (forall v :: v in row.proposed <==> GoesTo(inv, decisions, norm, a, v))
      && NoDuplicates(row.proposed)
  {
    var a := inv.accounts[i];
    var d := DecisionFor(decisions, a);
    assert IsRow(plan.rows[i], i, inv, decisions, norm);
    assert a in inv.accounts && Accepted(inv, a, d);
    forall v ensures v in plan.rows[i].proposed <==> GoesTo(inv, decisions, norm, a, v) {
      ProposedIff(inv, decisions, norm, a, v);
    }
  }

  lemma RowIssuesIs(plan: Plan, inv: Inventory, decisions: map<int, Decision>, e: Eligibility,
                    norm: string -> string, fold: string -> string, i: nat, g: Grant)
    requires AllAccepted(inv, decisions, e) && IsPlan(plan, inv, decisions, e, norm, fold) && i < |inv.accounts|
    requires g.FromAccount? && GrantsAs(inv, decisions, inv.accounts[i], g)
    ensures |plan.rows| == |inv.accounts|
    ensures var row := plan.rows[i];
      && (IdentityUnresolved in row.issues <==> row.proposed == [] && row.action.Pending?)
      && (GroupScopeMissing in row.issues <==> row.proposed != [] && g.role == "Gruppeadmin" && g.groups == {})
      && (EmailMissing in row.issues <==> exists v :: v in row.proposed && NoAddress(inv, v))
      && PendingReview !in row.issues && EmailShared !in row.issues
  {
    var row, a := plan.rows[i], inv.accounts[i];
    assert IsRow(row, i, inv, decisions, norm);
    GrantIs(inv, decisions, a, g);
    var base := Before(row.proposed, DecisionFor(decisions, a), g);
    AfterNotes(inv, row.proposed, base);
  }

  lemma AfterNotes(inv: Inventory, proposed: seq<int>, base: set<Issue>)
    ensures base <= After(inv, proposed, base) <= base + {EmailMissing}
    ensures EmailMissing !in base ==>
              (EmailMissing in After(inv, proposed, base) <==> exists v :: v in proposed && NoAddress(inv, v))
  {
    if v :| v in proposed && NoAddress(inv, v) {
      var i :| 0 <= i < |proposed| && proposed[i] == v;
      assert Blank(inv, proposed[i]);
    }
    if i :| 0 <= i < |proposed| && Blank(inv, proposed[i]) {
      assert proposed[i] in proposed && NoAddress(inv, proposed[i]);
    }
  }

  /** The issues that the awards of a plan can carry. */
  lemma AwardIssues(plan: Plan, inv: Inventory, decisions: map<int, Decision>, e: Eligibility,
                    norm: string -> string, fold: string -> string, w: Award)
    requires IsPlan(plan, inv, decisions, e, norm, fold) && w in PlanAwards(plan, inv)
    ensures PendingReview !in w.issues && EmailShared !in w.issues && IdentityUnresolved !in w.issues
    ensures GroupScopeMissing in w.issues <==> w.grant.FromAccount? && w.grant.role == "Gruppeadmin" && w.grant.groups == {}
  {
    InPlanAwards(plan, inv, w);
    if w in AllAwards(plan.rows) {
      InAllAwards(plan.rows, w);
      var i :| 0 <= i < |plan.rows| && w in plan.rows[i].awards;
      assert IsRow(plan.rows[i], i, inv, decisions, norm);
      RowAwardIssues(inv, norm, inv.accounts[i], DecisionFor(decisions, inv.accounts[i]), w);
    }
  }

  lemma RowAwardIssues(inv: Inventory, norm: string -> string, a: Account, d: Decision, w: Award)
    requires w in RowOf(inv, norm, a, d).awards
    ensures w.grant.FromAccount?
    ensures PendingReview !in w.issues && EmailShared !in w.issues && IdentityUnresolved !in w.issues
    ensures GroupScopeMissing in w.issues <==> w.grant.role == "Gruppeadmin" && w.grant.groups == {}
  {
    var row, g := RowOf(inv, norm, a, d), GrantOf(inv, a, d);
    var k :| 0 <= k < |row.awards| && row.awards[k] == w;
    if row.proposed != [] { AwardsAre(inv, row.proposed, g, Before(row.proposed, d, g), 0); }
    AwardNotes(inv, norm, a, d, k);
  }

  /** Someone else in the plan has the same address up to case. */
  ghost predicate AddressElsewhere(plan: Plan, fold: string -> string, v: int)
    requires v in plan.individuals
  {
    && plan.individuals[v].email != ""
    && exists u :: u in plan.individuals && u != v && plan.individuals[u].email != ""
         && fold(plan.individuals[u].email) == fold(plan.individuals[v].email)
  }

  lemma SharedIff(plan: Plan, inv: Inventory, decisions: map<int, Decision>, e: Eligibility,
                  norm: string -> string, fold: string -> string, v: int)
    requires IsPlan(plan, inv, decisions, e, norm, fold) && v in plan.individuals
    ensures Shared(inv, PlanAwards(plan, inv), fold, v) <==> AddressElsewhere(plan, fold, v)
  {
    var ws := PlanAwards(plan, inv);
    if Shared(inv, ws, fold, v) {
      var i :| 0 <= i < |ws| && ws[i].to != v && EmailOf(inv, ws[i].to) != ""
        && fold(EmailOf(inv, ws[i].to)) == fold(EmailOf(inv, v));
      assert Awarded(ws, ws[i].to);
      assert ws[i].to in plan.individuals;
    }
    if AddressElsewhere(plan, fold, v) {
      var u :| u in plan.individuals && u != v && plan.individuals[u].email != ""
        && fold(plan.individuals[u].email) == fold(plan.individuals[v].email);
      var i :| 0 <= i < |ws| && ws[i].to == u;
    }
  }

  /** Which issues an individual has, one by one; a missing address has its own lemma. */
  lemma IssuesAre(plan: Plan, inv: Inventory, decisions: map<int, Decision>, e: Eligibility,
                  norm: string -> string, fold: string -> string, v: int)
    requires AllAccepted(inv, decisions, e) && IsPlan(plan, inv, decisions, e, norm, fold) && v in plan.individuals
    ensures var x := plan.individuals[v];
      && IdentityUnresolved !in x.issues
      && (PendingReview in x.issues <==>
            exists a :: a in inv.accounts && GoesTo(inv, decisions, norm, a, v) && !ReviewedMapping(decisions, a))
      && (GroupScopeMissing in x.issues <==>
            exists g :: g in x.grants && g.FromAccount? && g.role == "Gruppeadmin" && g.groups == {})
      && (EmailShared in x.issues <==> AddressElsewhere(plan, fold, v))
  {
    var ws := PlanAwards(plan, inv);
    NotedByAwards(plan, inv, decisions, e, norm, fold, v);
    SharedIff(plan, inv, decisions, e, norm, fold, v);
    PendingIff(plan, inv, decisions, e, norm, fold, v);
    assert plan.individuals[v] == Expected(inv, ws, fold, v);
  }

  lemma {:induction false} NotedByAwards(plan: Plan, inv: Inventory, decisions: map<int, Decision>, e: Eligibility,
                      norm: string -> string, fold: string -> string, v: int)
    requires IsPlan(plan, inv, decisions, e, norm, fold)
    ensures var ws := PlanAwards(plan, inv);
      && PendingReview !in IssuesOf(ws, v) && EmailShared !in IssuesOf(ws, v) && IdentityUnresolved !in IssuesOf(ws, v)
      && (GroupScopeMissing in IssuesOf(ws, v) <==>
            exists g :: g in GrantsTo(ws, v) && g.FromAccount? && g.role == "Gruppeadmin" && g.groups == {})
  {
    var ws := PlanAwards(plan, inv);
    forall w | w in ws
      ensures PendingReview !in w.issues && EmailShared !in w.issues && IdentityUnresolved !in w.issues
      ensures GroupScopeMissing in w.issues <==>
                w.grant.FromAccount? && w.grant.role == "Gruppeadmin" && w.grant.groups == {}
    {
      AwardIssues(plan, inv, decisions, e, norm, fold, w);
    }
    IssueIn(ws, v, PendingReview);
    IssueIn(ws, v, EmailShared);
    IssueIn(ws, v, IdentityUnresolved);
    ScopeIssue(plan, inv, ws, v);
  }

  lemma {:induction false} ScopeIssue(plan: Plan, inv: Inventory, ws: seq<Award>, v: int)
    requires forall w :: w in ws ==> (GroupScopeMissing in w.issues <==>
               w.grant.FromAccount? && w.grant.role == "Gruppeadmin" && w.grant.groups == {})
    ensures GroupScopeMissing in IssuesOf(ws, v) <==>
            exists g :: g in GrantsTo(ws, v) && g.FromAccount? && g.role == "Gruppeadmin" && g.groups == {}
  {
    IssueIn(ws, v, GroupScopeMissing);
    if w :| w in ws && w.to == v && GroupScopeMissing in w.issues { GrantIn(ws, v, w.grant); }
    if g :| g in GrantsTo(ws, v) && g.FromAccount? && g.role == "Gruppeadmin" && g.groups == {} { GrantIn(ws, v, g); }
  }

  lemma PendingIff(plan: Plan, inv: Inventory, decisions: map<int, Decision>, e: Eligibility,
                   norm: string -> string, fold: string -> string, v: int)
    requires AllAccepted(inv, decisions, e) && IsPlan(plan, inv, decisions, e, norm, fold) && v in plan.individuals
    ensures (exists i :: 0 <= i < |plan.individuals[v].grants| && !Reviewed(plan.individuals[v].grants[i])) <==>
            exists a :: a in inv.accounts && GoesTo(inv, decisions, norm, a, v) && !ReviewedMapping(decisions, a)
  {
    var gs := plan.individuals[v].grants;
    if i :| 0 <= i < |gs| && !Reviewed(gs[i]) {
      AccountGrantIff(plan, inv, decisions, e, norm, fold, v, gs[i]);
      var a :| Gives(inv, decisions, norm, a, v, gs[i]);
    }
    if a :| a in inv.accounts && GoesTo(inv, decisions, norm, a, v) && !ReviewedMapping(decisions, a) {
      var g := GrantOf(inv, a, DecisionFor(decisions, a));
      GrantIs(inv, decisions, a, g);
      assert Gives(inv, decisions, norm, a, v, g);
      AccountGrantIff(plan, inv, decisions, e, norm, fold, v, g);
      var i :| 0 <= i < |gs| && gs[i] == g;
    }
  }

  /** Someone up to the volunteer in the list of an account has no address. */
  ghost predicate AddressMissingBefore(plan: Plan, inv: Inventory, v: int) {
    exists i, k, j :: 0 <= i < |plan.rows| && 0 <= j <= k < |plan.rows[i].proposed|
      && plan.rows[i].proposed[k] == v && NoAddress(inv, plan.rows[i].proposed[j])
  }

  lemma RowAddress(plan: Plan, inv: Inventory, decisions: map<int, Decision>, norm: string -> string, w: Award)
    requires |plan.rows| == |inv.accounts| && AreRows(plan.rows, inv, decisions, norm)
    requires w in AllAwards(plan.rows) && EmailMissing in w.issues
    ensures AddressMissingBefore(plan, inv, w.to)
  {
    InAllAwards(plan.rows, w);
    var i :| 0 <= i < |plan.rows| && w in plan.rows[i].awards;
    RowLength(plan, inv, decisions, norm, i);
    var k :| 0 <= k < |plan.rows[i].awards| && plan.rows[i].awards[k] == w;
    assert IsRow(plan.rows[i], i, inv, decisions, norm);
    AwardNotes(inv, norm, inv.accounts[i], DecisionFor(decisions, inv.accounts[i]), k);
    var j :| 0 <= j <= k && NoAddress(inv, plan.rows[i].proposed[j]);
    assert plan.rows[i].proposed[k] == w.to;
  }

  lemma AddressNoted(plan: Plan, inv: Inventory, decisions: map<int, Decision>, norm: string -> string, v: int)
    requires |plan.rows| == |inv.accounts| && AreRows(plan.rows, inv, decisions, norm)
    requires AddressMissingBefore(plan, inv, v)
    ensures exists w :: w in AllAwards(plan.rows) && w.to == v && EmailMissing in w.issues
  {
    var i, k, j :| 0 <= i < |plan.rows| && 0 <= j <= k < |plan.rows[i].proposed|
      && plan.rows[i].proposed[k] == v && NoAddress(inv, plan.rows[i].proposed[j]);
    assert IsRow(plan.rows[i], i, inv, decisions, norm);
    AwardNotes(inv, norm, inv.accounts[i], DecisionFor(decisions, inv.accounts[i]), k);
    assert plan.rows[i].awards[k] in plan.rows[i].awards;
    InAllAwards(plan.rows, plan.rows[i].awards[k]);
  }

  lemma MemberAddress(plan: Plan, inv: Inventory, v: int)
    ensures (exists w :: w in MemberAwards(inv, plan.organization) && w.to == v && EmailMissing in w.issues) <==>
            NoAddress(inv, v) && exists m :: m in plan.organization && m.0 == v
  {
    var ws := MemberAwards(inv, plan.organization);
    if w :| w in ws && w.to == v && EmailMissing in w.issues {
      var i :| 0 <= i < |ws| && ws[i] == w;
      assert plan.organization[i] in plan.organization;
    }
    if m :| NoAddress(inv, v) && m in plan.organization && m.0 == v {
      var i :| 0 <= i < |plan.organization| && plan.organization[i] == m;
      assert ws[i] in ws;
    }
  }

  /** The remaining issue: a missing address is noted for its owner, and for those listed after them. */
  lemma AddressIssueIff(plan: Plan, inv: Inventory, decisions: map<int, Decision>, e: Eligibility,
                        norm: string -> string, fold: string -> string, v: int)
    requires IsPlan(plan, inv, decisions, e, norm, fold) && v in plan.individuals
    ensures EmailMissing in plan.individuals[v].issues <==>
            || AddressMissingBefore(plan, inv, v)
            || (NoAddress(inv, v) && exists m :: m in plan.organization && m.0 == v)
  {
    var own, members := AllAwards(plan.rows), MemberAwards(inv, plan.organization);
    var ws := PlanAwards(plan, inv);
    assert plan.individuals[v] == Expected(inv, ws, fold, v);
    IssueIn(ws, v, EmailMissing);
    MemberAddress(plan, inv, v);
    if w :| w in ws && w.to == v && EmailMissing in w.issues {
      InPlanAwards(plan, inv, w);
      if w in own { RowAddress(plan, inv, decisions, norm, w); }
    }
    if AddressMissingBefore(plan, inv, v) {
      AddressNoted(plan, inv, decisions, norm, v);
      var w :| w in own && w.to == v && EmailMissing in w.issues;
      InPlanAwards(plan, inv, w);
    }
    if w :| w in members && w.to == v && EmailMissing in w.issues { InPlanAwards(plan, inv, w); }
  }

  /** The memberships are listed by volunteer and then by group, each once. */
  lemma OrganizationIsSorted(plan: Plan, inv: Inventory, decisions: map<int, Decision>, e: Eligibility,
                             norm: string -> string, fold: string -> string, i: nat, j: nat)
    requires IsPlan(plan, inv, decisions, e, norm, fold) && i < j < |plan.organization|
    ensures var a, b := plan.organization[i], plan.organization[j]; a.0 < b.0 || (a.0 == b.0 && a.1 < b.1)
  {
    assert Precedes(plan.organization[i], plan.organization[j]);
  }

  // ---------- what is refused ----------

  /** Every reason to refuse the inventory and the eligible groups as such. */
  lemma InventoryRefusedIff(inv: Inventory, decisions: map<int, Decision>, e: Eligibility)
    ensures !InventoryAccepted(inv, decisions, e) <==>
            || ((e.adminGroup.Some? || e.boardGroup.Some?) && e.semester.None?)
            || (e.adminGroup.None? && e.boardGroup.None? && e.semester.Some?)
            || (e.adminGroup.Some? && e.adminGroup.value !in inv.groups)
            || (e.boardGroup.Some? && e.boardGroup.value !in inv.groups)
            || ((e.adminGroup.Some? || e.boardGroup.Some?) && e.semester.Some? && e.semester.value <= 0)
            || (exists i, j :: 0 <= i < j < |inv.accounts| && inv.accounts[i].id == inv.accounts[j].id)
            || (exists i, j :: 0 <= i < j < |inv.volunteerIds| && inv.volunteerIds[i] == inv.volunteerIds[j])
            || (exists id :: id in decisions && forall a :: a in inv.accounts ==> a.id != id)
  {
    DecisionsKnownIff(inv, decisions);
    EligibleAre(e, inv.groups);
    var ids := Ids(inv.accounts);
    assert forall i :: 0 <= i < |ids| ==> ids[i] == inv.accounts[i].id;
    assert NoDuplicates(ids) <==>
        !exists i, j :: 0 <= i < j < |inv.accounts| && inv.accounts[i].id == inv.accounts[j].id;
  }

  lemma EligibleAre(e: Eligibility, groups: set<int>)
    ensures EligibleGroups(e) == {} <==> e.adminGroup.None? && e.boardGroup.None?
    ensures EligibleGroups(e) <= groups <==>
            (e.adminGroup.Some? ==> e.adminGroup.value in groups) && (e.boardGroup.Some? ==> e.boardGroup.value in groups)
  {
    var eligible := EligibleGroups(e);
    assert e.adminGroup.Some? ==> e.adminGroup.value in eligible;
    assert e.boardGroup.Some? ==> e.boardGroup.value in eligible;
    SubsetIff(eligible, groups);
  }

  lemma DecisionsKnownIff(inv: Inventory, decisions: map<int, Decision>)
    ensures decisions.Keys <= (set a | a in inv.accounts :: a.id) <==>
            !exists id :: id in decisions && forall a :: a in inv.accounts ==> a.id != id
  {
    var known := set a | a in inv.accounts :: a.id;
    if id :| id in decisions && forall a :: a in inv.accounts ==> a.id != id {
      assert id !in known;
    } else {
      forall id | id in decisions.Keys ensures id in known { }
      SubsetIff(decisions.Keys, known);
    }
  }

  /** The groups that the decision names, or else those of the account's memberships, are not all known. */
  ghost predicate NamesUnknownGroup(inv: Inventory, a: Account, d: Decision) {
    exists x :: InScope(inv, a, d, x) && x !in inv.groups
  }

  predicate InScope(inv: Inventory, a: Account, d: Decision, x: int) {
    if d.groups.Some? then x in d.groups.value else (a.user, x) in inv.memberships
  }

  lemma UnknownGroupIff(inv: Inventory, a: Account, d: Decision)
    ensures NamesUnknownGroup(inv, a, d) <==> !(AccountGroups(inv, a, d) <= inv.groups)
  {
    var groups := AccountGroups(inv, a, d);
    if NamesUnknownGroup(inv, a, d) {
      var x :| InScope(inv, a, d, x) && x !in inv.groups;
      GroupsAre(inv, a, d, x);
    } else {
      forall x | x in groups ensures x in inv.groups {
        GroupsAre(inv, a, d, x);
        assert InScope(inv, a, d, x);
      }
      SubsetIff(groups, inv.groups);
    }
  }

  /** Every reason to refuse the decision about an account. */
  lemma RefusedIff(inv: Inventory, a: Account, d: Decision)
    ensures !Accepted(inv, a, d) <==>
            || d.action.Invalid?
            || (if d.role.Some? then d.role.value else a.role) !in ["Admin", "Gruppeadmin", "Frivillig", "Tilskuer"]
            || NamesUnknownGroup(inv, a, d)
            || (exists i, j :: 0 <= i < j < |d.selected| && d.selected[i] == d.selected[j])
            || (exists v :: v in d.selected && v !in inv.volunteers)
            || (d.action.Map? && d.selected == [])
            || (!d.action.Map? && d.selected != [])
  {
    UnknownGroupIff(inv, a, d);
  }
}
