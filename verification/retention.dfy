/** Retention statistics per semester, of the whole organisation and of one group. */
module Retention {
  import opened Sets
  import opened Wrappers

  datatype Assignment = Assignment(volunteer: int, group: int, semester: int)

  // ---------- semester codes: year * 10 + 1 in spring, + 2 in autumn ----------

  /** SQL's remainder by ten takes the sign of the dividend. */
  function Season(s: int): int {
    if s >= 0 then s % 10 else -((-s) % 10)
  }

  function Previous(s: int): int {
    if Season(s) == 1 then s - 9 else s - 1
  }

  function Next(s: int): int {
    if Season(s) == 1 then s + 1 else s + 9
  }

  /** get_next_semester_code; it refuses what is neither spring nor autumn. */
  function NextCode(s: int): Option<int> {
    var year, season := s / 10, s % 10;
    if season == 1 then Some(year * 10 + 2)
    else if season == 2 then Some((year + 1) * 10 + 1)
    else None
  }

  predicate Valid(s: int) {
    s > 0 && (s % 10 == 1 || s % 10 == 2)
  }

  /** The expressions in the queries agree with the function, on the codes that it accepts. */
  lemma NextAgrees(s: int)
    requires s > 0
    ensures NextCode(s) == if Valid(s) then Some(Next(s)) else None
    ensures Valid(s) ==> Valid(Next(s)) && Next(s) > s
  {
    assert s == s / 10 * 10 + s % 10;
  }

  /** Exactly when the semester before the next one is the semester itself; for codes from 1 on, the valid ones. */
  lemma PreviousOfNextIff(s: int)
    ensures Previous(Next(s)) == s <==> Season(s) == 1 || (s % 10 == 2 && s > -9)
    ensures s > 0 ==> (Previous(Next(s)) == s <==> Valid(s))
  {
  }

  // ---------- the queries ----------

  predicate Served(rows: seq<Assignment>, volunteer: int, semester: int) {
    exists i :: 0 <= i < |rows| && rows[i].volunteer == volunteer && rows[i].semester == semester
  }

  predicate ServedIn(rows: seq<Assignment>, volunteer: int, group: int, semester: int) {
    exists i :: 0 <= i < |rows| && rows[i] == Assignment(volunteer, group, semester)
  }

  /** The join of two history tables on volunteer and group. */
  predicate StayedInAGroup(rows: seq<Assignment>, volunteer: int, semester: int, next: int) {
    exists i :: 0 <= i < |rows| && rows[i].volunteer == volunteer && rows[i].semester == semester &&
                ServedIn(rows, volunteer, rows[i].group, next)
  }

  function OfGroup(rows: seq<Assignment>, group: int): seq<Assignment> {
    if rows == [] then [] else (if rows[0].group == group then [rows[0]] else []) + OfGroup(rows[1..], group)
  }

  /** SELECT DISTINCT semester, volunteer_id, of one semester; a volunteer with several roles appears once. */
  function Members(rows: seq<Assignment>, semester: int): seq<int> {
    if rows == [] then []
    else
      var before := Members(rows[..|rows| - 1], semester);
      var last := rows[|rows| - 1];
      if last.semester == semester && last.volunteer !in before then before + [last.volunteer] else before
  }

  /** sum(case when ... then 1 else 0 end) over the members. */
  function Sum(members: seq<int>, holds: int -> bool): nat {
    if members == [] then 0
    else Sum(members[..|members| - 1], holds) + if holds(members[|members| - 1]) then 1 else 0
  }

  datatype Counts = Counts(total: nat, fromPrev: nat, toNextSameGroup: nat, toNext: nat)

  /** One row of get_org_retention_stats. */
  function OrgCounts(rows: seq<Assignment>, s: int): Counts {
    var members := Members(rows, s);
    Counts(|members|,
           Sum(members, v => Served(rows, v, Previous(s))),
           Sum(members, v => StayedInAGroup(rows, v, s, Next(s))),
           Sum(members, v => Served(rows, v, Next(s))))
  }

  /** One row of get_group_retention_stats: the members of a group, who may go on in any group. */
  function GroupCounts(rows: seq<Assignment>, group: int, s: int): Counts {
    var members := Members(OfGroup(rows, group), s);
    Counts(|members|,
           Sum(members, v => ServedIn(rows, v, group, Previous(s))),
           Sum(members, v => ServedIn(rows, v, group, Next(s))),
           Sum(members, v => Served(rows, v, Next(s))))
  }

  datatype Stats = Stats(total: int, fromPrev: int, newMembers: int, toNextSameGroup: int, toNextOtherGroup: int, toNext: int, churned: int)

  /** _map_retention_stat_row. */
  function StatsOf(c: Counts): Stats {
    var other := c.toNext - c.toNextSameGroup;
    Stats(c.total, c.fromPrev, c.total - c.fromPrev, c.toNextSameGroup, if other < 0 then 0 else other, c.toNext, c.total - c.toNext)
  }

  function Org(rows: seq<Assignment>, s: int): Stats {
    StatsOf(OrgCounts(rows, s))
  }

  function Group(rows: seq<Assignment>, group: int, s: int): Stats {
    StatsOf(GroupCounts(rows, group, s))
  }

  // ---------- the sums count sets ----------

  ghost function MemberSet(rows: seq<Assignment>, s: int): set<int> {
    set i | 0 <= i < |rows| && rows[i].semester == s :: rows[i].volunteer
  }

  lemma {:induction false} MembersAre(rows: seq<Assignment>, s: int)
    ensures forall v :: v in Members(rows, s) <==> v in MemberSet(rows, s)
    ensures forall i, j :: 0 <= i < j < |Members(rows, s)| ==> Members(rows, s)[i] != Members(rows, s)[j]
    decreases |rows|
  {
    if rows != [] {
      var n := |rows| - 1;
      MembersAre(rows[..n], s);
      MemberSetStep(rows, s);
    }
  }

  lemma MemberSetStep(rows: seq<Assignment>, s: int)
    requires rows != []
    ensures var n := |rows| - 1;
      MemberSet(rows, s) == MemberSet(rows[..n], s) + if rows[n].semester == s then {rows[n].volunteer} else {}
  {
    var n := |rows| - 1;
    forall v | v in MemberSet(rows, s) ensures v in MemberSet(rows[..n], s) || (v == rows[n].volunteer && rows[n].semester == s) {
      var i :| 0 <= i < |rows| && rows[i].semester == s && rows[i].volunteer == v;
      if i < n { assert rows[..n][i] == rows[i]; }
    }
    forall v | v in MemberSet(rows[..n], s) ensures v in MemberSet(rows, s) {
      var i :| 0 <= i < n && rows[..n][i].semester == s && rows[..n][i].volunteer == v;
      assert rows[i] == rows[..n][i];
    }
    assert rows[n].semester == s ==> rows[n].volunteer in MemberSet(rows, s);
  }

  lemma MemberIff(rows: seq<Assignment>, v: int, s: int)
    ensures v in MemberSet(rows, s) <==> Served(rows, v, s)
  {
  }

  /** A sum over a list without repetitions counts a set. */
  lemma {:induction false} SumCounts(members: seq<int>, holds: int -> bool, counted: set<int>)
    requires forall i, j :: 0 <= i < j < |members| ==> members[i] != members[j]
    requires forall v :: v in counted <==> v in members && holds(v)
    ensures Sum(members, holds) == |counted|
    decreases |members|
  {
    if members == [] {
      assert forall v :: v in counted ==> v in members;
      assert forall v :: v !in counted;
    } else {
      var n := |members| - 1;
      var last := members[n];
      assert members == members[..n] + [last];
      SumCounts(members[..n], holds, counted - {last});
      assert last !in members[..n];
    }
  }

  /** The volunteers who stay in one of their groups. */
  ghost function Stayers(rows: seq<Assignment>, s: int, next: int): set<int> {
    set v | v in MemberSet(rows, s) && StayedInAGroup(rows, v, s, next)
  }

  /** What the counts of the organisation mean. */
  lemma OrgCountsAre(rows: seq<Assignment>, s: int)
    ensures var c := OrgCounts(rows, s);
      && c.total == |MemberSet(rows, s)|
      && c.fromPrev == |MemberSet(rows, s) * MemberSet(rows, Previous(s))|
      && c.toNextSameGroup == |Stayers(rows, s, Next(s))|
      && c.toNext == |MemberSet(rows, s) * MemberSet(rows, Next(s))|
  {
    var members, all := Members(rows, s), MemberSet(rows, s);
    MembersAre(rows, s);
    forall v: int, t: int ensures v in MemberSet(rows, t) <==> Served(rows, v, t) { MemberIff(rows, v, t); }
    ListCounts(members, all);
    SumCounts(members, v => Served(rows, v, Previous(s)), all * MemberSet(rows, Previous(s)));
    SumCounts(members, v => StayedInAGroup(rows, v, s, Next(s)), Stayers(rows, s, Next(s)));
    SumCounts(members, v => Served(rows, v, Next(s)), all * MemberSet(rows, Next(s)));
  }

  lemma {:induction false} ListCounts(members: seq<int>, all: set<int>)
    requires forall i, j :: 0 <= i < j < |members| ==> members[i] != members[j]
    requires forall v :: v in all <==> v in members
    ensures |members| == |all|
    decreases |members|
  {
    if members == [] {
      assert forall v :: v in all ==> v in members;
      assert forall v :: v !in all;
    } else {
      var n := |members| - 1;
      assert members == members[..n] + [members[n]];
      ListCounts(members[..n], all - {members[n]});
    }
  }

  // ---------- the flow of members ----------

  /** 0 <= same group <= to next <= total, so the cut at zero never cuts, and everybody goes exactly one way. */
  lemma NothingIsCut(rows: seq<Assignment>, s: int)
    ensures var t := Org(rows, s);
      && 0 <= t.toNextSameGroup <= t.toNext <= t.total && 0 <= t.fromPrev <= t.total
      && t.toNextOtherGroup == t.toNext - t.toNextSameGroup
      && t.total == t.toNextSameGroup + t.toNextOtherGroup + t.churned
  {
    OrgCountsAre(rows, s);
    var all, next := MemberSet(rows, s), MemberSet(rows, Next(s));
    forall v | v in Stayers(rows, s, Next(s)) ensures v in next {
      var i :| 0 <= i < |rows| && rows[i].volunteer == v && rows[i].semester == s && ServedIn(rows, v, rows[i].group, Next(s));
      var j :| 0 <= j < |rows| && rows[j] == Assignment(v, rows[i].group, Next(s));
      assert rows[j].semester == Next(s);
    }
    SubsetIsNoLarger(Stayers(rows, s, Next(s)), all * next);
    SubsetIsNoLarger(all * next, all);
    SubsetIsNoLarger(all * MemberSet(rows, Previous(s)), all);
  }

  /** Whoever stays after a valid semester is whoever the next one has from before. */
  lemma StayersArrive(rows: seq<Assignment>, s: int)
    requires Previous(Next(s)) == s
    ensures Org(rows, Next(s)).fromPrev == Org(rows, s).toNext
  {
    OrgCountsAre(rows, s);
    OrgCountsAre(rows, Next(s));
    assert MemberSet(rows, s) * MemberSet(rows, Next(s)) == MemberSet(rows, Next(s)) * MemberSet(rows, s);
  }

  /** It holds for every table exactly for those codes. */
  lemma StayersArriveIff(s: int)
    ensures (forall rows: seq<Assignment> :: Org(rows, Next(s)).fromPrev == Org(rows, s).toNext) <==> Previous(Next(s)) == s
  {
    if Previous(Next(s)) == s {
      forall rows: seq<Assignment> ensures Org(rows, Next(s)).fromPrev == Org(rows, s).toNext { StayersArrive(rows, s); }
    } else {
      var rows := [Assignment(1, 1, s), Assignment(1, 1, Next(s))];
      OrgCountsAre(rows, s);
      OrgCountsAre(rows, Next(s));
      assert rows[0].volunteer == 1 && rows[1].volunteer == 1;
      MemberIff(rows, 1, s);
      MemberIff(rows, 1, Next(s));
      assert 1 in MemberSet(rows, s) * MemberSet(rows, Next(s));
      assert MemberSet(rows, Previous(Next(s))) == {};
      assert Org(rows, s).toNext > 0;
      assert Org(rows, Next(s)).fromPrev == 0;
    }
  }

  /** Members of the next semester: those before, without the churned, with the new. */
  lemma Flow(rows: seq<Assignment>, s: int)
    requires Previous(Next(s)) == s
    ensures Org(rows, Next(s)).total == Org(rows, s).total - Org(rows, s).churned + Org(rows, Next(s)).newMembers
  {
    StayersArrive(rows, s);
  }

  function Later(s: int, n: nat): int {
    if n == 0 then s else Next(Later(s, n - 1))
  }

  /** f(0) + ... + f(n - 1) */
  function SumTo(f: nat -> int, n: nat): int {
    if n == 0 then 0 else SumTo(f, n - 1) + f(n - 1)
  }

  function TotalAt(rows: seq<Assignment>, s: int): nat -> int { (k: nat) => Org(rows, Later(s, k)).total }
  function ChurnedAt(rows: seq<Assignment>, s: int): nat -> int { (k: nat) => Org(rows, Later(s, k)).churned }
  function JoinedAt(rows: seq<Assignment>, s: int): nat -> int { (k: nat) => Org(rows, Later(s, k + 1)).newMembers }

  lemma {:induction false} LaterIsValid(s: int, n: nat)
    requires Valid(s)
    ensures Valid(Later(s, n)) && Later(s, n) >= s + n
  {
    if n > 0 {
      LaterIsValid(s, n - 1);
      NextAgrees(Later(s, n - 1));
    }
  }

  lemma {:induction false} Telescopes(total: nat -> int, lost: nat -> int, gained: nat -> int, n: nat)
    requires forall k: nat :: total(k + 1) == total(k) - lost(k) + gained(k)
    ensures total(n) == total(0) - SumTo(lost, n) + SumTo(gained, n)
  {
    if n > 0 {
      Telescopes(total, lost, gained, n - 1);
      assert total(n - 1 + 1) == total(n - 1) - lost(n - 1) + gained(n - 1);
    }
  }

  /** Over any number of consecutive semesters: members at the end are members at the start, minus churned, plus new. */
  lemma {:induction false} FlowTelescopes(rows: seq<Assignment>, s: int, n: nat)
    requires Valid(s)
    ensures Org(rows, Later(s, n)).total ==
            Org(rows, s).total - SumTo(ChurnedAt(rows, s), n) + SumTo(JoinedAt(rows, s), n)
  {
    forall k: nat
      ensures TotalAt(rows, s)(k + 1) == TotalAt(rows, s)(k) - ChurnedAt(rows, s)(k) + JoinedAt(rows, s)(k)
    {
      FlowAt(rows, s, k);
    }
    Telescopes(TotalAt(rows, s), ChurnedAt(rows, s), JoinedAt(rows, s), n);
    TotalIs(rows, s, n);
    TotalIs(rows, s, 0);
  }

  lemma {:induction false} TotalIs(rows: seq<Assignment>, s: int, n: nat)
    ensures TotalAt(rows, s)(n) == Org(rows, Later(s, n)).total
    ensures Later(s, 0) == s
  {
  }

  lemma FlowAt(rows: seq<Assignment>, s: int, k: nat)
    requires Valid(s)
    ensures TotalAt(rows, s)(k + 1) == TotalAt(rows, s)(k) - ChurnedAt(rows, s)(k) + JoinedAt(rows, s)(k)
  {
    LaterFlow(rows, s, k);
  }

  lemma LaterFlow(rows: seq<Assignment>, s: int, k: nat)
    requires Valid(s)
    ensures Org(rows, Later(s, k + 1)).total ==
            Org(rows, Later(s, k)).total - Org(rows, Later(s, k)).churned + Org(rows, Later(s, k + 1)).newMembers
  {
    LaterIsValid(s, k);
    PreviousOfNextIff(Later(s, k));
    Flow(rows, Later(s, k));
  }

  // ---------- one group ----------

  lemma {:induction false} OfGroupIs(rows: seq<Assignment>, group: int, a: Assignment)
    ensures a in OfGroup(rows, group) <==> a in rows && a.group == group
  {
    if rows != [] {
      OfGroupIs(rows[1..], group, a);
      assert rows == [rows[0]] + rows[1..];
    }
  }

  lemma {:induction false} GroupMemberIff(rows: seq<Assignment>, group: int, v: int, s: int)
    ensures v in MemberSet(OfGroup(rows, group), s) <==> ServedIn(rows, v, group, s)
  {
    var a, own := Assignment(v, group, s), OfGroup(rows, group);
    OfGroupIs(rows, group, a);
    if v in MemberSet(own, s) {
      var i :| 0 <= i < |own| && own[i].semester == s && own[i].volunteer == v;
      OfGroupIs(rows, group, own[i]);
      assert own[i] == a;
    }
    if ServedIn(rows, v, group, s) {
      assert a in own;
      var i :| 0 <= i < |own| && own[i] == a;
    }
  }

  lemma {:induction false} GroupCountsAre(rows: seq<Assignment>, group: int, s: int)
    ensures var own := OfGroup(rows, group);
      var c := GroupCounts(rows, group, s);
      && c.total == |MemberSet(own, s)|
      && c.fromPrev == |MemberSet(own, s) * MemberSet(own, Previous(s))|
      && c.toNextSameGroup == |MemberSet(own, s) * MemberSet(own, Next(s))|
      && c.toNext == |MemberSet(own, s) * MemberSet(rows, Next(s))|
  {
    var own := OfGroup(rows, group);
    var members, all := Members(own, s), MemberSet(own, s);
    MembersAre(own, s);
    forall v: int, t: int ensures v in MemberSet(own, t) <==> ServedIn(rows, v, group, t) { GroupMemberIff(rows, group, v, t); }
    forall v: int, t: int ensures v in MemberSet(rows, t) <==> Served(rows, v, t) { MemberIff(rows, v, t); }
    ListCounts(members, all);
    SumCounts(members, v => ServedIn(rows, v, group, Previous(s)), all * MemberSet(own, Previous(s)));
    SumCounts(members, v => ServedIn(rows, v, group, Next(s)), all * MemberSet(own, Next(s)));
    SumCounts(members, v => Served(rows, v, Next(s)), all * MemberSet(rows, Next(s)));
  }

  /** The same bounds for a group, and its own flow: those who stay in the group arrive, and the others are new to it. */
  lemma GroupFlow(rows: seq<Assignment>, group: int, s: int)
    ensures var t := Group(rows, group, s);
      && 0 <= t.toNextSameGroup <= t.toNext <= t.total && 0 <= t.fromPrev <= t.total
      && t.toNextOtherGroup == t.toNext - t.toNextSameGroup
      && t.total == t.toNextSameGroup + t.toNextOtherGroup + t.churned
    ensures Previous(Next(s)) == s ==>
              && Group(rows, group, Next(s)).fromPrev == Group(rows, group, s).toNextSameGroup
              && Group(rows, group, Next(s)).total == Group(rows, group, s).toNextSameGroup + Group(rows, group, Next(s)).newMembers
  {
    var own := OfGroup(rows, group);
    GroupCountsAre(rows, group, s);
    GroupCountsAre(rows, group, Next(s));
    var all, next := MemberSet(own, s), MemberSet(own, Next(s));
    forall v | v in next ensures v in MemberSet(rows, Next(s)) {
      GroupMemberIff(rows, group, v, Next(s));
      var i :| 0 <= i < |rows| && rows[i] == Assignment(v, group, Next(s));
      assert rows[i].semester == Next(s);
    }
    SubsetIsNoLarger(all * next, all * MemberSet(rows, Next(s)));
    SubsetIsNoLarger(all * MemberSet(rows, Next(s)), all);
    SubsetIsNoLarger(all * MemberSet(own, Previous(s)), all);
    assert next * all == all * next;
  }

  /** Nobody is counted in a group who is not counted in the organisation. */
  lemma GroupWithinOrg(rows: seq<Assignment>, group: int, s: int)
    ensures Group(rows, group, s).total <= Org(rows, s).total
    ensures Group(rows, group, s).toNext <= Org(rows, s).toNext
    ensures Group(rows, group, s).toNextSameGroup <= Org(rows, s).toNextSameGroup
  {
    var own := OfGroup(rows, group);
    GroupCountsAre(rows, group, s);
    OrgCountsAre(rows, s);
    forall v | v in MemberSet(own, s)
      ensures v in MemberSet(rows, s)
      ensures v in MemberSet(own, Next(s)) ==> v in Stayers(rows, s, Next(s))
    {
      GroupMemberIff(rows, group, v, s);
      GroupMemberIff(rows, group, v, Next(s));
      var i :| 0 <= i < |rows| && rows[i] == Assignment(v, group, s);
      assert rows[i].volunteer == v && rows[i].semester == s && rows[i].group == group;
    }
    SubsetIsNoLarger(MemberSet(own, s), MemberSet(rows, s));
    SubsetIsNoLarger(MemberSet(own, s) * MemberSet(rows, Next(s)), MemberSet(rows, s) * MemberSet(rows, Next(s)));
    SubsetIsNoLarger(MemberSet(own, s) * MemberSet(own, Next(s)), Stayers(rows, s, Next(s)));
  }
}
