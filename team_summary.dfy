/** The per-team summary cards: one card per team with its head count and status counts. */
module TeamSummary {
  import opened Seqs
  import opened Text
  import opened Entities
  import opened Derivations

  datatype TeamStat = TeamStat(team: Team, total: nat, active: nat, pending: nat, hiring: nat, backfill: nat)

  /** `emp => emp.team === id && emp.status === status` */
  function MemberWithStatus(id: string, status: string): Employee -> bool {
    (e: Employee) => e.team == id && e.status == status
  }

  /**
   * What a card shows: the team itself, the number of employees whose team string is exactly
   * the team's id, and among those the number holding each declared status exactly.
   */
  predicate IsStatOf(s: TeamStat, team: Team, es: seq<Employee>) {
    && s.team == team
    && s.total == KeyCount(TeamOf, team.id, es)
    && s.active == Count(MemberWithStatus(team.id, "Active"), es)
    && s.pending == Count(MemberWithStatus(team.id, "Pending"), es)
    && s.hiring == Count(MemberWithStatus(team.id, "Hiring"), es)
    && s.backfill == Count(MemberWithStatus(team.id, "Backfill"), es)
  }

  /** `employees.filter((emp) => emp.team === team.id)` */
  function Members(team: Team, es: seq<Employee>): seq<Employee> {
    Filter(KeyIs(TeamOf, team.id), es)
  }

  /** Counting a status among a team's members counts the employees in that team with that status. */
  lemma StatusAmongMembers(team: Team, status: string, es: seq<Employee>)
    ensures KeyCount(StatusOf, status, Members(team, es)) == Count(MemberWithStatus(team.id, status), es)
  {
    var p := KeyIs(StatusOf, status);
    var q := KeyIs(TeamOf, team.id);
    var pq := MemberWithStatus(team.id, status);
    forall e | e in es ensures pq(e) == (p(e) && q(e)) {
      assert p(e) == (StatusOf(e) == status);
      assert q(e) == (TeamOf(e) == team.id);
    }
    FilterAnd(p, q, pq, es);
  }

  /** One card's numbers. */
  function StatOf(team: Team, es: seq<Employee>): (s: TeamStat)
    ensures IsStatOf(s, team, es)
  {
    var members := Members(team, es);
    StatusAmongMembers(team, "Active", es);
    StatusAmongMembers(team, "Pending", es);
    StatusAmongMembers(team, "Hiring", es);
    StatusAmongMembers(team, "Backfill", es);
    TeamStat(
      team,
      |members|,
      KeyCount(StatusOf, "Active", members),
      KeyCount(StatusOf, "Pending", members),
      KeyCount(StatusOf, "Hiring", members),
      KeyCount(StatusOf, "Backfill", members))
  }

  /** `teamStats`: one entry per team, in the order of `teams`. */
  function TeamStats(teams: seq<Team>, es: seq<Employee>): (r: seq<TeamStat>)
    ensures |r| == |teams|
    ensures forall i :: 0 <= i < |teams| ==> IsStatOf(r[i], teams[i], es)
  {
    if teams == [] then [] else [StatOf(teams[0], es)] + TeamStats(teams[1..], es)
  }

  /**
   * A card's four status counts never exceed its total, and they reach it exactly when every
   * member of the team holds one of the four declared statuses.
   */
  lemma StatusCountsBound(s: TeamStat, team: Team, es: seq<Employee>)
    requires IsStatOf(s, team, es)
    ensures s.active + s.pending + s.hiring + s.backfill <= s.total
    ensures s.active + s.pending + s.hiring + s.backfill == s.total
        <==> forall e :: e in es && e.team == team.id ==> IsCanonical(e.status)
  {
    var members := Members(team, es);
    var cs := CanonicalStatuses;
    StatusAmongMembers(team, cs[0], es);
    StatusAmongMembers(team, cs[1], es);
    StatusAmongMembers(team, cs[2], es);
    StatusAmongMembers(team, cs[3], es);
    CanonicalStatusesDistinct();
    SumKeyCountsIsCount(StatusOf, cs, members);
    SumFourKeyCounts(StatusOf, cs[0], cs[1], cs[2], cs[3], members);
    assert cs == [cs[0], cs[1], cs[2], cs[3]];
    CountIsLength(KeyIn(StatusOf, cs), members);
    forall e ensures e in members <==> e in es && e.team == team.id {
      assert KeyIs(TeamOf, team.id)(e) == (e.team == team.id);
    }
    forall e | e in members ensures KeyIn(StatusOf, cs)(e) == IsCanonical(e.status) {
      KeyInApply(StatusOf, cs, e);
    }
  }

  /** A card's total is the dashboard's `byTeam` badge for the same team. */
  lemma TotalIsByTeamBadge(stats: EmployeeStats, es: seq<Employee>, teams: seq<Team>, i: nat)
    requires IsStatsOf(stats, es, teams)
    requires i < |teams|
    ensures teams[i].id in stats.byTeam
    ensures TeamStats(teams, es)[i].total == stats.byTeam[teams[i].id]
  {
    assert teams[i] in teams;
  }

  /** The ids of the teams, in order. */
  function IdsOf(teams: seq<Team>): (ids: seq<string>)
    ensures |ids| == |teams|
    ensures forall i :: 0 <= i < |teams| ==> ids[i] == teams[i].id
  {
    if teams == [] then [] else [teams[0].id] + IdsOf(teams[1..])
  }

  /** The cards' totals, added up. */
  function SumTotals(r: seq<TeamStat>): nat {
    if r == [] then 0 else r[0].total + SumTotals(r[1..])
  }

  lemma {:induction false} SumTotalsIsSumKeyCounts(teams: seq<Team>, es: seq<Employee>)
    ensures SumTotals(TeamStats(teams, es)) == SumKeyCounts(TeamOf, IdsOf(teams), es)
  {
    if teams != [] {
      SumTotalsIsSumKeyCounts(teams[1..], es);
      var r := TeamStats(teams, es);
      assert r[1..] == TeamStats(teams[1..], es);
      assert IdsOf(teams)[1..] == IdsOf(teams[1..]);
    }
  }

  /** With distinct team ids, nobody is counted on two cards, so the totals add up to at most the list length. */
  lemma TotalsBound(teams: seq<Team>, es: seq<Employee>)
    requires NoDups(IdsOf(teams))
    ensures SumTotals(TeamStats(teams, es)) <= |es|
  {
    SumTotalsIsSumKeyCounts(teams, es);
    SumKeyCountsIsCount(TeamOf, IdsOf(teams), es);
  }

  /**
   * For the dashboard's own derived teams the cards account for everybody exactly when every
   * employee's team string is non-empty and has no surrounding blanks.
   */
  lemma DerivedTeamTotals(es: seq<Employee>)
    ensures SumTotals(TeamStats(Teams(es), es)) <= |es|
    ensures SumTotals(TeamStats(Teams(es), es)) == |es|
        <==> forall e :: e in es ==> IsTrimmed(e.team) && e.team != ""
  {
    var ids := TeamIds(es);
    TeamsSpec(es);
    IdsOfTeams(ids);
    SumTotalsIsSumKeyCounts(Teams(es), es);
    SumKeyCountsIsCount(TeamOf, ids, es);
    CountIsLength(KeyIn(TeamOf, ids), es);
    InTeamIds(es, es);
  }

  lemma IdsOfTeams(names: seq<string>)
    ensures IdsOf(TeamsOf(names)) == names
  {
    var ids := IdsOf(TeamsOf(names));
    assert |ids| == |names|;
    forall i | 0 <= i < |names| ensures ids[i] == names[i] {
    }
  }
}
