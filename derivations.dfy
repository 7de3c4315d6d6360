/**
 * What the dashboard page derives from the employee list on every change: the teams and their
 * colours, the levels and per-level counts, the KPI numbers, the filtered list and its grouping
 * by team.
 */
module Derivations {
  import opened Seqs
  import opened Text
  import opened Entities

  /** The seven purple shades teams are coloured with, in order. */
  const Palette: seq<string> := ["#8A05BE", "#B64ACB", "#6D28D9", "#9333EA", "#7C3AED", "#5B21B6", "#A855F7"]

  function TeamOf(e: Employee): string { e.team }
  function StatusOf(e: Employee): string { e.status }
  function TrimmedTeamOf(e: Employee): string { Trim(e.team) }
  function TrimmedLevelOf(e: Employee): string { Trim(e.level) }

  /** `employees.map(key)` */
  function MapKey(key: Employee -> string, es: seq<Employee>): (r: seq<string>)
    ensures |r| == |es|
    ensures forall i :: 0 <= i < |es| ==> r[i] == key(es[i])
  {
    seq(|es|, i requires 0 <= i < |es| => key(es[i]))
  }

  lemma MapKeyMembership(key: Employee -> string, es: seq<Employee>, v: string)
    ensures v in MapKey(key, es) <==> exists e :: e in es && key(e) == v
  {
    var m := MapKey(key, es);
    if v in m {
      var i :| 0 <= i < |m| && m[i] == v;
      assert es[i] in es;
    }
    if exists e :: e in es && key(e) == v {
      var e :| e in es && key(e) == v;
      var i :| 0 <= i < |es| && es[i] == e;
      assert m[i] == v;
    }
  }

  predicate NonEmpty(s: string) { s != "" }

  /** `.map(key).filter(v => v && v.length > 0)`: the non-blank keys, in employee order. */
  function NonBlankKeys(key: Employee -> string, es: seq<Employee>): seq<string> {
    Filter(NonEmpty, MapKey(key, es))
  }

  // ---------------------------------------------------------------- teams

  /** `Array.from(new Set(...))` over the trimmed, non-blank team names. */
  function TeamIds(es: seq<Employee>): seq<string> {
    Dedup(NonBlankKeys(TrimmedTeamOf, es))
  }

  /** `names.map((name, i) => ({ id: name, name, color: palette[i % palette.length] }))` */
  function TeamsOf(names: seq<string>): (ts: seq<Team>)
    ensures |ts| == |names|
    ensures forall i :: 0 <= i < |names| ==> ts[i] == Team(names[i], names[i], Palette[i % 7])
  {
    seq(|names|, i requires 0 <= i < |names| => Team(names[i], names[i], Palette[i % |Palette|]))
  }

  /** The teams shown on the page. */
  function Teams(es: seq<Employee>): seq<Team> {
    TeamsOf(TeamIds(es))
  }

  /** A team id is one of the trimmed non-blank team names of some employee. */
  lemma TeamIdMembership(es: seq<Employee>, id: string)
    ensures id in TeamIds(es) <==> id != "" && exists e :: e in es && Trim(e.team) == id
  {
    MapKeyMembership(TrimmedTeamOf, es, id);
  }

  /**
   * The teams: one per distinct trimmed non-blank team name, no two alike, id and name equal,
   * coloured through the palette by position, in order of first appearance.
   */
  lemma TeamsSpec(es: seq<Employee>)
    ensures var ids := TeamIds(es);
      && |Teams(es)| == |ids|
      && NoDups(ids)
      && (forall i :: 0 <= i < |ids| ==> Teams(es)[i] == Team(ids[i], ids[i], Palette[i % 7]))
      && (forall id :: id in ids ==> id != "" && IsTrimmed(id))
      && (forall i, j :: 0 <= i < j < |ids| ==>
            IndexOf(NonBlankKeys(TrimmedTeamOf, es), ids[i]) < IndexOf(NonBlankKeys(TrimmedTeamOf, es), ids[j]))
  {
    TeamIdsClean(es);
    DedupFirstSeenOrder(NonBlankKeys(TrimmedTeamOf, es));
  }

  /** Team ids are never empty and never carry surrounding blanks. */
  lemma TeamIdsClean(es: seq<Employee>)
    ensures forall id :: id in TeamIds(es) ==> id != "" && IsTrimmed(id)
  {
    forall id | id in TeamIds(es) ensures id != "" && IsTrimmed(id) {
      var m := MapKey(TrimmedTeamOf, es);
      assert id in m;
      var i :| 0 <= i < |m| && m[i] == id;
    }
  }

  /** The eighth team wraps around to the first colour. */
  lemma PaletteWraps(es: seq<Employee>, i: nat)
    requires i + 7 < |Teams(es)|
    ensures Teams(es)[i].color == Teams(es)[i + 7].color
  {
    assert (i + 7) % 7 == i % 7;
  }

  /** An employee's team string is a team id exactly when it has no surrounding blanks and is not empty. */
  lemma OwnTeamIsTeamId(es: seq<Employee>, e: Employee)
    requires e in es
    ensures e.team in TeamIds(es) <==> IsTrimmed(e.team) && e.team != ""
  {
    TeamIdsClean(es);
    if IsTrimmed(e.team) && e.team != "" {
      TrimTrimmed(e.team);
      TeamIdMembership(es, e.team);
    }
  }

  /** For employees drawn from `es`: their team string is one of its team ids exactly when trimmed and non-empty. */
  lemma {:induction false} InTeamIds(es: seq<Employee>, s: seq<Employee>)
    requires forall e :: e in s ==> e in es
    ensures forall e :: e in s ==> (KeyIn(TeamOf, TeamIds(es))(e) <==> IsTrimmed(e.team) && e.team != "")
  {
    var ids := TeamIds(es);
    forall e | e in s ensures KeyIn(TeamOf, ids)(e) <==> IsTrimmed(e.team) && e.team != "" {
      OwnTeamIsTeamId(es, e);
      KeyInApply(TeamOf, ids, e);
    }
  }

  lemma KeyInApply(key: Employee -> string, vs: seq<string>, e: Employee)
    ensures KeyIn(key, vs)(e) == (key(e) in vs)
  {
  }

  /** Employees in teams `x`, `y`, `x` give the teams `x` and `y`, in that order. */
  lemma FirstSeenExample(es: seq<Employee>, x: string, y: string)
    requires |es| == 3 && es[0].team == x && es[1].team == y && es[2].team == x
    requires IsTrimmed(x) && IsTrimmed(y) && x != "" && y != "" && x != y
    ensures TeamIds(es) == [x, y]
    ensures Teams(es) == [Team(x, x, Palette[0]), Team(y, y, Palette[1])]
  {
    ThreeTeamIds(es, x, y);
    TwoTeams(x, y);
  }

  lemma ThreeTeamIds(es: seq<Employee>, x: string, y: string)
    requires |es| == 3 && es[0].team == x && es[1].team == y && es[2].team == x
    requires IsTrimmed(x) && IsTrimmed(y) && x != "" && y != "" && x != y
    ensures TeamIds(es) == [x, y]
  {
    ThreeTrimmedTeams(es, x, y);
    NonBlankThree(x, y);
    DedupRepeat(x, y);
  }

  lemma NonBlankThree(x: string, y: string)
    requires x != "" && y != ""
    ensures Filter(NonEmpty, [x, y, x]) == [x, y, x]
  {
    FilterAll(NonEmpty, [x, y, x]);
  }

  lemma {:induction false} ThreeTrimmedTeams(es: seq<Employee>, x: string, y: string)
    requires |es| == 3 && es[0].team == x && es[1].team == y && es[2].team == x
    requires IsTrimmed(x) && IsTrimmed(y)
    ensures MapKey(TrimmedTeamOf, es) == [x, y, x]
  {
    var m := MapKey(TrimmedTeamOf, es);
    TrimmedTeamOfClean(es[0]);
    TrimmedTeamOfClean(es[1]);
    TrimmedTeamOfClean(es[2]);
    SeqOfThree(m);
  }

  lemma TrimmedTeamOfClean(e: Employee)
    requires IsTrimmed(e.team)
    ensures TrimmedTeamOf(e) == e.team
  {
    TrimTrimmed(e.team);
  }

  lemma TwoTeams(x: string, y: string)
    ensures TeamsOf([x, y]) == [Team(x, x, Palette[0]), Team(y, y, Palette[1])]
  {
    var ts := TeamsOf([x, y]);
    assert ts[0] == Team(x, x, Palette[0]) && ts[1] == Team(y, y, Palette[1]);
  }

  // ---------------------------------------------------------------- keyed counts

  /** `e => key(e) === v` */
  function KeyIs(key: Employee -> string, v: string): Employee -> bool {
    e => key(e) == v
  }

  /** `e => vs.includes(key(e))` */
  function KeyIn(key: Employee -> string, vs: seq<string>): Employee -> bool {
    e => key(e) in vs
  }

  /** `employees.filter(e => key(e) === v).length` */
  function KeyCount(key: Employee -> string, v: string, es: seq<Employee>): nat {
    Count(KeyIs(key, v), es)
  }

  /** The counts of several keys added up. */
  function SumKeyCounts(key: Employee -> string, vs: seq<string>, es: seq<Employee>): nat {
    if vs == [] then 0 else KeyCount(key, vs[0], es) + SumKeyCounts(key, vs[1..], es)
  }

  /** Counts of distinct keys add up to the number of employees whose key is one of them. */
  lemma {:induction false} SumKeyCountsIsCount(key: Employee -> string, vs: seq<string>, es: seq<Employee>)
    requires NoDups(vs)
    ensures SumKeyCounts(key, vs, es) == Count(KeyIn(key, vs), es)
  {
    if vs == [] {
      FilterNone(KeyIn(key, vs), es);
    } else {
      assert vs == [vs[0]] + vs[1..];
      assert NoDups(vs[1..]) by {
        forall i, j | 0 <= i < j < |vs[1..]| ensures vs[1..][i] != vs[1..][j] {
          assert vs[1..][i] == vs[i + 1] && vs[1..][j] == vs[j + 1];
        }
      }
      assert vs[0] !in vs[1..] by {
        forall j | 0 <= j < |vs[1..]| ensures vs[1..][j] != vs[0] {
          assert vs[1..][j] == vs[j + 1];
        }
      }
      SumKeyCountsIsCount(key, vs[1..], es);
      CountDisjoint(KeyIs(key, vs[0]), KeyIn(key, vs[1..]), KeyIn(key, vs), es);
    }
  }

  /** A key some employee has is counted at least once. */
  lemma KeyCountPositive(key: Employee -> string, v: string, es: seq<Employee>)
    requires v in MapKey(key, es)
    ensures KeyCount(key, v, es) > 0
  {
    MapKeyMembership(key, es, v);
    var e :| e in es && key(e) == v;
    assert e in Filter(KeyIs(key, v), es);
  }

  // ---------------------------------------------------------------- levels

  /** `Array.from(new Set(trimmed non-blank levels)).sort()` */
  function Levels(es: seq<Employee>): seq<string> {
    Sort(Dedup(NonBlankKeys(TrimmedLevelOf, es)))
  }

  /** The levels are listed in strictly ascending order, so each appears once. */
  lemma LevelsAscending(es: seq<Employee>)
    ensures forall i, j :: 0 <= i < j < |Levels(es)| ==> StrLess(Levels(es)[i], Levels(es)[j])
  {
    SortDistinct(Dedup(NonBlankKeys(TrimmedLevelOf, es)));
  }

  /** A level is listed exactly when it is the trimmed, non-blank level of some employee. */
  lemma LevelMembership(es: seq<Employee>, l: string)
    ensures l in Levels(es) <==> l != "" && exists e :: e in es && Trim(e.level) == l
  {
    var d := Dedup(NonBlankKeys(TrimmedLevelOf, es));
    assert l in Levels(es) <==> l in multiset(Levels(es));
    MapKeyMembership(TrimmedLevelOf, es, l);
  }

  /**
   * The `byLevel` loop: for each level, the number of employees whose trimmed level is it.
   * Every level gets an entry and nothing else does.
   */
  method CountByLevel(es: seq<Employee>, levels: seq<string>) returns (byLevel: map<string, nat>)
    ensures byLevel.Keys == set l | l in levels
    ensures forall l :: l in levels ==> byLevel[l] == KeyCount(TrimmedLevelOf, l, es)
  {
    byLevel := map[];
    for i := 0 to |levels|
      invariant byLevel.Keys == set l | l in levels[..i]
      invariant forall l :: l in levels[..i] ==> byLevel[l] == KeyCount(TrimmedLevelOf, l, es)
    {
      assert levels[..i + 1] == levels[..i] + [levels[i]];
      byLevel := byLevel[levels[i] := KeyCount(TrimmedLevelOf, levels[i], es)];
    }
    assert levels[..|levels|] == levels;
  }

  /** Every level shown has at least one employee. */
  lemma LevelCountsPositive(es: seq<Employee>)
    ensures forall l :: l in Levels(es) ==> KeyCount(TrimmedLevelOf, l, es) > 0
  {
    forall l | l in Levels(es) ensures KeyCount(TrimmedLevelOf, l, es) > 0 {
      LevelMembership(es, l);
      MapKeyMembership(TrimmedLevelOf, es, l);
      KeyCountPositive(TrimmedLevelOf, l, es);
    }
  }

  /** The level counts and the employees with a blank level account for everybody, once each. */
  lemma LevelCountsPartition(es: seq<Employee>)
    ensures SumKeyCounts(TrimmedLevelOf, Levels(es), es) + KeyCount(TrimmedLevelOf, "", es) == |es|
  {
    var ls := Levels(es);
    LevelsAscending(es);
    assert NoDups(ls) by {
      forall i, j | 0 <= i < j < |ls| ensures ls[i] != ls[j] {
        StrLessIrreflexive(ls[i]);
      }
    }
    SumKeyCountsIsCount(TrimmedLevelOf, ls, es);
    forall e | e in es ensures KeyIs(TrimmedLevelOf, "")(e) <==> !KeyIn(TrimmedLevelOf, ls)(e) {
      LevelMembership(es, Trim(e.level));
      assert Trim(e.level) in ls <==> Trim(e.level) != "";
    }
    CountComplement(KeyIn(TrimmedLevelOf, ls), KeyIs(TrimmedLevelOf, ""), es);
  }

  // ---------------------------------------------------------------- KPIs

  /**
   * `stats`: the total, one count per declared status compared exactly, and for each team
   * the number of employees whose (untrimmed) team string is that team's id.
   */
  predicate IsStatsOf(stats: EmployeeStats, es: seq<Employee>, teams: seq<Team>) {
    && stats.total == |es|
    && stats.active == KeyCount(StatusOf, "Active", es)
    && stats.pending == KeyCount(StatusOf, "Pending", es)
    && stats.hiring == KeyCount(StatusOf, "Hiring", es)
    && stats.backfill == KeyCount(StatusOf, "Backfill", es)
    && stats.byTeam.Keys == (set t | t in teams :: t.id)
    && forall t :: t in teams ==> stats.byTeam[t.id] == KeyCount(TeamOf, t.id, es)
  }

  /** The KPI computation, with its `teams.forEach` loop filling `byTeam`. */
  method ComputeStats(es: seq<Employee>, teams: seq<Team>) returns (stats: EmployeeStats)
    ensures IsStatsOf(stats, es, teams)
  {
    var byTeam: map<string, nat> := map[];
    for i := 0 to |teams|
      invariant byTeam.Keys == set t | t in teams[..i] :: t.id
      invariant forall t :: t in teams[..i] ==> byTeam[t.id] == KeyCount(TeamOf, t.id, es)
    {
      assert teams[..i + 1] == teams[..i] + [teams[i]];
      byTeam := byTeam[teams[i].id := KeyCount(TeamOf, teams[i].id, es)];
    }
    assert teams[..|teams|] == teams;
    stats := EmployeeStats(
      |es|,
      KeyCount(StatusOf, "Active", es),
      KeyCount(StatusOf, "Pending", es),
      KeyCount(StatusOf, "Hiring", es),
      KeyCount(StatusOf, "Backfill", es),
      byTeam);
  }

  lemma SumFourKeyCounts(key: Employee -> string, a: string, b: string, c: string, d: string, es: seq<Employee>)
    ensures SumKeyCounts(key, [a, b, c, d], es)
         == KeyCount(key, a, es) + KeyCount(key, b, es) + KeyCount(key, c, es) + KeyCount(key, d, es)
  {
    assert [d][1..] == [];
    assert SumKeyCounts(key, [d], es) == KeyCount(key, d, es);
    assert [c, d][1..] == [d];
    assert SumKeyCounts(key, [c, d], es) == KeyCount(key, c, es) + KeyCount(key, d, es);
    assert [b, c, d][1..] == [c, d];
    assert [a, b, c, d][1..] == [b, c, d];
  }

  lemma CanonicalStatusesDistinct()
    ensures NoDups(CanonicalStatuses)
  {
  }

  /**
   * The four status KPIs never add up to more than the total, and they add up to exactly the
   * total only when every employee carries one of the four declared statuses.
   */
  lemma StatusKpisBound(stats: EmployeeStats, es: seq<Employee>, teams: seq<Team>)
    requires IsStatsOf(stats, es, teams)
    ensures stats.active + stats.pending + stats.hiring + stats.backfill <= stats.total
    ensures stats.active + stats.pending + stats.hiring + stats.backfill == stats.total
        <==> forall e :: e in es ==> IsCanonical(e.status)
  {
    var cs := CanonicalStatuses;
    CanonicalStatusesDistinct();
    SumKeyCountsIsCount(StatusOf, cs, es);
    SumFourKeyCounts(StatusOf, cs[0], cs[1], cs[2], cs[3], es);
    assert cs == [cs[0], cs[1], cs[2], cs[3]];
    CountIsLength(KeyIn(StatusOf, cs), es);
  }

  /** The `byTeam` numbers of the given ids, added up. */
  function SumOver(m: map<string, nat>, ks: seq<string>): nat
    requires forall k :: k in ks ==> k in m
  {
    if ks == [] then 0 else m[ks[0]] + SumOver(m, ks[1..])
  }

  lemma {:induction false} SumOverByTeam(stats: EmployeeStats, es: seq<Employee>, ids: seq<string>)
    requires forall k :: k in ids ==> k in stats.byTeam && stats.byTeam[k] == KeyCount(TeamOf, k, es)
    ensures SumOver(stats.byTeam, ids) == SumKeyCounts(TeamOf, ids, es)
  {
    if ids != [] {
      assert ids[0] in ids;
      SumOverByTeam(stats, es, ids[1..]);
    }
  }

  /** Every team id has its `byTeam` entry, holding that team's count. */
  lemma ByTeamHasTeamIds(stats: EmployeeStats, es: seq<Employee>)
    requires IsStatsOf(stats, es, Teams(es))
    ensures forall k :: k in TeamIds(es) ==> k in stats.byTeam && stats.byTeam[k] == KeyCount(TeamOf, k, es)
  {
    var ids := TeamIds(es);
    var ts := TeamsOf(ids);
    forall k | k in ids ensures k in stats.byTeam && stats.byTeam[k] == KeyCount(TeamOf, k, es) {
      var i :| 0 <= i < |ids| && ids[i] == k;
      var t := ts[i];
      assert t in ts && t.id == k;
    }
  }

  /**
   * The per-team badges never add up to more than the total, and they account for everybody
   * exactly when every employee's team string is non-empty and has no surrounding blanks: an
   * employee in `" Eng"` is grouped under the team `"Eng"` by name but counted under no team.
   */
  lemma ByTeamBound(stats: EmployeeStats, es: seq<Employee>)
    requires IsStatsOf(stats, es, Teams(es))
    ensures forall id :: id in TeamIds(es) ==> id in stats.byTeam
    ensures SumOver(stats.byTeam, TeamIds(es)) <= stats.total
    ensures SumOver(stats.byTeam, TeamIds(es)) == stats.total
        <==> forall e :: e in es ==> IsTrimmed(e.team) && e.team != ""
  {
    var ids := TeamIds(es);
    TeamsSpec(es);
    ByTeamHasTeamIds(stats, es);
    SumOverByTeam(stats, es, ids);
    SumKeyCountsIsCount(TeamOf, ids, es);
    CountIsLength(KeyIn(TeamOf, ids), es);
    InTeamIds(es, es);
  }

  // ---------------------------------------------------------------- filter

  /** The filter bar's state: `"all"` switches a select off; the search term may be empty. */
  datatype Selection = Selection(team: string, status: string, level: string, search: string)

  const NoSelection := Selection("all", "all", "all", "")

  predicate TeamMatches(sel: Selection, e: Employee) {
    sel.team == "all" || e.team == sel.team
  }

  predicate StatusMatches(sel: Selection, e: Employee) {
    sel.status == "all" || e.status == sel.status
  }

  /** A blank level is falsy and fails every level other than `"all"`; otherwise the trimmed level is compared. */
  predicate LevelMatches(sel: Selection, e: Employee) {
    sel.level == "all" || (e.level != "" && Trim(e.level) == sel.level)
  }

  /** The term occurs in the lower-cased name or in the lower-cased position. */
  predicate SearchMatches(sel: Selection, e: Employee) {
    Includes(Lower(e.name), Lower(sel.search)) || Includes(Lower(e.position), Lower(sel.search))
  }

  predicate Passes(sel: Selection, e: Employee) {
    TeamMatches(sel, e) && StatusMatches(sel, e) && LevelMatches(sel, e) && SearchMatches(sel, e)
  }

  function Passing(sel: Selection): Employee -> bool {
    e => Passes(sel, e)
  }

  /** `filteredEmployees` */
  function FilteredEmployees(es: seq<Employee>, sel: Selection): seq<Employee> {
    Filter(Passing(sel), es)
  }

  /** The filtered list keeps the employees that pass every criterion, in their original order. */
  lemma FilteredSpec(es: seq<Employee>, sel: Selection)
    ensures IsSubseq(FilteredEmployees(es, sel), es)
    ensures forall e :: e in FilteredEmployees(es, sel) <==> e in es && Passes(sel, e)
  {
    FilterIsSubseq(Passing(sel), es);
  }

  /** With every select on `"all"` and an empty search, everybody is shown, in order. */
  lemma NoSelectionShowsAll(es: seq<Employee>)
    ensures FilteredEmployees(es, NoSelection) == es
  {
    forall e | e in es ensures Passes(NoSelection, e) {
      IncludesEmpty(Lower(e.name));
    }
    FilterAll(Passing(NoSelection), es);
  }

  /** An empty search term matches everybody. */
  lemma EmptySearchMatches(sel: Selection, e: Employee)
    requires sel.search == ""
    ensures SearchMatches(sel, e)
  {
    assert Lower(sel.search) == "";
    IncludesEmpty(Lower(e.name));
  }

  lemma BlankLevelTrimsToEmpty(e: Employee)
    ensures e.level == "" ==> Trim(e.level) == ""
  {
  }

  /** Search terms that lower-case alike select alike. */
  lemma SearchIgnoresCase(sel: Selection, term: string, e: Employee)
    requires Lower(term) == Lower(sel.search)
    ensures Passes(sel.(search := term), e) == Passes(sel, e)
  {
  }

  /** A term found, ignoring case, anywhere inside the name satisfies the search. */
  lemma NameInfixMatches(sel: Selection, e: Employee, i: nat)
    requires i + |sel.search| <= |e.name|
    requires Lower(e.name)[i..i + |sel.search|] == Lower(sel.search)
    ensures SearchMatches(sel, e)
  {
    IncludesAt(Lower(e.name), Lower(sel.search), i);
  }

  /**
   * And conversely: the search passes exactly when the lower-cased term occurs at some position
   * of the lower-cased name or of the lower-cased position.
   */
  lemma SearchMatchesIff(sel: Selection, e: Employee)
    ensures SearchMatches(sel, e) <==>
      (exists i: nat :: OccursAt(Lower(e.name), Lower(sel.search), i))
      || (exists i: nat :: OccursAt(Lower(e.position), Lower(sel.search), i))
  {
    IncludesIff(Lower(e.name), Lower(sel.search));
    IncludesIff(Lower(e.position), Lower(sel.search));
  }

  /** `sel` narrows `wide` when it agrees with it on every select `wide` does not switch off. */
  predicate Narrows(sel: Selection, wide: Selection) {
    && (wide.team == "all" || sel.team == wide.team)
    && (wide.status == "all" || sel.status == wide.status)
    && (wide.level == "all" || sel.level == wide.level)
    && sel.search == wide.search
  }

  /** Choosing a value in a select only ever hides employees; it never reorders or adds any. */
  lemma NarrowingShrinks(es: seq<Employee>, sel: Selection, wide: Selection)
    requires Narrows(sel, wide)
    ensures FilteredEmployees(es, sel) == Filter(Passing(sel), FilteredEmployees(es, wide))
    ensures IsSubseq(FilteredEmployees(es, sel), FilteredEmployees(es, wide))
  {
    FilterOfFilter(Passing(sel), Passing(wide), es);
    FilterIsSubseq(Passing(sel), FilteredEmployees(es, wide));
  }

  /** Selecting only a team shows exactly as many employees as that team's badge counts. */
  lemma TeamSelectionMatchesBadge(es: seq<Employee>, id: string)
    requires id != "all"
    ensures |FilteredEmployees(es, NoSelection.(team := id))| == KeyCount(TeamOf, id, es)
  {
    var sel := NoSelection.(team := id);
    forall e | e in es ensures Passing(sel)(e) == KeyIs(TeamOf, id)(e) {
      EmptySearchMatches(sel, e);
      assert sel.status == "all" && sel.level == "all" && sel.team == id;
      assert Passes(sel, e) == (e.team == id);
      assert Passing(sel)(e) == Passes(sel, e);
      assert KeyIs(TeamOf, id)(e) == (TeamOf(e) == id);
    }
    FilterExt(Passing(sel), KeyIs(TeamOf, id), es);
  }

  /** Selecting only a status shows exactly as many employees as that status's KPI counts. */
  lemma StatusSelectionMatchesKpi(es: seq<Employee>, status: string)
    requires status != "all"
    ensures |FilteredEmployees(es, NoSelection.(status := status))| == KeyCount(StatusOf, status, es)
  {
    var sel := NoSelection.(status := status);
    forall e | e in es ensures Passing(sel)(e) == KeyIs(StatusOf, status)(e) {
      EmptySearchMatches(sel, e);
      assert sel.team == "all" && sel.level == "all" && sel.status == status;
      assert Passes(sel, e) == (e.status == status);
      assert Passing(sel)(e) == Passes(sel, e);
      assert KeyIs(StatusOf, status)(e) == (StatusOf(e) == status);
    }
    FilterExt(Passing(sel), KeyIs(StatusOf, status), es);
  }

  /** Selecting only a listed level shows exactly as many employees as that level's count. */
  lemma LevelSelectionMatchesCount(es: seq<Employee>, l: string)
    requires l in Levels(es) && l != "all"
    ensures |FilteredEmployees(es, NoSelection.(level := l))| == KeyCount(TrimmedLevelOf, l, es)
  {
    LevelMembership(es, l);
    LevelSelectionIsKeyFilter(es, l);
  }

  /** With only a non-blank level selected, the filter keeps the employees whose trimmed level it is. */
  lemma LevelSelectionIsKeyFilter(es: seq<Employee>, l: string)
    requires l != "" && l != "all"
    ensures FilteredEmployees(es, NoSelection.(level := l)) == Filter(KeyIs(TrimmedLevelOf, l), es)
  {
    var sel := NoSelection.(level := l);
    forall e | e in es ensures Passing(sel)(e) == KeyIs(TrimmedLevelOf, l)(e) {
      LevelOnlySelection(l, e);
    }
    FilterExt(Passing(sel), KeyIs(TrimmedLevelOf, l), es);
  }

  lemma LevelOnlySelection(l: string, e: Employee)
    requires l != "" && l != "all"
    ensures Passing(NoSelection.(level := l))(e) == KeyIs(TrimmedLevelOf, l)(e)
  {
    var sel := NoSelection.(level := l);
    assert sel.team == "all" && sel.status == "all" && sel.level == l && sel.search == "";
    EmptySearchMatches(sel, e);
    BlankLevelTrimsToEmpty(e);
    assert LevelMatches(sel, e) == (Trim(e.level) == l);
    assert Passes(sel, e) == (Trim(e.level) == l);
    assert Passing(sel)(e) == Passes(sel, e);
    assert KeyIs(TrimmedLevelOf, l)(e) == (TrimmedLevelOf(e) == l);
  }

  // ---------------------------------------------------------------- grouping

  /**
   * The `employeesByTeam` loop: for each team, the filtered employees whose team string is
   * exactly its id, in filtered order.
   */
  method GroupByTeam(filtered: seq<Employee>, teams: seq<Team>) returns (groups: map<string, seq<Employee>>)
    ensures groups.Keys == set t | t in teams :: t.id
    ensures forall t :: t in teams ==> groups[t.id] == Filter(KeyIs(TeamOf, t.id), filtered)
  {
    groups := map[];
    for i := 0 to |teams|
      invariant groups.Keys == set t | t in teams[..i] :: t.id
      invariant forall t :: t in teams[..i] ==> groups[t.id] == Filter(KeyIs(TeamOf, t.id), filtered)
    {
      assert teams[..i + 1] == teams[..i] + [teams[i]];
      groups := groups[teams[i].id := Filter(KeyIs(TeamOf, teams[i].id), filtered)];
    }
    assert teams[..|teams|] == teams;
  }

  /** A team's column holds exactly the shown employees of that team, and never more than its badge. */
  lemma GroupSpec(es: seq<Employee>, sel: Selection, id: string)
    ensures var g := Filter(KeyIs(TeamOf, id), FilteredEmployees(es, sel));
      && IsSubseq(g, FilteredEmployees(es, sel))
      && (forall e :: e in g <==> e in es && Passes(sel, e) && e.team == id)
      && |g| <= KeyCount(TeamOf, id, es)
  {
    var f := FilteredEmployees(es, sel);
    FilterIsSubseq(KeyIs(TeamOf, id), f);
    CountOfFilter(KeyIs(TeamOf, id), Passing(sel), es);
    forall e
      ensures e in Filter(KeyIs(TeamOf, id), f) <==> e in es && Passes(sel, e) && e.team == id
    {
      assert Passing(sel)(e) == Passes(sel, e);
      assert KeyIs(TeamOf, id)(e) == (TeamOf(e) == id);
    }
  }

  /**
   * The team columns together show every filtered employee exactly once when every filtered
   * employee's team string is trimmed and non-empty; otherwise some shown employee is in no column.
   */
  lemma GroupsCoverFiltered(es: seq<Employee>, sel: Selection)
    ensures SumKeyCounts(TeamOf, TeamIds(es), FilteredEmployees(es, sel)) <= |FilteredEmployees(es, sel)|
    ensures SumKeyCounts(TeamOf, TeamIds(es), FilteredEmployees(es, sel)) == |FilteredEmployees(es, sel)|
        <==> forall e :: e in FilteredEmployees(es, sel) ==> IsTrimmed(e.team) && e.team != ""
  {
    var f := FilteredEmployees(es, sel);
    var ids := TeamIds(es);
    TeamsSpec(es);
    SumKeyCountsIsCount(TeamOf, ids, f);
    CountIsLength(KeyIn(TeamOf, ids), f);
    InTeamIds(es, f);
  }
}
