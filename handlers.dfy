/**
 * The dashboard page's event handlers and the lifecycle of its employee list: which store
 * request each user action makes, and when a fetched list is allowed to replace the current one.
 */
module Handlers {
  import opened Wrappers
  import opened Seqs
  import opened Text
  import opened Entities
  import opened RowCodec
  import opened Derivations

  /**
   * `order[(order.indexOf(x) + 1) % order.length]`: the element after `x`, wrapping after the
   * last; a value not in `order` has index -1 and goes to the first.
   */
  function CycleNext<T(==,!new)>(order: seq<T>, x: T): (r: T)
    requires |order| > 0
    ensures r in order
    ensures x !in order ==> r == order[0]
  {
    order[(IndexOf(order, x) + 1) % |order|]
  }

  /** `n` applications of `f`. */
  function Iterate<T>(f: T -> T, n: nat, x: T): T {
    if n == 0 then x else f(Iterate(f, n - 1, x))
  }

  /** In a four-element order without repeats, each element moves to the next. */
  lemma CycleNextAt<T(!new)>(order: seq<T>, i: nat)
    requires |order| == 4 && NoDups(order) && i < 4
    ensures CycleNext(order, order[i]) == order[(i + 1) % 4]
  {
    assert IndexOf(order, order[i]) == i;
  }

  /** The position reached from `i` after `n` steps round four places. */
  function StepsFrom(i: nat, n: nat): (j: nat)
    requires i < 4
    ensures j < 4
  {
    if n == 0 then i else (StepsFrom(i, n - 1) + 1) % 4
  }

  lemma ModStep(a: nat)
    ensures ((a % 4) + 1) % 4 == (a + 1) % 4
  {
  }

  lemma {:induction false} StepsFromMod(i: nat, n: nat)
    requires i < 4
    ensures StepsFrom(i, n) == (i + n) % 4
  {
    if n > 0 {
      StepsFromMod(i, n - 1);
      ModStep(i + n - 1);
    }
  }

  lemma PeriodArith(i: nat, n: nat)
    requires i < 4
    ensures (i + n) % 4 == i <==> n % 4 == 0
  {
    var r := n % 4;
    assert n == 4 * (n / 4) + r;
    assert (i + n) % 4 == (i + r) % 4;
  }

  /** A step function that takes each of four elements to the next, the last to the first. */
  predicate StepsRound<T(==)>(f: T -> T, order: seq<T>)
    requires |order| == 4
  {
    f(order[0]) == order[1] && f(order[1]) == order[2] && f(order[2]) == order[3] && f(order[3]) == order[0]
  }

  /** Stepping `n` times moves `n` places along the order. */
  lemma {:induction false} IterateAdvance<T(!new)>(f: T -> T, order: seq<T>, n: nat, i: nat)
    requires |order| == 4 && StepsRound(f, order) && i < 4
    ensures Iterate(f, n, order[i]) == order[StepsFrom(i, n)]
  {
    if n > 0 {
      IterateAdvance(f, order, n - 1, i);
      var k := StepsFrom(i, n - 1);
      if k == 0 {
      } else if k == 1 {
      } else if k == 2 {
      } else {
      }
    }
  }

  /** Four steps bring an element of the order back, and fewer never do. */
  lemma IteratePeriod<T(!new)>(f: T -> T, order: seq<T>, x: T, n: nat)
    requires |order| == 4 && NoDups(order) && StepsRound(f, order) && x in order && 0 < n
    ensures Iterate(f, n, x) == x <==> n % 4 == 0
  {
    var i :| 0 <= i < 4 && order[i] == x;
    IterateAdvance(f, order, n, i);
    StepsFromMod(i, n);
    PeriodArith(i, n);
  }

  /** The click cycle through the four declared statuses. */
  function NextStatus(status: string): (r: string)
    ensures IsCanonical(r)
    ensures !IsCanonical(status) ==> r == CanonicalStatuses[0]
  {
    CycleNext(CanonicalStatuses, status)
  }

  /** `n` clicks on a card. */
  function Clicks(n: nat, status: string): string {
    Iterate(NextStatus, n, status)
  }

  /** Active goes to Pending, Pending to Hiring, Hiring to Backfill, and Backfill back to Active. */
  lemma NextStatusRound()
    ensures StepsRound(NextStatus, CanonicalStatuses)
  {
    CanonicalStatusesDistinct();
    CycleNextAt(CanonicalStatuses, 0);
    CycleNextAt(CanonicalStatuses, 1);
    CycleNextAt(CanonicalStatuses, 2);
    CycleNextAt(CanonicalStatuses, 3);
  }

  /** Four clicks bring a declared status back, and fewer never do. */
  lemma CycleHasPeriodFour(status: string, n: nat)
    requires IsCanonical(status) && 0 < n
    ensures Clicks(n, status) == status <==> n % 4 == 0
  {
    CanonicalStatusesDistinct();
    NextStatusRound();
    IteratePeriod(NextStatus, CanonicalStatuses, status, n);
  }

  /** An imported or typed-in status the cycle does not know (such as "Activo") becomes Active on the first click. */
  lemma UnknownStatusClicksToActive(status: string)
    requires !IsCanonical(status)
    ensures NextStatus(status) == "Active"
  {
  }

  /** `handleStatusChange`: one status update for the employee's id. */
  function StatusChangeWrite(e: Employee, next: string): Write {
    UpdateEmployeeStatus(e.id, next)
  }

  /** `handleEmployeeClick` */
  function ClickWrite(e: Employee): Write {
    StatusChangeWrite(e, NextStatus(e.status))
  }

  /** `handleDrop`: a team update only when the dragged employee's team differs from the column's id. */
  function DropWrite(dragged: Employee, newTeamId: string): (w: Option<Write>)
    ensures w.None? <==> dragged.team == newTeamId
    ensures w.Some? ==> w.value == Update(dragged.id, SetTeam(newTeamId))
  {
    if dragged.team != newTeamId then Some(UpdateEmployeeTeam(dragged.id, newTeamId)) else None
  }

  /** `handleDeleteEmployee`: nothing unless the confirmation was accepted. */
  function DeleteWrite(e: Employee, confirmed: bool): (w: Option<Write>)
    ensures w.Some? <==> confirmed
    ensures w.Some? ==> w.value == Delete(e.id)
  {
    if confirmed then Some(DeleteEmployee(e.id)) else None
  }

  /** `handleAddEmployee` */
  function AddWrite(n: NewEmployee): Write {
    AddEmployee(n)
  }

  /** Applies the request a handler made, if any. */
  function ApplyOptional(table: seq<DbRow>, w: Option<Write>, freshId: string): seq<DbRow> {
    if w.Some? then ApplyWrite(table, w.value, freshId) else table
  }

  /**
   * After a click and the refetch it triggers, the clicked employee shows the next status
   * of the cycle and everybody else is untouched.
   */
  lemma ClickThenFetch(table: seq<DbRow>, k: nat, freshId: string)
    requires k < |table|
    ensures var before := FromRows(table);
      var after := FromRows(ApplyWrite(table, ClickWrite(before[k]), freshId));
      && |after| == |before|
      && after[k] == before[k].(status := NextStatus(before[k].status))
      && forall i :: 0 <= i < |before| && before[i].id != before[k].id ==> after[i] == before[i]
  {
    var before := FromRows(table);
    UpdateThenFetch(table, before[k].id, SetStatus(NextStatus(before[k].status)), freshId);
  }

  /**
   * Dropping an employee on another team's column moves it there: after the refetch its team
   * string is the column's id, and with the same selection it is shown in that column.
   */
  lemma DropThenFetch(table: seq<DbRow>, k: nat, newTeamId: string, freshId: string, sel: Selection)
    requires k < |table|
    ensures var before := FromRows(table);
      var after := FromRows(ApplyOptional(table, DropWrite(before[k], newTeamId), freshId));
      && |after| == |before|
      && after[k].team == newTeamId
      && (Passes(sel, after[k]) ==> after[k] in Filter(KeyIs(TeamOf, newTeamId), FilteredEmployees(after, sel)))
  {
    var before := FromRows(table);
    var w := DropWrite(before[k], newTeamId);
    if w.Some? {
      UpdateThenFetch(table, before[k].id, SetTeam(newTeamId), freshId);
    }
    var after := FromRows(ApplyOptional(table, w, freshId));
    FilteredSpec(after, sel);
    if Passes(sel, after[k]) {
      assert after[k] in after;
      assert KeyIs(TeamOf, newTeamId)(after[k]);
    }
  }

  /**
   * Dropping an employee on another team's column raises that team's count by the refetch:
   * the employee now carries the column's id, and nobody who had it loses it.
   */
  lemma DropRaisesCount(table: seq<DbRow>, k: nat, id: string, freshId: string)
    requires k < |table| && FromRows(table)[k].team != id
    ensures var before := FromRows(table);
      var after := FromRows(ApplyOptional(table, DropWrite(before[k], id), freshId));
      && |after| == |before|
      && after[k] == before[k].(team := id)
      && KeyCount(TeamOf, id, after) > KeyCount(TeamOf, id, before)
  {
    var before := FromRows(table);
    var e := before[k];
    UpdateThenFetch(table, e.id, SetTeam(id), freshId);
    assert ApplyOptional(table, DropWrite(e, id), freshId) == ApplyWrite(table, Update(e.id, SetTeam(id)), freshId);
    var after := FromRows(ApplyOptional(table, DropWrite(e, id), freshId));
    RetagCountGrows(before, after, k, id);
  }

  /**
   * Dropping an employee whose team string has surrounding blanks on the column of its own
   * trimmed name is not a no-op: the column's id is a team id, the team strings differ, so a
   * write is made; after the refetch the employee carries the trimmed name and that team's
   * count goes up.
   */
  lemma DropOnOwnColumnCleansTeam(table: seq<DbRow>, k: nat, freshId: string)
    requires k < |table|
    requires Trim(FromRows(table)[k].team) != "" && !IsTrimmed(FromRows(table)[k].team)
    ensures var before := FromRows(table);
      var id := Trim(before[k].team);
      var after := FromRows(ApplyOptional(table, DropWrite(before[k], id), freshId));
      && id in TeamIds(before)
      && DropWrite(before[k], id).Some?
      && after[k] == before[k].(team := id)
      && KeyCount(TeamOf, id, after) > KeyCount(TeamOf, id, before)
  {
    var before := FromRows(table);
    var e := before[k];
    var id := Trim(e.team);
    assert e.team != id;
    assert e in before;
    TeamIdMembership(before, id);
    DropRaisesCount(table, k, id, freshId);
  }

  /** Re-tagging the employees with one id under team `id` raises that team's count when one of them was elsewhere. */
  lemma RetagCountGrows(before: seq<Employee>, after: seq<Employee>, k: nat, id: string)
    requires |after| == |before| && k < |before| && before[k].team != id
    requires forall i :: 0 <= i < |before| ==>
      after[i] == if before[i].id == before[k].id then PatchEmployee(before[i], SetTeam(id)) else before[i]
    ensures KeyCount(TeamOf, id, after) > KeyCount(TeamOf, id, before)
  {
    var p := KeyIs(TeamOf, id);
    forall i | 0 <= i < |before| ensures p(before[i]) ==> p(after[i]) {
      assert p(before[i]) == (before[i].team == id);
      assert p(after[i]) == (after[i].team == id);
    }
    assert p(after[k]) == (after[k].team == id);
    assert p(before[k]) == (before[k].team == id);
    CountGrows(p, before, after, k);
  }

  /** A declined confirmation leaves the store as it was; an accepted one removes the employee. */
  lemma DeleteNeedsConfirmation(table: seq<DbRow>, e: Employee, confirmed: bool, freshId: string)
    ensures !confirmed ==> ApplyOptional(table, DeleteWrite(e, confirmed), freshId) == table
    ensures confirmed ==> FromRows(ApplyOptional(table, DeleteWrite(e, confirmed), freshId))
                          == Filter(EmployeeKept(e.id), FromRows(table))
  {
    if confirmed {
      DeleteThenFetch(table, e.id, freshId);
    }
  }

  /**
   * The page's employee list and the `mounted` flag of its effect. Loads and change
   * notifications run asynchronously: each fetch result arrives as a separate event.
   */
  class Dashboard {
    var employees: seq<Employee>
    var mounted: bool

    /** The first render: an empty list, and the effect has started. */
    constructor()
      ensures employees == [] && mounted
    {
      employees := [];
      mounted := true;
    }

    /**
     * A fetch settled. A successful result replaces the list while mounted and is dropped
     * after teardown; a failure (logged on the first load) leaves the list as it was.
     */
    method FetchSettled(result: Result<seq<Employee>, StoreError>)
      modifies this
      ensures mounted == old(mounted)
      ensures employees == (if old(mounted) && result.Success? then result.value else old(employees))
    {
      if mounted && result.Success? {
        employees := result.value;
      }
    }

    /** A realtime change notification: returns whether a refetch is started (only while mounted). */
    method ChangeNotified() returns (refetch: bool)
      ensures refetch == mounted
    {
      refetch := mounted;
    }

    /** The effect's cleanup: later fetch results are ignored; the list stays as it was. */
    method Teardown()
      modifies this
      ensures !mounted && employees == old(employees)
    {
      mounted := false;
    }
  }

  /** A fetch that settles after unmounting changes nothing, whatever it returns. */
  method LateFetchIgnored(result: Result<seq<Employee>, StoreError>) returns (shown: seq<Employee>)
    ensures shown == []
  {
    var d := new Dashboard();
    d.Teardown();
    var refetch := d.ChangeNotified();
    assert !refetch;
    d.FetchSettled(result);
    shown := d.employees;
  }

  /** While mounted, the list shown is the last successful fetch. */
  method LastFetchWins(first: seq<Employee>, failed: StoreError, second: seq<Employee>) returns (shown: seq<Employee>)
    ensures shown == second
  {
    var d := new Dashboard();
    d.FetchSettled(Success(first));
    d.FetchSettled(Success(second));
    d.FetchSettled(Failure(failed));
    shown := d.employees;
  }
}
