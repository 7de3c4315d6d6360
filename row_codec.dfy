/**
 * Translation between the store's `employees` rows and the dashboard's `Employee`,
 * and the payloads the dashboard sends to the store.
 */
module RowCodec {
  import opened Wrappers
  import opened Seqs
  import opened Entities

  /** A row of the `employees` table; `levelling` and `photo` may be null. */
  datatype DbRow = DbRow(
    id: string,
    name: string,
    team: string,
    position: string,
    levelling: Option<string>,
    status: string,
    photo: Option<string>)

  datatype StoreError = StoreError(message: string)

  /** One row of `fetchEmployees`' `.map`: `levelling ?? ""`, `photo ?? undefined`, status cast unchecked. */
  function FromRow(r: DbRow): Employee {
    Employee(r.id, r.name, r.photo, r.team, r.status, r.position, r.levelling.GetOr(""))
  }

  /** The `.map` over all rows. */
  function FromRows(rows: seq<DbRow>): (es: seq<Employee>)
    ensures |es| == |rows|
    ensures forall i :: 0 <= i < |rows| ==> es[i] == FromRow(rows[i])
  {
    seq(|rows|, i requires 0 <= i < |rows| => FromRow(rows[i]))
  }

  /** Field by field: level is `""` for a null `levelling`, a null photo is absent, the rest is copied. */
  lemma FromRowFields(r: DbRow)
    ensures var e := FromRow(r);
      && e.id == r.id && e.name == r.name && e.team == r.team && e.position == r.position
      && e.status == r.status
      && (r.levelling.None? ==> e.level == "")
      && (r.levelling.Some? ==> e.level == r.levelling.value)
      && e.photo == r.photo
  {
  }

  /**
   * `fetchEmployees`: the store's error is rethrown; otherwise a null `data` reads as no rows,
   * and each row becomes one employee, in the order the store returned them.
   */
  function FetchEmployees(data: Option<seq<DbRow>>, error: Option<StoreError>): (r: Result<seq<Employee>, StoreError>)
    ensures error.Some? ==> r == Failure(error.value)
    ensures error.None? && data.None? ==> r == Success([])
    ensures error.None? && data.Some? ==> r.Success? && |r.value| == |data.value|
    ensures error.None? && data.Some? ==> forall i :: 0 <= i < |data.value| ==> r.value[i] == FromRow(data.value[i])
  {
    if error.Some? then Failure(error.value)
    else if data.None? then Success([])
    else Success(FromRows(data.value))
  }

  /** `Omit<Employee, "id">` as `addEmployee` reads it: `level` and `photo` may be missing. */
  datatype NewEmployee = NewEmployee(
    name: string,
    team: string,
    position: string,
    level: Option<string>,
    status: string,
    photo: Option<string>)

  /** The object `addEmployee` inserts: no id, no start date, an explicit null photo. */
  datatype InsertPayload = InsertPayload(
    name: string,
    team: string,
    position: string,
    levelling: string,
    status: string,
    photo: Option<string>)

  /** `addEmployee`'s payload: `levelling: level ?? ""`, `photo: photo ?? null`. */
  function ToInsertPayload(n: NewEmployee): InsertPayload {
    InsertPayload(n.name, n.team, n.position, n.level.GetOr(""), n.status, n.photo)
  }

  /** The row the store holds after inserting `p` under the id it assigns. */
  function InsertedRow(id: string, p: InsertPayload): DbRow {
    DbRow(id, p.name, p.team, p.position, Some(p.levelling), p.status, p.photo)
  }

  /** An employee without its id, as the add flow passes it on. */
  function WithoutId(e: Employee): NewEmployee {
    NewEmployee(e.name, e.team, e.position, Some(e.level), e.status, e.photo)
  }

  /**
   * Insert, then read back under any id: every field comes back; a missing level reads as `""`
   * and a missing photo stays missing.
   */
  lemma InsertThenFetch(id: string, n: NewEmployee)
    ensures FromRow(InsertedRow(id, ToInsertPayload(n)))
      == Employee(id, n.name, n.photo, n.team, n.status, n.position, n.level.GetOr(""))
  {
  }

  /** Read, then insert what was read: the store gets back the same row whenever `levelling` was set. */
  lemma FetchThenInsert(r: DbRow)
    requires r.levelling.Some?
    ensures InsertedRow(r.id, ToInsertPayload(WithoutId(FromRow(r)))) == r
  {
  }

  /** A null `levelling` is the one thing a read-then-insert does not keep: it comes back as `""`. */
  lemma NullLevellingBecomesEmpty(r: DbRow)
    requires r.levelling.None?
    ensures InsertedRow(r.id, ToInsertPayload(WithoutId(FromRow(r)))) == r.(levelling := Some(""))
  {
  }

  /** The single field an update sends. */
  datatype Patch = SetStatus(status: string) | SetTeam(team: string)

  /** The requests the dashboard makes of the store. */
  datatype Write = Insert(payload: InsertPayload) | Update(id: string, patch: Patch) | Delete(id: string)

  /** `addEmployee` */
  function AddEmployee(n: NewEmployee): Write {
    Insert(ToInsertPayload(n))
  }

  /** `updateEmployeeStatus`: `.update({ status }).eq("id", id)` */
  function UpdateEmployeeStatus(id: string, status: string): Write {
    Update(id, SetStatus(status))
  }

  /** `updateEmployeeTeam`: `.update({ team }).eq("id", id)` */
  function UpdateEmployeeTeam(id: string, team: string): Write {
    Update(id, SetTeam(team))
  }

  /** `deleteEmployee`: `.delete().eq("id", id)` */
  function DeleteEmployee(id: string): Write {
    Delete(id)
  }

  /** The store's side of an update: only the patched column changes. */
  function PatchRow(r: DbRow, p: Patch): DbRow {
    match p
    case SetStatus(s) => r.(status := s)
    case SetTeam(t) => r.(team := t)
  }

  /** The same change, seen on the dashboard's side. */
  function PatchEmployee(e: Employee, p: Patch): Employee {
    match p
    case SetStatus(s) => e.(status := s)
    case SetTeam(t) => e.(team := t)
  }

  predicate NotId(id: string, r: DbRow) {
    r.id != id
  }

  /** What the store does with a request; `freshId` is the id it assigns to an inserted row. */
  function ApplyWrite(table: seq<DbRow>, w: Write, freshId: string): (t: seq<DbRow>)
    ensures w.Update? ==> |t| == |table|
    ensures w.Insert? ==> |t| == |table| + 1
    ensures w.Delete? ==> |t| <= |table|
  {
    match w
    case Insert(p) => table + [InsertedRow(freshId, p)]
    case Update(id, p) =>
      seq(|table|, i requires 0 <= i < |table| => if table[i].id == id then PatchRow(table[i], p) else table[i])
    case Delete(id) => Filter(RowKept(id), table)
  }

  /** Reading a patched row is patching the read employee. */
  lemma PatchCommutes(r: DbRow, p: Patch)
    ensures FromRow(PatchRow(r, p)) == PatchEmployee(FromRow(r), p)
  {
  }

  /**
   * After an update and the refetch, exactly the employees with that id carry the new value,
   * and every other field and every other employee is as before.
   */
  lemma UpdateThenFetch(table: seq<DbRow>, id: string, p: Patch, freshId: string)
    ensures var before, after := FromRows(table), FromRows(ApplyWrite(table, Update(id, p), freshId));
      && |after| == |before|
      && forall i :: 0 <= i < |before| ==>
           after[i] == if before[i].id == id then PatchEmployee(before[i], p) else before[i]
  {
    forall i | 0 <= i < |table| {
      PatchCommutes(table[i], p);
    }
  }

  /** `.eq("id", id)` negated: the rows a delete keeps. */
  function RowKept(id: string): DbRow -> bool {
    r => NotId(id, r)
  }

  /** The employees a delete keeps, seen on the dashboard's side. */
  function EmployeeKept(id: string): Employee -> bool {
    (e: Employee) => e.id != id
  }

  lemma FromRowsCons(r: DbRow, rest: seq<DbRow>)
    ensures FromRows([r] + rest) == [FromRow(r)] + FromRows(rest)
  {
    assert ([r] + rest)[1..] == rest;
  }

  /** Reading distributes over removing the rows of one id. */
  lemma {:induction false} FromRowsDelete(table: seq<DbRow>, id: string)
    ensures FromRows(Filter(RowKept(id), table)) == Filter(EmployeeKept(id), FromRows(table))
  {
    if table != [] {
      var r, rest := table[0], table[1..];
      assert table == [r] + rest;
      FromRowsDelete(rest, id);
      FromRowsCons(r, rest);
      var es := FromRows(table);
      assert es[0] == FromRow(r) && es[1..] == FromRows(rest);
      if NotId(id, r) {
        FromRowsCons(r, Filter(RowKept(id), rest));
      }
    }
  }

  /** After a delete and the refetch, the list is the old list without that id, in the same order. */
  lemma DeleteThenFetch(table: seq<DbRow>, id: string, freshId: string)
    ensures FromRows(ApplyWrite(table, Delete(id), freshId)) == Filter(EmployeeKept(id), FromRows(table))
  {
    FromRowsDelete(table, id);
  }

  /** Deleting an id that is already gone changes nothing: a repeated delete is harmless. */
  lemma DeleteIdempotent(table: seq<DbRow>, id: string, freshId: string)
    ensures var once := ApplyWrite(table, Delete(id), freshId);
      ApplyWrite(once, Delete(id), freshId) == once
  {
    var once := ApplyWrite(table, Delete(id), freshId);
    FilterAll(RowKept(id), once);
  }

  /** An insert adds one row at the end, holding the payload under the assigned id. */
  lemma InsertThenFetchAll(table: seq<DbRow>, n: NewEmployee, freshId: string)
    ensures var after := FromRows(ApplyWrite(table, AddEmployee(n), freshId));
      && after[..|table|] == FromRows(table)
      && after[|table|] == Employee(freshId, n.name, n.photo, n.team, n.status, n.position, n.level.GetOr(""))
  {
  }

  /**
   * The same without relying on where the store puts the new row: the fetched list holds the
   * old employees and the new one, each as often as before.
   */
  lemma InsertThenFetchMultiset(table: seq<DbRow>, n: NewEmployee, freshId: string)
    ensures var after := FromRows(ApplyWrite(table, AddEmployee(n), freshId));
      multiset(after) == multiset(FromRows(table)) + multiset{Employee(freshId, n.name, n.photo, n.team, n.status, n.position, n.level.GetOr(""))}
  {
    var after := FromRows(ApplyWrite(table, AddEmployee(n), freshId));
    InsertThenFetchAll(table, n, freshId);
    assert after == after[..|table|] + [after[|table|]];
  }

  /** `if (error) throw error`: a write completes, or fails with the store's own error. */
  function Completion(error: Option<StoreError>): (r: Result<(), StoreError>)
    ensures r.Failure? <==> error.Some?
    ensures r.Failure? ==> r.error == error.value
  {
    if error.Some? then Failure(error.value) else Success(())
  }
}
