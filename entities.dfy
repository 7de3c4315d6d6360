/** The value shapes of the dashboard: `Employee`, `Team` and `EmployeeStats`. */
module Entities {
  import opened Wrappers

  /** The four statuses the dashboard declares, in the order the card click cycles through them. */
  const CanonicalStatuses: seq<string> := ["Active", "Pending", "Hiring", "Backfill"]

  predicate IsCanonical(status: string) {
    status in CanonicalStatuses
  }

  /**
   * An employee as the dashboard holds it. `status` is a plain string: the store's value is
   * cast, not checked, so a row may carry a status outside the four declared ones.
   * `photo` is absent when the store's column is null.
   */
  datatype Employee = Employee(
    id: string,
    name: string,
    photo: Option<string>,
    team: string,
    status: string,
    position: string,
    level: string)

  /** A team is derived from the employees: its id and name are the team string. */
  datatype Team = Team(id: string, name: string, color: string)

  datatype EmployeeStats = EmployeeStats(
    total: nat,
    active: nat,
    pending: nat,
    hiring: nat,
    backfill: nat,
    byTeam: map<string, nat>)
}
