# crew-shine headcount dashboard — a Dafny model of its derivation and decision logic

The dashboard shows a company's employees grouped by team. It has KPI cards (total and one per
declared status: Active, Pending, Hiring, Backfill), per-team summary cards, a level breakdown
and a filter bar (team, status, level, free-text search). Clicking a card cycles the
employee's status. Dragging a card onto another team's column moves the employee there. A
delete asks for confirmation first. Every change is written to the store, and the list is
refetched when the store reports a change. A CSV seed import normalises raw rows into
employee records.

This project models that logic in Dafny and proves what the page promises about it:

- **Derived views** (`Derivations`). The team list is deduplicated trimmed team names, in
  order of first appearance, coloured from a seven-colour palette. The level list is sorted
  and deduplicated, with per-level counts. The KPI record, the filtered list and the grouping
  of filtered employees by team are modelled too. The `forEach` loops that fill `byLevel`,
  `byTeam` and the groups are methods with loop invariants. Everything else is functions.
- **Handlers** (`Handlers`):
  - the click cycle through the four statuses;
  - the store request each user action makes (status change, click, drop, delete, add);
  - the page's list and its `mounted` flag, as a class `Dashboard`.
- **Row codec** (`RowCodec`). The store row ↔ `Employee` translation, the insert payload and
  the single-field update and delete requests. To give the requests a meaning, the store's
  effect on a table (`ApplyWrite`) is modelled, so the read-after-write lemmas can be stated.
- **Ingestion** (`Ingestion`): `normalizeStatus`, `makeId` and the CSV row mapping.
- **Team summary cards** (`TeamSummary`), **employee card helpers** (`EmployeeCard`: initials,
  status badge, status menu) and the **add-employee dialog** (`AddEmployeeDialog`). The dialog
  is a class whose submit validates, fills in a generated avatar, resets and closes.
- **Supporting modules**:
  - `Text`: JavaScript's `trim`, `toLowerCase`/`toUpperCase`, `includes`, `split(/\s+/)`,
    `replace(/\s+/g, '-')` and the default `sort` order.
  - `Seqs`: filter, count, `indexOf`, `new Set`.
  - `UriComponent`: `encodeURIComponent`, with a decoder that proves it loses nothing.
  - `Entities`: the value types. `Wrappers`: `Option`/`Result`.

Nothing in the code forces an employee's team or status to be a recognised value, and the model
follows the code. Two asymmetries of the source are therefore kept on purpose:

- Team ids are the *trimmed* team strings. The team filter, the `byTeam` badges, the team
  summary cards and the grouping compare the *untrimmed* `employee.team` against them. An
  employee whose team is `" Eng"` makes a column `Eng` appear but is counted and shown in no
  column. `ByTeamBound`, `GroupsCoverFiltered` and `DerivedTeamTotals` state exactly when the
  counts add up.
- The CSV import and the add dialog produce the status `Activo`, which is not one of the four
  declared statuses. Such employees count towards the total but towards no status KPI, get the
  fallback badge, and go to `Active` on their first click.

## Model

| member | source | states |
|---|---|---|
| Derivations.MapKeyMembership | src/pages/Index.tsx:67-68 | a value occurs among the mapped keys iff some employee has that key |
| Derivations.TeamIdMembership | src/pages/Index.tsx:65-71 | a team id is listed iff it is non-empty and the trimmed team of some employee |
| Derivations.TeamsOf | src/pages/Index.tsx:72-73 | one team per name, in order, with id = name = the name and colour `palette[i % 7]` |
| Derivations.TeamsSpec | src/pages/Index.tsx:64-74 | of `TeamIds` and `Teams`: the teams have no duplicate ids; team i is (id, id, palette[i mod 7]); ids are non-empty and trimmed; ids appear in order of first occurrence among the trimmed non-blank team names |
| Derivations.TeamIdsClean | src/pages/Index.tsx:68-69 | every team id is non-empty and has no surrounding whitespace |
| Derivations.PaletteWraps | src/pages/Index.tsx:72-73 | team i and team i+7 get the same colour |
| Derivations.OwnTeamIsTeamId | src/pages/Index.tsx:68-69 | an employee's own team string is a team id iff it is trimmed and non-empty |
| Derivations.InTeamIds | src/pages/Index.tsx:103-106  | the same, for every employee of a sub-list of the employees |
| Derivations.FirstSeenExample | src/pages/Index.tsx:64-74 | employees in teams x, y, x give exactly the teams x (palette[0]) and y (palette[1]), in that order |
| Derivations.SumKeyCountsIsCount | src/pages/Index.tsx:87-106  | for distinct keys, the per-key counts add up to the number of employees whose key is one of them |
| Derivations.KeyCountPositive | src/pages/Index.tsx:90 | a key some employee has is counted at least once |
| Derivations.LevelsAscending | src/pages/Index.tsx:77-85 | the level list `Levels` is strictly ascending in code-point order, hence duplicate-free |
| Derivations.LevelMembership | src/pages/Index.tsx:78-83 | a level is listed iff it is non-empty and the trimmed level of some employee |
| Derivations.CountByLevel | src/pages/Index.tsx:87-93 | the `forEach` loop: the map has exactly the listed levels as keys, each holding the number of employees whose trimmed level equals it |
| Derivations.LevelCountsPositive | src/pages/Index.tsx:87-93 | every listed level has a count of at least one |
| Derivations.LevelCountsPartition | src/pages/Index.tsx:77-93 | the level counts plus the employees with a blank level add up to the number of employees |
| Derivations.ComputeStats | src/pages/Index.tsx:96-109 | total is the list length; each status KPI counts exact matches; `byTeam` has exactly the team ids as keys, each holding the number of employees whose untrimmed team equals it |
| Derivations.StatusKpisBound | src/pages/Index.tsx:97-101 | the four status KPIs add up to at most the total, and to exactly the total iff every status is one of the four declared ones |
| Derivations.ByTeamBound | src/pages/Index.tsx:103-106 | every team id has a badge; the badges add up to at most the total, and to exactly the total iff every team string is trimmed and non-empty |
| Derivations.FilteredSpec | src/pages/Index.tsx:112-124 | of `FilteredEmployees` and `Passes`: the filtered list is an order-preserving subsequence, and an employee is in it iff team, status, level and search all pass |
| Derivations.NoSelectionShowsAll | src/pages/Index.tsx:114-121 | with every select on "all" and an empty search, the filtered list is the whole list |
| Derivations.EmptySearchMatches | src/pages/Index.tsx:119-121 | an empty search term matches every employee |
| Derivations.SearchIgnoresCase | src/pages/Index.tsx:119-121 | search terms that lower-case alike select the same employees |
| Derivations.NameInfixMatches | src/pages/Index.tsx:120 | a case-insensitive occurrence of the term anywhere in the name makes the search pass |
| Derivations.SearchMatchesIff | src/pages/Index.tsx:119-121 | the search passes iff the lower-cased term occurs at some position of the lower-cased name or of the lower-cased position |
| Derivations.NarrowingShrinks | src/pages/Index.tsx:113-123 | choosing a value in a select keeps a subsequence of what was shown before: nothing is added or reordered |
| Derivations.TeamSelectionMatchesBadge | src/pages/Index.tsx:103-114  | selecting only a team shows exactly as many employees as that team's `byTeam` badge |
| Derivations.StatusSelectionMatchesKpi | src/pages/Index.tsx:96-115  | selecting only a status shows exactly as many employees as that status's count |
| Derivations.LevelSelectionMatchesCount | src/pages/Index.tsx:87-118  | selecting only a listed level shows exactly `byLevel[level]` employees |
| Derivations.LevelSelectionIsKeyFilter | src/pages/Index.tsx:116-118 | with only a non-blank level selected, the filter keeps exactly the employees whose trimmed level is that level, in order |
| Derivations.GroupByTeam | src/pages/Index.tsx:127-133 | the `forEach` loop: one group per team id, including empty groups, holding the filtered employees whose team equals that id, in filtered order |
| Derivations.GroupSpec | src/pages/Index.tsx:130 | a group is an ordered subsequence of the filtered list, holds exactly the shown employees of that team, and is never larger than the team's badge |
| Derivations.GroupsCoverFiltered | src/pages/Index.tsx:127-133 | the groups together hold at most the filtered list, and all of it iff every filtered employee's team string is trimmed and non-empty (otherwise that employee is in no group) |
| Handlers.CycleNext | src/pages/Index.tsx:148-149 | the result is in the order, and a value not in the order (index -1) goes to the first element |
| Handlers.NextStatus | src/pages/Index.tsx:147-151 | the next status is always one of the four declared ones, and an unknown status goes to Active |
| Handlers.NextStatusRound | src/pages/Index.tsx:146-149 | Active → Pending → Hiring → Backfill → Active |
| Handlers.CycleHasPeriodFour | src/pages/Index.tsx:146-151 | n > 0 clicks bring a declared status back iff n is a multiple of 4, so there is no earlier repeat |
| Handlers.IteratePeriod | src/pages/Index.tsx:149 | for any step function that goes round four distinct values, n steps return to the start iff 4 divides n |
| Handlers.UnknownStatusClicksToActive | src/pages/Index.tsx:149 | a status outside the four (such as "Activo") becomes Active on the first click |
| Handlers.DropWrite | src/pages/Index.tsx:159-166 | a drop makes a team update of the dragged id to the column id iff the dragged employee's team differs from it |
| Handlers.DeleteWrite | src/pages/Index.tsx:176-184 | a delete request for the employee's id is made iff the confirmation was accepted |
| Handlers.ClickThenFetch | src/pages/Index.tsx:141-151 | of `ClickWrite` and `StatusChangeWrite`: after a click and the refetch, the clicked employee has the next status of the cycle and every employee with another id is unchanged |
| Handlers.DropThenFetch | src/pages/Index.tsx:159-166 | after a drop and the refetch, the employee's team is the column id, and if it passes the filter it is shown in that column |
| Handlers.DropRaisesCount | src/pages/Index.tsx:159-166 | dropping an employee on a column whose id differs from its team string makes it carry that id after the refetch and raises the count of that team |
| Handlers.DropOnOwnColumnCleansTeam | src/pages/Index.tsx:159-166 | for an employee whose team string has surrounding blanks, dropped on the column of its trimmed name: that name is a team id, a write is made, and after the refetch the employee carries the trimmed name and the team's count has gone up |
| Handlers.DeleteNeedsConfirmation | src/pages/Index.tsx:176-178 | a declined confirmation leaves the store unchanged; an accepted one removes exactly the employees with that id, keeping the order |
| Handlers.Dashboard.constructor | src/pages/Index.tsx:31-32 | the page starts with an empty list and the effect mounted |
| Handlers.Dashboard.FetchSettled | src/pages/Index.tsx:34-53  | a successful fetch replaces the list only while mounted; a failure or a late result leaves it unchanged |
| Handlers.Dashboard.ChangeNotified | src/pages/Index.tsx:49-50 | a change notification starts a refetch iff the effect is still mounted |
| Handlers.Dashboard.Teardown | src/pages/Index.tsx:57-60 | the cleanup clears `mounted` and leaves the list as it was |
| Handlers.LateFetchIgnored | src/pages/Index.tsx:37-58  | after teardown no refetch starts, and a fetch that settles then changes nothing |
| Handlers.LastFetchWins | src/pages/Index.tsx:37-52  | while mounted, the list shown is the last successful fetch; a later failure does not clear it |
| Ingestion.NormalizeStatus | src/data/loadEmployees.ts:25-32 | total; always one of Activo, Pending, Hiring, Backfill |
| Ingestion.NormalizeIgnoresCaseAndSpace | src/data/loadEmployees.ts:26 | the result depends only on the trimmed, lower-cased input |
| Ingestion.NormalizeByKey | src/data/loadEmployees.ts:27-31 | activo/active give Activo; pending/pendiente give Pending; hiring gives Hiring; backfill gives Backfill; any other key gives Pending |
| Ingestion.CapitalisedActivoIsActive | src/data/loadEmployees.ts:26-27 | "Activo" normalises to Activo |
| Ingestion.EmptyOrUnknownIsPending | src/data/loadEmployees.ts:25-32 | a trimmed status whose lower-case form is none of the known spellings normalises to Pending |
| Ingestion.EmptyIsPending | src/data/loadEmployees.ts:25-32 | the empty status normalises to Pending |
| Ingestion.NormalizedIsFixed | src/data/loadEmployees.ts:25-32 | each of the four import statuses normalises to itself |
| Ingestion.NormalizeIdempotent | src/data/loadEmployees.ts:25-32 | normalising twice is normalising once |
| Ingestion.NormalizeNeverActive | src/data/loadEmployees.ts:25-32  | the import never yields the dashboard's spelling "Active" |
| Ingestion.StatusKeyIdempotent | src/data/loadEmployees.ts:26 | trimming and lower-casing twice is doing it once |
| Ingestion.MakeIdDated | src/data/loadEmployees.ts:20-23 | of `MakeId`: with a non-empty date the id does not depend on the random draw, and it ends in exactly the date's digits |
| Ingestion.MakeIdUndated | src/data/loadEmployees.ts:23 | without a date the id ends in the random draw |
| Ingestion.NameDefault | src/data/loadEmployees.ts:21 | an empty name gives the segment `emp` |
| Ingestion.TeamDefault | src/data/loadEmployees.ts:21-23 | an empty team gives the segment `team` |
| Ingestion.NameSegmentShape | src/data/loadEmployees.ts:21 | the name segment has no whitespace and no upper-case ASCII letter |
| Ingestion.NameSegmentTwoWords | src/data/loadEmployees.ts:21 | a name of two words separated by whitespace gives the two words lower-cased and joined by a single `-` |
| Ingestion.OptionalCellShape | src/data/loadEmployees.ts:45-54  | an optional cell is absent iff missing or empty, and trimmed when present |
| Ingestion.MapRowFields | src/data/loadEmployees.ts:42-57 | of `MapRow`: which cell each field of a mapped row comes from, and the id is made from the mapped name, team and date |
| Ingestion.MapRowShape | src/data/loadEmployees.ts:42-57 | name, team and position are trimmed; the status is an import status; levelling, photo and startDate are absent iff their cell is missing or empty, and trimmed otherwise |
| Ingestion.MapRows | src/data/loadEmployees.ts:42 | one record per parsed row, in row order |
| Ingestion.BlankNameKept | src/data/loadEmployees.ts:42-48  | a row with a blank name is kept, named "", and its id uses the `emp` fallback |
| RowCodec.FromRows | src/services/employees.ts:13-21 | the fetch mapping keeps the number and order of rows |
| RowCodec.FromRowFields | src/services/employees.ts:13-21 | of `FromRow`: level is "" for a null `levelling` and copied otherwise; a null photo is absent; status and the other fields are copied unchanged |
| RowCodec.FetchEmployees | src/services/employees.ts:5-22 | a store error is rethrown; null data reads as the empty list; otherwise one employee per row, in order |
| RowCodec.InsertThenFetch | src/services/employees.ts:13-33 | of `AddEmployee` and `ToInsertPayload`: reading an inserted payload back, under any id, reproduces every field; a missing level reads back as "" |
| RowCodec.FetchThenInsert | src/services/employees.ts:13-33  | a row with a level that is read and then inserted again gives the same row |
| RowCodec.NullLevellingBecomesEmpty | src/services/employees.ts:18-30  | a null `levelling` is the one thing that does not survive a read and re-insert: it comes back as "" |
| RowCodec.ApplyWrite | src/services/employees.ts:26-54  | an update keeps the number of rows; an insert adds exactly one; a delete never adds any |
| RowCodec.PatchCommutes | src/services/employees.ts:38-50  | updating one column of a row and then reading it is reading it and then changing only that field |
| RowCodec.UpdateThenFetch | src/services/employees.ts:38-50 | of `UpdateEmployeeStatus` and `UpdateEmployeeTeam`: after a single-field update of an id, employees with that id have that field changed and every other employee is unchanged, in place |
| RowCodec.DeleteThenFetch | src/services/employees.ts:54 | of `DeleteEmployee`: after a delete of an id, the refetched list is the old one without that id, in order |
| RowCodec.FromRowsDelete | src/services/employees.ts:13-54  | reading commutes with removing the rows of one id |
| RowCodec.DeleteIdempotent | src/services/employees.ts:54 | deleting the same id twice is deleting it once |
| RowCodec.InsertThenFetchAll | src/services/employees.ts:26-33 | an insert keeps the existing employees and adds the new one at the end, under the assigned id |
| RowCodec.InsertThenFetchMultiset | src/services/employees.ts:26-33 | independently of where the new row is placed: the refetched employees are the old ones plus the new one, each as often as before |
| RowCodec.Completion | src/services/employees.ts:34-55  | a write fails iff the store returned an error, and then with that same error |
| TeamSummary.StatOf | src/components/TeamSummaryCards.tsx:13-20 | the card's total counts employees whose team is exactly the team id; each status count counts those employees with exactly that status |
| TeamSummary.TeamStats | src/components/TeamSummaryCards.tsx:11-22 | one entry per team, in the order of the teams, each with the counts of `StatOf` |
| TeamSummary.StatusAmongMembers | src/components/TeamSummaryCards.tsx:13-17 | counting a status among a team's members counts the employees of that team with that status |
| TeamSummary.StatusCountsBound | src/components/TeamSummaryCards.tsx:14-18 | a card's four status counts add up to at most its total, and to exactly the total iff every member has a declared status |
| TeamSummary.TotalIsByTeamBadge | src/components/TeamSummaryCards.tsx:13-18  | a card's total equals the page's `byTeam` badge for the same team |
| TeamSummary.SumTotalsIsSumKeyCounts | src/components/TeamSummaryCards.tsx:12-18 | the cards' totals add up to the sum of the per-team counts |
| TeamSummary.TotalsBound | src/components/TeamSummaryCards.tsx:12-18 | for distinct team ids the cards' totals add up to at most the number of employees |
| TeamSummary.DerivedTeamTotals | src/components/TeamSummaryCards.tsx:12-18 | for the page's derived teams, the totals add up to at most the number of employees, and to exactly that iff every team string is trimmed and non-empty |
| EmployeeCard.Initials | src/components/EmployeeCard.tsx:11-18 | one initial for each of the first two (at most) non-empty whitespace-separated words, in word order, each that word's first character upper-cased |
| EmployeeCard.InitialsFromName | src/components/EmployeeCard.tsx:13-16 | every initial is an upper-cased non-whitespace character of the name |
| EmployeeCard.InitialsAreUpper | src/components/EmployeeCard.tsx:16 | no initial is a lower-case ASCII letter |
| EmployeeCard.BlankNameHasNoInitials | src/components/EmployeeCard.tsx:13-14 | an empty or all-whitespace name has no initials |
| EmployeeCard.OneWordOneInitial | src/components/EmployeeCard.tsx:13-17 | a one-word name has exactly one initial: its first character upper-cased |
| EmployeeCard.TwoWordsTwoInitials | src/components/EmployeeCard.tsx:11-18 | a name of two words separated by whitespace has exactly two initials: the first characters of the two words, upper-cased |
| EmployeeCard.StatusBadgeClass | src/components/EmployeeCard.tsx:20-33 | total; the fallback class is returned iff the status is not one of the four declared ones |
| EmployeeCard.BadgeClassesDistinct | src/components/EmployeeCard.tsx:21-29 | the four declared statuses get four different classes |
| EmployeeCard.ActivoGetsFallback | src/components/EmployeeCard.tsx:30-31 | "Activo" gets the fallback class |
| EmployeeCard.MenuWrite | src/components/EmployeeCard.tsx:102-113 | the i-th menu item sends a status update of the card's id to the i-th target |
| EmployeeCard.MenuThenFetch | src/components/EmployeeCard.tsx:102-113 | the menu offers exactly the four declared statuses; after choosing one and the refetch the employee has that status and its own badge, and everybody else is unchanged |
| UriComponent.DecodeEncode | src/components/AddEmployeeDialog.tsx:32 | of `Encode`: decoding the percent-encoding of a string gives back the string |
| UriComponent.EncodeInjective | src/components/AddEmployeeDialog.tsx:32 | different strings never encode alike |
| UriComponent.EncodedIsUrlSafe | src/components/AddEmployeeDialog.tsx:32 | the encoding consists only of unreserved characters and `%` |
| UriComponent.UnreservedUnchanged | src/components/AddEmployeeDialog.tsx:32 | a string of unreserved characters encodes to itself |
| UriComponent.Utf8RoundTrip | src/components/AddEmployeeDialog.tsx:32 | a code point's UTF-8 bytes decode back to it, and the first byte announces how many there are |
| AddEmployeeDialog.EmptyForm | src/components/AddEmployeeDialog.tsx:17-42  | a blank form: empty fields, status Activo, start date the given day |
| AddEmployeeDialog.AvatarUrl | src/components/AddEmployeeDialog.tsx:32 | the avatar URL is the avatar-service prefix followed by a URL-safe seed |
| AddEmployeeDialog.AvatarUrlIdentifiesName | src/components/AddEmployeeDialog.tsx:32 | two names get the same generated avatar only if they are equal |
| AddEmployeeDialog.PlainNameSeedsItself | src/components/AddEmployeeDialog.tsx:32 | a name of unreserved characters is the seed as it is |
| AddEmployeeDialog.Submission | src/components/AddEmployeeDialog.tsx:30-33 | the submitted photo is never empty; a non-empty photo and all other fields pass through unchanged; an empty photo becomes the generated avatar |
| AddEmployeeDialog.SubmissionReachesStore | src/components/AddEmployeeDialog.tsx:30-33 | of `AsNewEmployee`: the store receives name, team, position, status and the non-empty photo with an empty level; email and start date are dropped |
| AddEmployeeDialog.Dialog.constructor | src/components/AddEmployeeDialog.tsx:16-25 | the dialog starts closed with a blank form |
| AddEmployeeDialog.Dialog.SetOpen | src/components/AddEmployeeDialog.tsx:48 | opening or closing leaves the form as it is |
| AddEmployeeDialog.Dialog.ChooseStatus | src/components/AddEmployeeDialog.tsx:111-118 | choosing a status option changes only the form's status |
| AddEmployeeDialog.Dialog.Edit | src/components/AddEmployeeDialog.tsx:65-139  | editing the inputs changes those fields and nothing else |
| AddEmployeeDialog.Dialog.HandleSubmit | src/components/AddEmployeeDialog.tsx:27-45 | if name, email and team are non-empty (`IsComplete`), the submission is handed on, the form is reset (dated the given day) and the dialog closes; otherwise nothing is handed on and form and open flag are unchanged |
| AddEmployeeDialog.StatusOptionsExcludeBackfill | src/components/AddEmployeeDialog.tsx:111-118  | the options are Activo, Pending and Hiring: Backfill cannot be chosen, the default is among them, and only Pending and Hiring are declared statuses |
| AddEmployeeDialog.DefaultStatusCountsInNoKpi | src/components/AddEmployeeDialog.tsx:22-33  | an employee added with the default status is stored as Activo: after the refetch it adds one to the total, leaves every status KPI unchanged and shows the fallback badge |
| Text.TrimStart | src/pages/Index.tsx:68 | a suffix of the input whose dropped prefix is all whitespace and which does not start with whitespace |
| Text.TrimEnd | src/pages/Index.tsx:68 | a prefix of the input whose dropped suffix is all whitespace and which does not end with whitespace |
| Text.Trim | src/pages/Index.tsx:68-81 | the result has no surrounding whitespace and is a contiguous slice of the input with only whitespace before and after it |
| Text.TrimIsUnique | src/pages/Index.tsx:68 | any slice of the input with only whitespace around it and none at its own ends is the trimmed string, so the two properties above determine `trim` |
| Text.TrimTrimmed | src/pages/Index.tsx:68 | trimming a trimmed string changes nothing |
| Text.WordsCoverText | src/components/EmployeeCard.tsx:13-14 | the words of a string, concatenated, are exactly its non-whitespace characters in order |
| Text.Words | src/components/EmployeeCard.tsx:13-14 | every word is non-empty and contains no whitespace |
| Text.WordsCons | src/components/EmployeeCard.tsx:13-14 | a word followed by a whitespace run and more text: it is the first word, and the remaining words are those of the text after the run |
| Text.WordsSplitAtSpace | src/components/EmployeeCard.tsx:13-14 | a word followed by whitespace or by nothing is the first word, and the remaining words are those of what follows |
| Text.WordsAfterSpaces | src/components/EmployeeCard.tsx:13-14 | leading whitespace contributes no word |
| Text.OneWord | src/components/EmployeeCard.tsx:13-14 | a single word is its own only word |
| Text.BlankHasNoWords | src/components/EmployeeCard.tsx:13-14 | an all-whitespace string has no words |
| Text.CollapseSpaces | src/data/loadEmployees.ts:21 | the result has no whitespace and only `-` or characters of the input, and a string without whitespace is unchanged |
| Text.CollapseRun | src/data/loadEmployees.ts:21 | a whole whitespace run (followed by a non-whitespace character or the end) becomes exactly one `-` |
| Text.CollapseKeepsWord | src/data/loadEmployees.ts:21 | a whitespace-free prefix passes through unchanged |
| Text.CollapseTwoWords | src/data/loadEmployees.ts:21 | two words separated by a whitespace run become the two words joined by one `-` |
| Text.Sort | src/pages/Index.tsx:84 | the result is sorted and a permutation of the input |
| Text.SortDistinct | src/pages/Index.tsx:78-84 | sorting distinct strings gives a strictly ascending sequence |
| Text.StrLessTransitive | src/pages/Index.tsx:84 | the code-point order is transitive |
| Text.StrLessTotal | src/pages/Index.tsx:84 | any two different strings are ordered one way or the other |
| Text.IncludesIff | src/pages/Index.tsx:119-121 | `includes` holds iff the term occurs at some position of the string |
| Seqs.Dedup | src/pages/Index.tsx:65-71 | `new Set`: the result has no duplicates and the same members as the input |
| Seqs.DedupFirstSeenOrder | src/pages/Index.tsx:65-71 | the distinct values appear in the order of their first occurrence |
| Seqs.IndexOf | src/pages/Index.tsx:149 | the first position of the value, or -1 exactly when it is absent |
| Seqs.FilterIsSubseq | src/pages/Index.tsx:113 | a filter keeps its elements in their original order |
| Seqs.FilterAnd | src/components/TeamSummaryCards.tsx:13-14 | filtering by one predicate and then another keeps what satisfies both |

## Left out

- Store I/O and realtime. The client, the `await` calls, the channel subscription and its
  removal (src/pages/Index.tsx:44-59) are foreign I/O. src/lib/supabase.ts is not part of
  this model. Fetch results arrive as inputs (`Dashboard.FetchSettled`). Requests are values
  of `Write`. `ApplyWrite` is the model's own account of the store's effect, so that
  read-after-write can be stated.
- The store's row order (`.order("name")`) is not modelled. `FetchEmployees` keeps whatever
  order the rows arrive in, and an insert is placed at the end of the table.
- Racing refetches. Two overlapping fetches settle in whichever order they complete, and the
  code has no guard for this. The model treats each settled fetch as a separate event.
- The CSV fetch and its parsing (src/data/loadEmployees.ts:36-40) are I/O and a library. The
  model starts from parsed rows whose cells are present or absent.
- `handleEditEmployee` calls `updateEmployee`, which src/services/employees.ts does not
  define, so there is nothing to model.
- `Math.random` (in `makeId`) and `new Date()` (in the dialog) are parameters: `random` and
  `today`.
- `confirm` is an input (`confirmed`). The drop target id is the column's team id
  (src/components/TeamSection.tsx:30). The JSON drag payload is taken to be the dragged
  `Employee` value itself. Toast messages and `console.error` are not modelled.
- Presentation. JSX, src/components/FilterBar.tsx, src/components/StatsCards.tsx,
  src/components/TeamSection.tsx, the image-error state of the card, and the `?? 0` shown
  for a missing level count are not modelled. src/data/mockData.ts is static data and not
  part of this model.
- Case mapping covers ASCII letters only. Other characters are unchanged, which differs from
  full Unicode `toLowerCase`/`toUpperCase` (e.g. `É`).
- Strings are sequences of Unicode scalar values, not UTF-16 code units. So `sort()` orders
  by code point, which matches UTF-16 order except against supplementary characters, and a
  lone surrogate (which makes `encodeURIComponent` throw) cannot occur.
- JavaScript object keys are modelled as a Dafny `map`, ignoring prototype keys such as
  `__proto__`.
- The dialog's separate `onChange` handlers are modelled as one `Edit` method setting all text
  fields. A sequence of single-field edits is one such call per edit.
- The browser's own `required` check on the name and email inputs is not modelled. Only the
  handler's own guard is.
- CollapseSpaces: its own contract states only the shape of the result; the replacement
  of each whitespace run by exactly one `-` is stated by `CollapseRun`, `CollapseKeepsWord` and
  `CollapseTwoWords`, not as one closed formula over arbitrary inputs.
- NameSegmentShape: states the character classes of the name segment only; its exact
  value is stated for names of one or two words (`NameSegmentTwoWords`), not for any number.
- WordsCoverText: states the concatenation of the words; where the words split is stated
  by `WordsCons`, `WordsSplitAtSpace` and `WordsAfterSpaces`.
- Derivations.Passes: JavaScript `includes` is modelled by position; a search term that only
  matches after Unicode case folding is not covered (see the ASCII case mapping above).
