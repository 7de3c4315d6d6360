/** Turning rows of the CSV seed file into employee records, leniently. */
module Ingestion {
  import opened Wrappers
  import opened Seqs
  import opened Text

  /** The statuses of the import format; note `Activo`, not `Active`. */
  predicate IsImportStatus(s: string) {
    s == "Activo" || s == "Pending" || s == "Hiring" || s == "Backfill"
  }

  /** The comparison key of a status: trimmed and lower-cased. */
  function StatusKey(s: string): string {
    TrimLower(s)
  }

  /** The `if` chain of `normalizeStatus`, applied to the key. */
  function StatusOfKey(x: string): (r: string)
    ensures IsImportStatus(r)
  {
    if x == "activo" || x == "active" then "Activo"
    else if x == "pending" || x == "pendiente" then "Pending"
    else if x == "hiring" then "Hiring"
    else if x == "backfill" then "Backfill"
    else "Pending"
  }

  /**
   * `normalizeStatus`: compares the trimmed, lower-cased input against the known spellings;
   * anything unrecognised becomes `Pending`, so no row is ever rejected for its status.
   */
  function NormalizeStatus(s: string): (r: string)
    ensures IsImportStatus(r)
  {
    StatusOfKey(StatusKey(s))
  }

  /** The key of a string that is already trimmed and lower-case is the string itself. */
  lemma {:induction false} StatusKeyIdempotent(s: string)
    ensures StatusKey(StatusKey(s)) == StatusKey(s)
  {
    var t := Trim(s);
    LowerTrimmed(t);
    TrimTrimmed(Lower(t));
    LowerIdempotent(t);
  }

  /** Case and surrounding whitespace make no difference. */
  lemma NormalizeIgnoresCaseAndSpace(s: string)
    ensures NormalizeStatus(s) == NormalizeStatus(StatusKey(s))
  {
    StatusKeyIdempotent(s);
  }

  /** Which key gives which status; every other key, the empty one included, gives `Pending`. */
  lemma NormalizeByKey(s: string)
    ensures StatusKey(s) == "activo" || StatusKey(s) == "active" ==> NormalizeStatus(s) == "Activo"
    ensures StatusKey(s) == "pending" || StatusKey(s) == "pendiente" ==> NormalizeStatus(s) == "Pending"
    ensures StatusKey(s) == "hiring" ==> NormalizeStatus(s) == "Hiring"
    ensures StatusKey(s) == "backfill" ==> NormalizeStatus(s) == "Backfill"
    ensures !IsKnownSpelling(StatusKey(s)) ==> NormalizeStatus(s) == "Pending"
  {
  }

  /** The spellings `NormalizeStatus` recognises, after trimming and lower-casing. */
  predicate IsKnownSpelling(x: string) {
    x == "activo" || x == "active" || x == "pending" || x == "pendiente" || x == "hiring" || x == "backfill"
  }

  /** `"Activo"` is an active spelling. */
  lemma CapitalisedActivoIsActive(s: string)
    requires s == "Activo"
    ensures NormalizeStatus(s) == "Activo"
  {
    TrimLowerOfTrimmed(s);
    assert Lower(s) == "activo";
    NormalizeByKey(s);
  }

  /**
   * A status without surrounding whitespace whose lower-case form is none of the known
   * spellings, the empty string included, defaults to `Pending`.
   */
  lemma EmptyOrUnknownIsPending(s: string)
    requires IsTrimmed(s) && !IsKnownSpelling(Lower(s))
    ensures NormalizeStatus(s) == "Pending"
  {
    TrimLowerOfTrimmed(s);
    UnknownKeyIsPending(Lower(s));
  }

  lemma UnknownKeyIsPending(x: string)
    requires !IsKnownSpelling(x)
    ensures StatusOfKey(x) == "Pending"
  {
  }

  /** So the empty status becomes `Pending`. */
  lemma EmptyIsPending()
    ensures NormalizeStatus("") == "Pending"
  {
    EmptyOrUnknownIsPending("");
  }

  lemma PendingIsFixed(s: string)
    requires s == "Pending"
    ensures NormalizeStatus(s) == s
  {
    TrimLowerOfTrimmed(s);
    assert Lower(s) == "pending";
    NormalizeByKey(s);
  }

  lemma HiringIsFixed(s: string)
    requires s == "Hiring"
    ensures NormalizeStatus(s) == s
  {
    TrimLowerOfTrimmed(s);
    assert Lower(s) == "hiring";
    NormalizeByKey(s);
  }

  lemma BackfillIsFixed(s: string)
    requires s == "Backfill"
    ensures NormalizeStatus(s) == s
  {
    TrimLowerOfTrimmed(s);
    assert Lower(s) == "backfill";
    NormalizeByKey(s);
  }

  /** Each of the four import statuses normalises to itself. */
  lemma NormalizedIsFixed(r: string)
    requires IsImportStatus(r)
    ensures NormalizeStatus(r) == r
  {
    if r == "Activo" {
      CapitalisedActivoIsActive(r);
    } else if r == "Pending" {
      PendingIsFixed(r);
    } else if r == "Hiring" {
      HiringIsFixed(r);
    } else {
      BackfillIsFixed(r);
    }
  }

  /** Normalising a normalised status returns it unchanged. */
  lemma NormalizeIdempotent(s: string)
    ensures NormalizeStatus(NormalizeStatus(s)) == NormalizeStatus(s)
  {
    NormalizedIsFixed(NormalizeStatus(s));
  }

  /** The import never yields the dashboard's `Active` spelling. */
  lemma NormalizeNeverActive(s: string)
    ensures NormalizeStatus(s) != "Active"
  {
  }

  /** The name part of an id: `(name || 'emp').trim().toLowerCase().replace(/\s+/g, '-')`. */
  function NameSegment(name: string): string {
    CollapseSpaces(TrimLower(if name == "" then "emp" else name))
  }

  /** The team part of an id: `(team || 'team').trim().toLowerCase()`. */
  function TeamSegment(team: string): string {
    TrimLower(if team == "" then "team" else team)
  }

  /** `date.replace(/[^0-9]/g, '')` */
  function DateDigits(date: string): string {
    Filter(IsDigit, date)
  }

  /**
   * `makeId(name, team, date)`. A missing or empty date falls back to a random suffix;
   * `random` stands for that draw.
   */
  function MakeId(name: string, team: string, date: Option<string>, random: string): string {
    NameSegment(name) + "-" + TeamSegment(team) + "-"
      + (if date.Some? && date.value != "" then DateDigits(date.value) else random)
  }

  /** With a date, the id does not depend on the random draw and ends in the date's digits. */
  lemma MakeIdDated(name: string, team: string, date: string, random1: string, random2: string)
    requires date != ""
    ensures MakeId(name, team, Some(date), random1) == MakeId(name, team, Some(date), random2)
    ensures var id := MakeId(name, team, Some(date), random1);
      |DateDigits(date)| <= |id| && id[|id| - |DateDigits(date)|..] == DateDigits(date)
    ensures forall c :: c in DateDigits(date) <==> c in date && IsDigit(c)
  {
  }

  /** Without a date (or with an empty one), the suffix is the random draw. */
  lemma MakeIdUndated(name: string, team: string, date: Option<string>, random: string)
    requires date.None? || date == Some("")
    ensures MakeId(name, team, date, random) == NameSegment(name) + "-" + TeamSegment(team) + "-" + random
  {
  }

  /** An empty name falls back to `emp`. */
  lemma NameDefault(name: string)
    requires name == ""
    ensures NameSegment(name) == "emp"
  {
    var w := "emp";
    assert w[0] == 'e' && w[1] == 'm' && w[2] == 'p';
    PlainLowerWord(w);
  }

  /** An empty team falls back to `team`. */
  lemma TeamDefault(team: string)
    requires team == ""
    ensures TeamSegment(team) == "team"
  {
    var w := "team";
    assert w[0] == 't' && w[1] == 'e' && w[2] == 'a' && w[3] == 'm';
    PlainLowerWord(w);
  }

  /** A lower-case word without whitespace passes through trimming, lower-casing and collapsing unchanged. */
  lemma PlainLowerWord(w: string)
    requires forall c :: c in w ==> 'a' <= c <= 'z'
    ensures TrimLower(w) == w && CollapseSpaces(w) == w
  {
    assert forall c :: c in w ==> !IsSpace(c) by {
      forall c | c in w ensures !IsSpace(c) {
        LetterIsNotSpace(c);
      }
    }
    if w != [] {
      assert w[0] in w && w[|w| - 1] in w;
    }
    TrimLowerOfTrimmed(w);
    LowerOfLowercase(w);
  }

  lemma LetterIsNotSpace(c: char)
    requires 'a' <= c <= 'z'
    ensures !IsSpace(c)
  {
  }

  /** The name segment holds no whitespace and no upper-case ASCII letter. */
  lemma NameSegmentShape(name: string)
    ensures forall c :: c in NameSegment(name) ==> !IsSpace(c) && !('A' <= c <= 'Z')
  {
    var low := TrimLower(if name == "" then "emp" else name);
    LowerHasNoUpper(Trim(if name == "" then "emp" else name));
    assert forall c :: c in low ==> !('A' <= c <= 'Z');
    assert forall c :: c in CollapseSpaces(low) ==> c == '-' || c in low;
  }

  /**
   * Whitespace inside a name becomes a single `-`: two words separated by any run of
   * whitespace give the segment `a-b`, lower-cased, with the words in their order.
   */
  lemma NameSegmentTwoWords(a: string, sp: string, b: string)
    requires IsWord(a) && IsWord(b)
    requires sp != [] && forall c :: c in sp ==> IsSpace(c)
    ensures NameSegment(a + sp + b) == Lower(a) + "-" + Lower(b)
  {
    var name := a + sp + b;
    assert name[0] == a[0] && a[0] in a;
    assert name[|name| - 1] == b[|b| - 1] && b[|b| - 1] in b;
    TrimTrimmed(name);
    LowerConcat(a + sp, b);
    LowerConcat(a, sp);
    LowerKeepsSpaces(sp);
    LowerKeepsSpaces(a);
    LowerKeepsSpaces(b);
    assert forall c :: c in Lower(sp) ==> IsSpace(c);
    assert forall c :: c in Lower(a) ==> !IsSpace(c);
    assert forall c :: c in Lower(b) ==> !IsSpace(c);
    CollapseTwoWords(Lower(a), Lower(sp), Lower(b));
  }

  /** A parsed CSV row: each cell is absent when the column is missing. */
  datatype CsvRow = CsvRow(
    name: Option<string>,
    team: Option<string>,
    position: Option<string>,
    levelling: Option<string>,
    status: Option<string>,
    photo: Option<string>,
    date: Option<string>)

  /** The record `loadEmployees` produces. */
  datatype ImportedEmployee = ImportedEmployee(
    id: string,
    name: string,
    team: string,
    position: string,
    levelling: Option<string>,
    status: string,
    photo: Option<string>,
    startDate: Option<string>)

  /** `String(cell || '')` */
  function CellText(cell: Option<string>): string {
    cell.GetOr("")
  }

  /** `cell ? String(cell).trim() : undefined`: an empty cell is falsy. */
  function OptionalCell(cell: Option<string>): Option<string> {
    if cell.Some? && cell.value != "" then Some(Trim(cell.value)) else None
  }

  /** One row of `loadEmployees`' `.map`; `random` is the draw `makeId` would make. */
  function MapRow(r: CsvRow, random: string): ImportedEmployee {
    var name := Trim(CellText(r.name));
    var team := Trim(CellText(r.team));
    var date := OptionalCell(r.date);
    ImportedEmployee(
      MakeId(name, team, date, random),
      name,
      team,
      Trim(CellText(r.position)),
      OptionalCell(r.levelling),
      NormalizeStatus(CellText(r.status)),
      OptionalCell(r.photo),
      date)
  }

  /** An optional cell is absent exactly when missing or empty, and trimmed when present. */
  lemma OptionalCellShape(cell: Option<string>)
    ensures OptionalCell(cell).None? <==> cell.None? || cell == Some("")
    ensures OptionalCell(cell).Some? ==> IsTrimmed(OptionalCell(cell).value)
  {
  }

  /** Which cell each field of a mapped row comes from. */
  lemma MapRowFields(r: CsvRow, random: string)
    ensures var e := MapRow(r, random);
      && e.name == Trim(CellText(r.name))
      && e.team == Trim(CellText(r.team))
      && e.position == Trim(CellText(r.position))
      && e.status == NormalizeStatus(CellText(r.status))
      && e.levelling == OptionalCell(r.levelling)
      && e.photo == OptionalCell(r.photo)
      && e.startDate == OptionalCell(r.date)
      && e.id == MakeId(e.name, e.team, e.startDate, random)
  {
  }

  /**
   * Every text field of a mapped row is trimmed, the status is normalised, an empty or
   * missing optional cell is absent, and the id is built from the mapped name, team and date.
   */
  lemma MapRowShape(r: CsvRow, random: string)
    ensures var e := MapRow(r, random);
      && IsTrimmed(e.name) && IsTrimmed(e.team) && IsTrimmed(e.position)
      && IsImportStatus(e.status)
      && (e.levelling.None? <==> r.levelling.None? || r.levelling == Some(""))
      && (e.photo.None? <==> r.photo.None? || r.photo == Some(""))
      && (e.startDate.None? <==> r.date.None? || r.date == Some(""))
      && (e.levelling.Some? ==> IsTrimmed(e.levelling.value))
      && (e.photo.Some? ==> IsTrimmed(e.photo.value))
      && (e.startDate.Some? ==> IsTrimmed(e.startDate.value))
      && e.id == MakeId(e.name, e.team, e.startDate, random)
  {
    MapRowFields(r, random);
    OptionalCellShape(r.date);
    OptionalCellShape(r.levelling);
    OptionalCellShape(r.photo);
  }

  /** `loadEmployees` after parsing: one record per row, in row order; `random(i)` is row i's draw. */
  function MapRows(rows: seq<CsvRow>, random: nat -> string): (es: seq<ImportedEmployee>)
    ensures |es| == |rows|
    ensures forall i :: 0 <= i < |rows| ==> es[i] == MapRow(rows[i], random(i))
  {
    seq(|rows|, i requires 0 <= i < |rows| => MapRow(rows[i], random(i)))
  }

  /** A row with a blank name still yields a record, named `""`, and ids fall back to `emp`. */
  lemma BlankNameKept(r: CsvRow, random: string)
    requires r.name.None? || r.name == Some("")
    ensures MapRow(r, random).name == ""
    ensures var e := MapRow(r, random); e.id == MakeId("", e.team, e.startDate, random)
  {
  }
}
