/**
 * The "add employee" dialog: a form whose submit hands a new employee to the add handler when
 * name, email and team are filled in, then clears the form and closes.
 */
module AddEmployeeDialog {
  import opened Wrappers
  import opened Seqs
  import opened Entities
  import opened RowCodec
  import opened Handlers
  import opened Derivations
  import opened UriComponent
  import opened EmployeeCard

  /** The form's fields; `startDate` is the `YYYY-MM-DD` text of a date. */
  datatype FormData = FormData(
    name: string,
    email: string,
    position: string,
    team: string,
    status: string,
    photo: string,
    startDate: string)

  /** The status the form starts with. */
  const DefaultStatus := "Activo"

  /** The statuses the status select offers. */
  const StatusOptions: seq<string> := ["Activo", "Pending", "Hiring"]

  /** A blank form dated `today` (the date the page supplies when it builds the form). */
  function EmptyForm(today: string): (f: FormData)
    ensures f.name == "" && f.email == "" && f.position == "" && f.team == "" && f.photo == ""
    ensures f.status == DefaultStatus && f.startDate == today
  {
    FormData("", "", "", "", DefaultStatus, "", today)
  }

  /** The submit guard: name, email and team are required; position and photo are not. */
  predicate IsComplete(f: FormData) {
    f.name != "" && f.email != "" && f.team != ""
  }

  const AvatarBase := "https://api.dicebear.com/7.x/avataaars/svg?seed="

  /** The generated avatar: the avatar service's URL seeded with the encoded name. */
  function AvatarUrl(name: string): (url: string)
    ensures |url| >= |AvatarBase| && url[..|AvatarBase|] == AvatarBase
    ensures forall c :: c in url[|AvatarBase|..] ==> Unreserved(c) || c == '%'
  {
    EncodedIsUrlSafe(name);
    var url := AvatarBase + Encode(name);
    assert url[|AvatarBase|..] == Encode(name);
    url
  }

  /** Different names get different avatars: the seed determines the name. */
  lemma AvatarUrlIdentifiesName(a: string, b: string)
    requires AvatarUrl(a) == AvatarUrl(b)
    ensures a == b
  {
    assert AvatarUrl(a)[|AvatarBase|..] == Encode(a);
    assert AvatarUrl(b)[|AvatarBase|..] == Encode(b);
    EncodeInjective(a, b);
  }

  /** A name of letters and digits seeds the avatar with itself. */
  lemma PlainNameSeedsItself(name: string)
    requires forall c :: c in name ==> Unreserved(c)
    ensures AvatarUrl(name) == AvatarBase + name
  {
    UnreservedUnchanged(name);
  }

  /**
   * What the dialog hands to the add handler: the form as it is, except that an empty photo
   * is replaced by the generated avatar. The photo it hands on is never empty.
   */
  function Submission(f: FormData): (s: FormData)
    ensures s.photo != ""
    ensures f.photo != "" ==> s == f
    ensures f.photo == "" ==> s == f.(photo := AvatarUrl(f.name))
  {
    if f.photo != "" then f else f.(photo := AvatarUrl(f.name))
  }

  /** The employee the add handler passes on to the store: no level, and the form's photo. */
  function AsNewEmployee(s: FormData): NewEmployee {
    NewEmployee(s.name, s.team, s.position, None, s.status, Some(s.photo))
  }

  /**
   * A submission reaches the store as an insert of name, team, position, status and photo,
   * with an empty level; the email and start date go nowhere.
   */
  lemma SubmissionReachesStore(f: FormData)
    ensures var p := AddWrite(AsNewEmployee(Submission(f))).payload;
      && p == InsertPayload(f.name, f.team, f.position, "", f.status, Some(Submission(f).photo))
      && p.photo.Some? && p.photo.value != ""
  {
  }

  /** The dialog's own state: whether it is open, and the form being filled in. */
  class Dialog {
    var open: bool
    var formData: FormData

    constructor(today: string)
      ensures !open && formData == EmptyForm(today)
    {
      open := false;
      formData := EmptyForm(today);
    }

    /** `onOpenChange` */
    method SetOpen(value: bool)
      modifies this
      ensures open == value && formData == old(formData)
    {
      open := value;
    }

    /** Choosing the `i`-th entry of the status select. */
    method ChooseStatus(i: nat)
      requires i < |StatusOptions|
      modifies this
      ensures formData == old(formData).(status := StatusOptions[i]) && open == old(open)
    {
      formData := formData.(status := StatusOptions[i]);
    }

    /** Typing into a field other than the status: the form takes the edited values. */
    method Edit(name: string, email: string, position: string, team: string, photo: string, startDate: string)
      modifies this
      ensures formData == FormData(name, email, position, team, old(formData).status, photo, startDate)
      ensures open == old(open)
    {
      formData := FormData(name, email, position, team, formData.status, photo, startDate);
    }

    /**
     * `handleSubmit`: with name, email and team present, hand the submission on, then clear
     * the form (dated `today`) and close; otherwise do nothing at all.
     */
    method HandleSubmit(today: string) returns (added: Option<FormData>)
      modifies this
      ensures old(IsComplete(formData)) ==> added == Some(Submission(old(formData)))
      ensures old(IsComplete(formData)) ==> formData == EmptyForm(today) && !open
      ensures !old(IsComplete(formData)) ==> added == None && formData == old(formData) && open == old(open)
    {
      added := None;
      if formData.name != "" && formData.email != "" && formData.team != "" {
        added := Some(Submission(formData));
        formData := EmptyForm(today);
        open := false;
      }
    }
  }

  /** Whatever was chosen, a form's status is one of the three options and never `Backfill`. */
  lemma StatusOptionsExcludeBackfill()
    ensures "Backfill" !in StatusOptions
    ensures DefaultStatus in StatusOptions
    ensures forall s :: s in StatusOptions && IsCanonical(s) <==> s == "Pending" || s == "Hiring"
  {
    assert "Activo" != "Active" by { assert "Activo"[5] != "Active"[5]; }
    assert "Backfill" != "Activo" && "Backfill" != "Pending" && "Backfill" != "Hiring" by {
      assert "Backfill"[0] == 'B';
    }
  }

  /**
   * A person added with the default status is stored as `Activo`: after the refetch the new
   * employee counts towards the total but towards none of the four status KPIs, and the card
   * shows the fallback badge.
   */
  lemma DefaultStatusCountsInNoKpi(table: seq<DbRow>, f: FormData, freshId: string)
    requires f.status == DefaultStatus
    ensures var after := FromRows(ApplyWrite(table, AddWrite(AsNewEmployee(Submission(f))), freshId));
      && |after| == |table| + 1
      && !IsCanonical(after[|table|].status)
      && StatusBadgeClass(after[|table|].status) == FallbackClass
      && forall s :: IsCanonical(s) ==> KeyCount(StatusOf, s, after) == KeyCount(StatusOf, s, FromRows(table))
  {
    var n := AsNewEmployee(Submission(f));
    var before := FromRows(table);
    var after := FromRows(ApplyWrite(table, AddWrite(n), freshId));
    InsertThenFetchAll(table, n, freshId);
    var e := after[|table|];
    assert e.status == "Activo";
    ActivoGetsFallback();
    assert after == before + [e];
    forall s | IsCanonical(s) ensures KeyCount(StatusOf, s, after) == KeyCount(StatusOf, s, before) {
      FilterConcat(KeyIs(StatusOf, s), before, [e]);
      FilterSingleton(KeyIs(StatusOf, s), e);
      assert KeyIs(StatusOf, s)(e) == (StatusOf(e) == s);
    }
  }
}
