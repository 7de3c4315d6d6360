/** The employee card's pure helpers: the avatar initials, the status badge and the status menu. */
module EmployeeCard {
  import opened Seqs
  import opened Text
  import opened Entities
  import opened RowCodec
  import opened Handlers

  /**
   * `initials`: split on whitespace runs, drop empty pieces, keep the first two words and take
   * each one's first character upper-cased.
   */
  function Initials(name: string): (r: string)
    ensures |r| == if |Words(name)| < 2 then |Words(name)| else 2
    ensures forall i :: 0 <= i < |r| ==> Words(name)[i] != [] && r[i] == UpperChar(Words(name)[i][0])
  {
    var ws := Words(name);
    WordsAreNonEmpty(ws);
    Heads(FirstTwo(ws))
  }

  /** `.slice(0, 2)` */
  function FirstTwo(ws: seq<string>): (f: seq<string>)
    ensures |f| == if |ws| < 2 then |ws| else 2
    ensures forall i :: 0 <= i < |f| ==> f[i] == ws[i]
  {
    if |ws| < 2 then ws else ws[..2]
  }

  lemma WordsAreNonEmpty(ws: seq<string>)
    requires forall w :: w in ws ==> IsWord(w)
    ensures forall i :: 0 <= i < |ws| ==> ws[i] != []
  {
    forall i | 0 <= i < |ws| ensures ws[i] != [] {
      assert ws[i] in ws;
    }
  }

  /** `.map((s) => s[0]!.toUpperCase()).join("")` */
  function Heads(ws: seq<string>): (r: string)
    requires forall i :: 0 <= i < |ws| ==> ws[i] != []
    ensures |r| == |ws|
    ensures forall i :: 0 <= i < |ws| ==> r[i] == UpperChar(ws[i][0])
  {
    if ws == [] then [] else [UpperChar(ws[0][0])] + Heads(ws[1..])
  }

  /** Each initial is a non-blank character of the name, upper-cased, in the order the words come. */
  lemma InitialsFromName(name: string, i: nat)
    requires i < |Initials(name)|
    ensures exists j :: 0 <= j < |name| && !IsSpace(name[j]) && Initials(name)[i] == UpperChar(name[j])
  {
    var ws := Words(name);
    var w := ws[i];
    assert w in ws;
    WordsCoverText(name);
    ConcatHasWordChars(ws, i);
    assert w[0] in Filter(NotSpace, name);
    var j :| 0 <= j < |name| && name[j] == w[0];
  }

  /** The first character of every word survives in the concatenation. */
  lemma {:induction false} ConcatHasWordChars(ws: seq<string>, i: nat)
    requires i < |ws| && ws[i] != []
    ensures ws[i][0] in Concat(ws)
  {
    if i == 0 {
      assert Concat(ws) == ws[0] + Concat(ws[1..]);
      assert Concat(ws)[0] == ws[0][0];
    } else {
      ConcatHasWordChars(ws[1..], i - 1);
      assert Concat(ws) == ws[0] + Concat(ws[1..]);
    }
  }

  /** An initial is never a lower-case letter. */
  lemma InitialsAreUpper(name: string)
    ensures forall c :: c in Initials(name) ==> !('a' <= c <= 'z')
  {
    forall c | c in Initials(name) ensures !('a' <= c <= 'z') {
      var i :| 0 <= i < |Initials(name)| && Initials(name)[i] == c;
      assert Words(name)[i] in Words(name);
      UpperHasNoLower(Words(name)[i][0]);
    }
  }

  lemma UpperHasNoLower(c: char)
    ensures !('a' <= UpperChar(c) <= 'z')
  {
  }

  /** An empty or all-blank name has no initials. */
  lemma BlankNameHasNoInitials(name: string)
    requires forall c :: c in name ==> IsSpace(c)
    ensures Initials(name) == ""
  {
    BlankHasNoWords(name);
  }

  /** A one-word name has exactly one initial: its first character, upper-cased. */
  lemma OneWordOneInitial(w: string)
    requires IsWord(w)
    ensures Initials(w) == [UpperChar(w[0])]
  {
    OneWord(w);
  }

  /**
   * Whitespace separates the words: a word, a run of whitespace and a second word (followed by
   * nothing or by more whitespace and text) give the two words' first characters, upper-cased.
   */
  lemma TwoWordsTwoInitials(a: string, sp: string, b: string, rest: string)
    requires IsWord(a) && IsWord(b)
    requires sp != [] && forall c :: c in sp ==> IsSpace(c)
    requires rest == [] || IsSpace(rest[0])
    ensures Initials(a + sp + b + rest) == [UpperChar(a[0]), UpperChar(b[0])]
  {
    var name := a + sp + b + rest;
    Assoc(a + sp, b, rest);
    WordsCons(a, sp, b + rest);
    WordsSplitAtSpace(b, rest);
    FirstTwoOf(Words(name), Words(b + rest), a, b, Words(rest));
    var r := Initials(name);
    PairOf(r, UpperChar(a[0]), UpperChar(b[0]));
  }

  lemma FirstTwoOf<T>(ws: seq<T>, t: seq<T>, a: T, b: T, tail: seq<T>)
    requires ws == [a] + t && t == [b] + tail
    ensures |ws| >= 2 && ws[0] == a && ws[1] == b
  {
  }

  lemma PairOf<T>(r: seq<T>, x: T, y: T)
    requires |r| == 2 && r[0] == x && r[1] == y
    ensures r == [x, y]
  {
  }

  const ActiveClass := "bg-green-100 text-green-700"
  const PendingClass := "bg-yellow-100 text-yellow-700"
  const HiringClass := "bg-blue-100 text-blue-700"
  const BackfillClass := "bg-orange-100 text-orange-700"
  const FallbackClass := "bg-[hsl(283_95%_96%)] text-[hsl(283_95%_38%)]"

  /** `statusBadgeClass`: one class per declared status, and the fallback for every other string. */
  function StatusBadgeClass(status: string): (r: string)
    ensures r == FallbackClass <==> !IsCanonical(status)
  {
    match status
    case "Active" => ActiveClass
    case "Pending" => PendingClass
    case "Hiring" => HiringClass
    case "Backfill" => BackfillClass
    case _ => FallbackClass
  }

  /** The four declared statuses are told apart: no two share a badge. */
  lemma BadgeClassesDistinct(a: string, b: string)
    requires IsCanonical(a) && IsCanonical(b) && a != b
    ensures StatusBadgeClass(a) != StatusBadgeClass(b)
  {
    assert ActiveClass[3] == 'g' && PendingClass[3] == 'y' && HiringClass[3] == 'b' && BackfillClass[3] == 'o';
  }

  /** The status the file ingestion produces for active people is not a declared one, so its badge is the fallback. */
  lemma ActivoGetsFallback()
    ensures StatusBadgeClass("Activo") == FallbackClass
  {
    assert "Activo" != "Active" by { assert "Activo"[5] != "Active"[5]; }
  }

  /** The card's menu: "Set status" to each of these, in this order. */
  const StatusMenu: seq<string> := ["Active", "Pending", "Hiring", "Backfill"]

  /** The write the `i`-th menu item sends for the card's employee. */
  function MenuWrite(e: Employee, i: nat): (w: Write)
    requires i < |StatusMenu|
    ensures w == Update(e.id, SetStatus(StatusMenu[i]))
  {
    StatusChangeWrite(e, StatusMenu[i])
  }

  /**
   * The menu offers exactly the four declared statuses, and after choosing one and the refetch
   * it triggers, the employee shows that status with its own badge, everybody else untouched.
   */
  lemma MenuThenFetch(table: seq<DbRow>, k: nat, i: nat, freshId: string)
    requires k < |table| && i < |StatusMenu|
    ensures forall s :: s in StatusMenu <==> IsCanonical(s)
    ensures var before := FromRows(table);
      var after := FromRows(ApplyWrite(table, MenuWrite(before[k], i), freshId));
      && |after| == |before|
      && after[k] == before[k].(status := StatusMenu[i])
      && StatusBadgeClass(after[k].status) != FallbackClass
      && forall j :: 0 <= j < |before| && before[j].id != before[k].id ==> after[j] == before[j]
  {
    var before := FromRows(table);
    UpdateThenFetch(table, before[k].id, SetStatus(StatusMenu[i]), freshId);
    assert StatusMenu[i] in StatusMenu;
  }
}
