/**
 * The JavaScript string operations the dashboard relies on: `trim`, `toLowerCase`,
 * `toUpperCase`, `includes`, `split(/\s+/)`, `replace(/\s+/g, '-')` and the default
 * order of `Array.prototype.sort`.
 */
module Text {
  import opened Seqs

  /** The code points ECMAScript counts as WhiteSpace or LineTerminator (`trim` and `\s`). */
  predicate IsSpace(c: char) {
    || c == '\t' || c == '\n' || c == '\U{B}' || c == '\U{C}' || c == '\r' || c == ' '
    || c == '\U{A0}' || c == '\U{1680}' || ('\U{2000}' <= c <= '\U{200A}')
    || c == '\U{2028}' || c == '\U{2029}' || c == '\U{202F}' || c == '\U{205F}'
    || c == '\U{3000}' || c == '\U{FEFF}'
  }

  predicate NotSpace(c: char) {
    !IsSpace(c)
  }

  predicate IsDigit(c: char) {
    '0' <= c <= '9'
  }

  /** No whitespace at either end. */
  predicate IsTrimmed(s: string) {
    s == [] || (!IsSpace(s[0]) && !IsSpace(s[|s| - 1]))
  }

  /** `s.trimStart()`: a suffix of `s` whose dropped characters are all whitespace. */
  function TrimStart(s: string): (r: string)
    ensures |r| <= |s| && r == s[|s| - |r|..]
    ensures r == [] || !IsSpace(r[0])
    ensures forall i :: 0 <= i < |s| - |r| ==> IsSpace(s[i])
    ensures s != [] && IsSpace(s[0]) ==> |r| < |s|
  {
    if s != [] && IsSpace(s[0]) then TrimStart(s[1..]) else s
  }

  /** `s.trimEnd()`: a prefix of `s` whose dropped characters are all whitespace. */
  function TrimEnd(s: string): (r: string)
    ensures |r| <= |s| && r == s[..|r|]
    ensures r == [] || !IsSpace(r[|r| - 1])
    ensures forall i :: |r| <= i < |s| ==> IsSpace(s[i])
  {
    if s != [] && IsSpace(s[|s| - 1]) then TrimEnd(s[..|s| - 1]) else s
  }

  /**
   * `r` sits in `s` at position `i`, everything before it is whitespace and everything after
   * it is whitespace.
   */
  predicate Strips(s: string, i: nat, r: string) {
    && i + |r| <= |s| && r == s[i..i + |r|]
    && (forall k :: 0 <= k < i ==> IsSpace(s[k]))
    && (forall k :: i + |r| <= k < |s| ==> IsSpace(s[k]))
  }

  /** `s.trim()`: the leading and the trailing whitespace removed, and nothing else. */
  function Trim(s: string): (r: string)
    ensures IsTrimmed(r)
    ensures |r| <= |s|
    ensures exists i: nat :: Strips(s, i, r)
  {
    var t := TrimStart(s);
    var r := TrimEnd(t);
    StripsOfParts(s, t, r);
    r
  }

  /** A whitespace-free-ended suffix, cut down to a prefix, is a strip of the whole string. */
  lemma StripsOfParts(s: string, t: string, r: string)
    requires |t| <= |s| && t == s[|s| - |t|..]
    requires forall k :: 0 <= k < |s| - |t| ==> IsSpace(s[k])
    requires |r| <= |t| && r == t[..|r|]
    requires forall k :: |r| <= k < |t| ==> IsSpace(t[k])
    ensures Strips(s, |s| - |t|, r)
  {
    var i := |s| - |t|;
    assert r == s[i..i + |r|];
    forall k | i + |r| <= k < |s|
      ensures IsSpace(s[k])
    {
      assert s[k] == t[k - i];
    }
  }

  /**
   * `Trim(s)` is the only trimmed string that `s` strips down to: removing only surrounding
   * whitespace and leaving none at either end determines the result.
   */
  lemma TrimIsUnique(s: string, i: nat, r: string)
    requires Strips(s, i, r) && IsTrimmed(r)
    ensures r == Trim(s)
  {
    var t := Trim(s);
    var j: nat :| Strips(s, j, t);
    StripsAgree(s, i, r, j, t);
  }

  /** Two trimmed strips of the same string are the same. */
  lemma StripsAgree(s: string, i: nat, r: string, j: nat, t: string)
    requires Strips(s, i, r) && IsTrimmed(r)
    requires Strips(s, j, t) && IsTrimmed(t)
    ensures r == t
  {
    if r != [] && t != [] {
      assert s[i] == r[0] && s[j] == t[0];
      assert s[i + |r| - 1] == r[|r| - 1] && s[j + |t| - 1] == t[|t| - 1];
    }
  }

  /** Trimming a string that has no surrounding whitespace changes nothing. */
  lemma TrimTrimmed(s: string)
    requires IsTrimmed(s)
    ensures Trim(s) == s
  {
  }

  /** `toLowerCase` on one character (ASCII letters only). */
  function LowerChar(c: char): char {
    if 'A' <= c <= 'Z' then (c as int + 32) as char else c
  }

  /** `toUpperCase` on one character (ASCII letters only). */
  function UpperChar(c: char): char {
    if 'a' <= c <= 'z' then (c as int - 32) as char else c
  }

  /** `s.toLowerCase()` */
  function Lower(s: string): string {
    seq(|s|, i requires 0 <= i < |s| => LowerChar(s[i]))
  }

  /** `s.trim().toLowerCase()` */
  function TrimLower(s: string): string {
    Lower(Trim(s))
  }

  /** A string without surrounding whitespace is only lower-cased. */
  lemma TrimLowerOfTrimmed(s: string)
    requires IsTrimmed(s)
    ensures TrimLower(s) == Lower(s)
  {
    TrimTrimmed(s);
  }

  /** Lower-casing works character by character, so it distributes over concatenation. */
  lemma LowerConcat(a: string, b: string)
    ensures Lower(a + b) == Lower(a) + Lower(b)
  {
  }

  /** Lower-casing twice is lower-casing once. */
  lemma LowerIdempotent(s: string)
    ensures Lower(Lower(s)) == Lower(s)
  {
  }

  /** Case mapping never turns whitespace into text or text into whitespace. */
  lemma LowerKeepsSpaces(s: string)
    ensures forall i :: 0 <= i < |s| ==> (IsSpace(Lower(s)[i]) <==> IsSpace(s[i]))
  {
  }

  /** A lower-cased trimmed string stays trimmed. */
  lemma LowerTrimmed(s: string)
    requires IsTrimmed(s)
    ensures IsTrimmed(Lower(s))
  {
    LowerKeepsSpaces(s);
  }

  predicate StartsWith(s: string, prefix: string) {
    |prefix| <= |s| && s[..|prefix|] == prefix
  }

  /** `s.includes(sub)`: `sub` occurs in `s` at some position. */
  predicate Includes(s: string, sub: string)
    decreases |s|
  {
    StartsWith(s, sub) || (s != [] && Includes(s[1..], sub))
  }

  /** Lower-casing leaves no upper-case ASCII letter. */
  lemma LowerHasNoUpper(s: string)
    ensures forall c :: c in Lower(s) ==> !('A' <= c <= 'Z')
  {
    forall c | c in Lower(s) ensures !('A' <= c <= 'Z') {
      var i :| 0 <= i < |s| && Lower(s)[i] == c;
    }
  }

  /** A string without upper-case ASCII letters is its own lower-case form. */
  lemma LowerOfLowercase(s: string)
    requires forall c :: c in s ==> !('A' <= c <= 'Z')
    ensures Lower(s) == s
  {
    forall i | 0 <= i < |s| ensures Lower(s)[i] == s[i] {
      assert s[i] in s;
    }
  }

  /** `sub` occurs in `s` starting at position `i`. */
  predicate OccursAt(s: string, sub: string, i: nat) {
    i + |sub| <= |s| && s[i..i + |sub|] == sub
  }

  /** `s.includes(sub)` holds exactly when `sub` occurs somewhere in `s`. */
  lemma {:induction false} IncludesIff(s: string, sub: string)
    ensures Includes(s, sub) <==> exists i: nat :: OccursAt(s, sub, i)
    decreases |s|
  {
    if Includes(s, sub) {
      if StartsWith(s, sub) {
        assert OccursAt(s, sub, 0);
      } else {
        IncludesIff(s[1..], sub);
        var i: nat :| OccursAt(s[1..], sub, i);
        assert s[1..][i..i + |sub|] == s[i + 1..i + 1 + |sub|];
        assert OccursAt(s, sub, i + 1);
      }
    }
    if exists i: nat :: OccursAt(s, sub, i) {
      var i: nat :| OccursAt(s, sub, i);
      IncludesAt(s, sub, i);
    }
  }

  /** Every string includes the empty string. */
  lemma IncludesEmpty(s: string)
    ensures Includes(s, "")
  {
    assert s[..0] == "";
  }

  /** An occurrence at position `i` makes `s.includes(sub)` true. */
  lemma {:induction false} IncludesAt(s: string, sub: string, i: nat)
    requires i + |sub| <= |s| && s[i..i + |sub|] == sub
    ensures Includes(s, sub)
  {
    if i > 0 {
      assert s[1..][i - 1..i - 1 + |sub|] == s[i..i + |sub|];
      IncludesAt(s[1..], sub, i - 1);
    }
  }

  /** `s.replace(/\s+/g, '-')`: every maximal run of whitespace becomes one `-`. */
  function CollapseSpaces(s: string): (r: string)
    ensures forall c :: c in r ==> !IsSpace(c)
    ensures forall c :: c in r ==> c == '-' || c in s
    ensures (forall c :: c in s ==> !IsSpace(c)) ==> r == s
    decreases |s|
  {
    if s == [] then []
    else if IsSpace(s[0]) then "-" + CollapseSpaces(TrimStart(s))
    else [s[0]] + CollapseSpaces(s[1..])
  }

  /** Leading whitespace is all that `TrimStart` removes. */
  lemma {:induction false} TrimStartSpaces(sp: string, b: string)
    requires forall c :: c in sp ==> IsSpace(c)
    ensures TrimStart(sp + b) == TrimStart(b)
  {
    if sp != [] {
      assert sp[0] in sp;
      assert forall c :: c in sp[1..] ==> c in sp;
      assert (sp + b)[1..] == sp[1..] + b;
      TrimStartSpaces(sp[1..], b);
    } else {
      assert sp + b == b;
    }
  }

  /** A non-whitespace character passes through `CollapseSpaces` unchanged. */
  lemma CollapseKeepsChar(c: char, b: string)
    requires !IsSpace(c)
    ensures CollapseSpaces([c] + b) == [c] + CollapseSpaces(b)
  {
    assert ([c] + b)[1..] == b;
  }

  /** A whole run of whitespace, up to the next other character or the end, becomes one `-`. */
  lemma CollapseRun(sp: string, b: string)
    requires sp != [] && forall c :: c in sp ==> IsSpace(c)
    requires b == [] || !IsSpace(b[0])
    ensures CollapseSpaces(sp + b) == "-" + CollapseSpaces(b)
  {
    assert sp[0] in sp;
    TrimStartSpaces(sp, b);
  }

  /** A stretch without whitespace passes through `CollapseSpaces` unchanged. */
  lemma {:induction false} CollapseKeepsWord(w: string, b: string)
    requires forall c :: c in w ==> !IsSpace(c)
    ensures CollapseSpaces(w + b) == w + CollapseSpaces(b)
  {
    if w != [] {
      assert w[0] in w;
      assert forall c :: c in w[1..] ==> c in w;
      CollapseKeepsWord(w[1..], b);
      ConsSplit(w, b);
      CollapseKeepsChar(w[0], w[1..] + b);
      ConsSplit(w, CollapseSpaces(b));
    } else {
      assert w + b == b;
    }
  }

  /** Two words separated by a run of whitespace: `a-b`. */
  lemma CollapseTwoWords(a: string, sp: string, b: string)
    requires forall c :: c in a ==> !IsSpace(c)
    requires sp != [] && forall c :: c in sp ==> IsSpace(c)
    requires forall c :: c in b ==> !IsSpace(c)
    ensures CollapseSpaces(a + sp + b) == a + "-" + b
  {
    Assoc(a, sp, b);
    CollapseKeepsWord(a, sp + b);
    if b != [] {
      assert b[0] in b;
    }
    CollapseRun(sp, b);
    Assoc(a, "-", b);
  }

  lemma ConsSplit<T>(w: seq<T>, b: seq<T>)
    requires w != []
    ensures w + b == [w[0]] + (w[1..] + b)
  {
    assert w == [w[0]] + w[1..];
  }

  lemma Assoc<T>(a: seq<T>, b: seq<T>, c: seq<T>)
    ensures a + b + c == a + (b + c)
  {
  }

  /** The longest prefix of `s` without whitespace. */
  function TakeWord(s: string): (w: string)
    ensures |w| <= |s| && w == s[..|w|]
    ensures forall c :: c in w ==> !IsSpace(c)
    ensures |w| == |s| || IsSpace(s[|w|])
    ensures s != [] && !IsSpace(s[0]) ==> w != []
  {
    if s == [] || IsSpace(s[0]) then [] else [s[0]] + TakeWord(s[1..])
  }

  /** A non-empty run of non-whitespace characters. */
  predicate IsWord(w: string) {
    w != [] && forall c :: c in w ==> !IsSpace(c)
  }

  /** `s.split(/\s+/).filter(Boolean)`: the maximal runs of non-whitespace characters. */
  function Words(s: string): (ws: seq<string>)
    ensures forall w :: w in ws ==> IsWord(w)
    decreases |s|
  {
    var t := TrimStart(s);
    if t == [] then []
    else
      var w := TakeWord(t);
      assert IsWord(w);
      var rest := Words(t[|w|..]);
      assert forall v :: v in [w] + rest ==> v == w || v in rest;
      [w] + rest
  }

  function Concat(ws: seq<string>): string {
    if ws == [] then [] else ws[0] + Concat(ws[1..])
  }

  /** Leading whitespace contributes nothing to the non-whitespace characters. */
  lemma DropLeadingSpaces(s: string)
    ensures Filter(NotSpace, s) == Filter(NotSpace, TrimStart(s))
  {
    var t := TrimStart(s);
    var lead := s[..|s| - |t|];
    assert s == lead + t;
    FilterConcat(NotSpace, lead, t);
    FilterNone(NotSpace, lead);
  }

  /** A word followed by the rest: the word's characters all survive. */
  lemma SplitWord(t: string, w: string, rest: string)
    requires t == w + rest && IsWord(w)
    ensures Filter(NotSpace, t) == w + Filter(NotSpace, rest)
  {
    FilterConcat(NotSpace, w, rest);
    FilterAll(NotSpace, w);
  }

  lemma WordsStep(s: string)
    requires TrimStart(s) != []
    ensures Words(s) == [TakeWord(TrimStart(s))] + Words(TrimStart(s)[|TakeWord(TrimStart(s))|..])
  {
  }

  lemma ConcatCons(w: string, ws: seq<string>)
    ensures Concat([w] + ws) == w + Concat(ws)
  {
    assert ([w] + ws)[1..] == ws;
  }

  /** The words, put back together, are exactly the non-whitespace characters of `s`, in order. */
  lemma {:induction false} WordsCoverText(s: string)
    ensures Concat(Words(s)) == Filter(NotSpace, s)
    decreases |s|
  {
    var t := TrimStart(s);
    if t == [] {
      DropLeadingSpaces(s);
    } else {
      var w := TakeWord(t);
      var rest := t[|w|..];
      WordsCoverText(rest);
      WordsConcatStep(s);
      FilterStep(s);
    }
  }

  /** The first word, then the words of what follows it. */
  lemma WordsConcatStep(s: string)
    requires TrimStart(s) != []
    ensures var t := TrimStart(s); var w := TakeWord(t);
      Concat(Words(s)) == w + Concat(Words(t[|w|..]))
  {
    var t := TrimStart(s);
    var w := TakeWord(t);
    WordsStep(s);
    ConcatCons(w, Words(t[|w|..]));
  }

  /** The non-whitespace characters: those of the first word, then those after it. */
  lemma FilterStep(s: string)
    requires TrimStart(s) != []
    ensures var t := TrimStart(s); var w := TakeWord(t);
      Filter(NotSpace, s) == w + Filter(NotSpace, t[|w|..])
  {
    var t := TrimStart(s);
    var w := TakeWord(t);
    var rest := t[|w|..];
    FirstWordIsWord(t);
    TakeWordSplit(t);
    DropLeadingSpaces(s);
    SplitWord(t, w, rest);
  }

  lemma TakeWordSplit(t: string)
    ensures t == TakeWord(t) + t[|TakeWord(t)|..]
  {
    PrefixSplit(t, TakeWord(t));
  }

  lemma PrefixSplit<T>(t: seq<T>, w: seq<T>)
    requires |w| <= |t| && w == t[..|w|]
    ensures t == w + t[|w|..]
  {
  }

  /** A string starting with a non-whitespace character starts with a word. */
  lemma FirstWordIsWord(t: string)
    requires t != [] && !IsSpace(t[0])
    ensures IsWord(TakeWord(t))
  {
  }

  /** `TakeWord` stops exactly at the end of a stretch followed by whitespace or by nothing. */
  lemma {:induction false} TakeWordOf(w: string, rest: string)
    requires forall c :: c in w ==> !IsSpace(c)
    requires rest == [] || IsSpace(rest[0])
    ensures TakeWord(w + rest) == w
  {
    if w != [] {
      assert w[0] in w;
      assert forall c :: c in w[1..] ==> c in w;
      assert (w + rest)[1..] == w[1..] + rest;
      TakeWordOf(w[1..], rest);
      assert w == [w[0]] + w[1..];
    } else {
      assert w + rest == rest;
    }
  }

  /** Leading whitespace does not change the words. */
  lemma WordsAfterSpaces(sp: string, rest: string)
    requires forall c :: c in sp ==> IsSpace(c)
    ensures Words(sp + rest) == Words(rest)
  {
    TrimStartSpaces(sp, rest);
  }

  /** A word followed by whitespace, or by nothing, is the first word; the rest is split on its own. */
  lemma WordsSplitAtSpace(w: string, rest: string)
    requires IsWord(w)
    requires rest == [] || IsSpace(rest[0])
    ensures Words(w + rest) == [w] + Words(rest)
  {
    var s := w + rest;
    assert w[0] in w && s[0] == w[0];
    assert TrimStart(s) == s;
    TakeWordOf(w, rest);
    assert s[|w|..] == rest;
  }

  /** Whitespace separates words: a word, a run of whitespace, then the words of the rest. */
  lemma WordsCons(w: string, sp: string, rest: string)
    requires IsWord(w)
    requires sp != [] && forall c :: c in sp ==> IsSpace(c)
    ensures Words(w + sp + rest) == [w] + Words(rest)
  {
    assert w + sp + rest == w + (sp + rest);
    assert sp[0] in sp && (sp + rest)[0] == sp[0];
    WordsSplitAtSpace(w, sp + rest);
    WordsAfterSpaces(sp, rest);
  }

  /** A single word is its own split. */
  lemma OneWord(w: string)
    requires IsWord(w)
    ensures Words(w) == [w]
  {
    WordsSplitAtSpace(w, []);
    assert w + [] == w;
  }

  /** A string made only of whitespace has no words. */
  lemma BlankHasNoWords(s: string)
    requires forall c :: c in s ==> IsSpace(c)
    ensures Words(s) == []
  {
  }

  /** Lexicographic order by character code, the default order of `sort()`. */
  predicate StrLess(a: string, b: string) {
    if a == [] then b != []
    else if b == [] then false
    else if a[0] == b[0] then StrLess(a[1..], b[1..])
    else a[0] < b[0]
  }

  predicate StrLessEq(a: string, b: string) {
    a == b || StrLess(a, b)
  }

  lemma {:induction false} StrLessIrreflexive(a: string)
    ensures !StrLess(a, a)
  {
    if a != [] {
      StrLessIrreflexive(a[1..]);
    }
  }

  lemma {:induction false} StrLessAsymmetric(a: string, b: string)
    ensures !(StrLess(a, b) && StrLess(b, a))
  {
    if a != [] && b != [] && a[0] == b[0] {
      StrLessAsymmetric(a[1..], b[1..]);
    }
  }

  lemma {:induction false} StrLessTransitive(a: string, b: string, c: string)
    requires StrLess(a, b) && StrLess(b, c)
    ensures StrLess(a, c)
  {
    if a != [] && a[0] == b[0] && b[0] == c[0] {
      StrLessTransitive(a[1..], b[1..], c[1..]);
    }
  }

  lemma {:induction false} StrLessTotal(a: string, b: string)
    ensures a == b || StrLess(a, b) || StrLess(b, a)
  {
    if a != [] && b != [] && a[0] == b[0] {
      StrLessTotal(a[1..], b[1..]);
      if a[1..] == b[1..] {
        assert a == [a[0]] + a[1..] && b == [b[0]] + b[1..];
      }
    }
  }

  /** Not-greater is less-or-equal. */
  lemma NotLessIsLessEq(a: string, b: string)
    ensures !StrLess(b, a) <==> StrLessEq(a, b)
  {
    StrLessTotal(a, b);
    StrLessAsymmetric(a, b);
    StrLessIrreflexive(a);
  }

  lemma StrLessEqTransitive(a: string, b: string, c: string)
    requires StrLessEq(a, b) && StrLessEq(b, c)
    ensures StrLessEq(a, c)
  {
    if a != b && b != c {
      StrLessTransitive(a, b, c);
    }
  }

  predicate Sorted(s: seq<string>) {
    forall i, j :: 0 <= i < j < |s| ==> StrLessEq(s[i], s[j])
  }

  /** A sorted sequence whose elements are all at least `b` stays sorted with `b` in front. */
  lemma SortedCons(b: string, t: seq<string>)
    requires Sorted(t)
    requires forall j :: 0 <= j < |t| ==> StrLessEq(b, t[j])
    ensures Sorted([b] + t)
  {
  }

  /** A lower bound of `x` and of every element of `u` bounds every element of a rearrangement of `u` and `x`. */
  lemma BoundByMultiset(b: string, x: string, u: seq<string>, t: seq<string>)
    requires multiset(t) == multiset(u) + multiset{x}
    requires StrLessEq(b, x)
    requires forall j :: 0 <= j < |u| ==> StrLessEq(b, u[j])
    ensures forall j :: 0 <= j < |t| ==> StrLessEq(b, t[j])
  {
    forall j | 0 <= j < |t| ensures StrLessEq(b, t[j]) {
      assert t[j] in multiset(t);
      if t[j] != x {
        assert t[j] in multiset(u);
        var k :| 0 <= k < |u| && u[k] == t[j];
      }
    }
  }

  /** The first element of a sorted sequence bounds all of them. */
  lemma SortedHead(s: seq<string>)
    requires Sorted(s) && s != []
    ensures forall j :: 0 <= j < |s[1..]| ==> StrLessEq(s[0], s[1..][j])
  {
    forall j | 0 <= j < |s[1..]| ensures StrLessEq(s[0], s[1..][j]) {
      assert s[1..][j] == s[j + 1];
    }
  }

  /** `x` below the head of a sorted sequence is below all of it. */
  lemma BelowHead(x: string, s: seq<string>)
    requires Sorted(s) && s != [] && StrLessEq(x, s[0])
    ensures forall j :: 0 <= j < |s| ==> StrLessEq(x, s[j])
  {
    forall j | 0 <= j < |s| ensures StrLessEq(x, s[j]) {
      if j > 0 {
        StrLessEqTransitive(x, s[0], s[j]);
      }
    }
  }

  /** Inserts `x` into a sorted sequence, before the first element not smaller than it. */
  function Insert(x: string, s: seq<string>): (r: seq<string>)
    requires Sorted(s)
    ensures Sorted(r)
    ensures multiset(r) == multiset(s) + multiset{x}
  {
    if s == [] then [x]
    else if StrLessEq(x, s[0]) then
      BelowHead(x, s);
      SortedCons(x, s);
      [x] + s
    else
      assert StrLessEq(s[0], x) by {
        NotLessIsLessEq(s[0], x);
        StrLessAsymmetric(x, s[0]);
      }
      var t := Insert(x, s[1..]);
      assert s == [s[0]] + s[1..];
      SortedHead(s);
      BoundByMultiset(s[0], x, s[1..], t);
      SortedCons(s[0], t);
      [s[0]] + t
  }

  /** `s.sort()` with no comparator: sorted, and a rearrangement of `s`. */
  function Sort(s: seq<string>): (r: seq<string>)
    ensures Sorted(r)
    ensures multiset(r) == multiset(s)
  {
    if s == [] then []
    else
      assert s == [s[0]] + s[1..];
      Insert(s[0], Sort(s[1..]))
  }

  /** Sorting distinct strings yields a strictly ascending sequence. */
  lemma SortDistinct(s: seq<string>)
    requires NoDups(s)
    ensures forall i, j :: 0 <= i < j < |Sort(s)| ==> StrLess(Sort(s)[i], Sort(s)[j])
  {
    NoDupsPermutation(s, Sort(s));
  }

}
