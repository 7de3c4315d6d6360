/** Sequence operations behind the source's `filter`, `length`, `indexOf` and `new Set(...)`. */
module Seqs {

  /** `s.filter(p)`: the elements satisfying `p`, in their original order. */
  function Filter<T(!new)>(p: T -> bool, s: seq<T>): (r: seq<T>)
    ensures |r| <= |s|
    ensures forall x :: x in r <==> x in s && p(x)
  {
    if s == [] then [] else (if p(s[0]) then [s[0]] else []) + Filter(p, s[1..])
  }

  /** `s.filter(p).length` */
  function Count<T(!new)>(p: T -> bool, s: seq<T>): nat {
    |Filter(p, s)|
  }

  /** `r` can be obtained from `s` by deleting elements (greedy matching is complete). */
  predicate IsSubseq<T(==,!new)>(r: seq<T>, s: seq<T>)
    decreases |s|
  {
    if r == [] then true
    else if s == [] then false
    else if r[0] == s[0] then IsSubseq(r[1..], s[1..])
    else IsSubseq(r, s[1..])
  }

  /** Filtering keeps the kept elements in the order they had. */
  lemma {:induction false} FilterIsSubseq<T(!new)>(p: T -> bool, s: seq<T>)
    ensures IsSubseq(Filter(p, s), s)
  {
    if s != [] {
      FilterIsSubseq(p, s[1..]);
      var r := Filter(p, s);
      if !p(s[0]) {
        assert r == Filter(p, s[1..]);
        if r != [] {
          assert r[0] in r;
        }
      } else {
        assert r == [s[0]] + Filter(p, s[1..]);
        assert r[1..] == Filter(p, s[1..]);
      }
    }
  }

  /** Filtering distributes over concatenation: each element is kept or dropped on its own. */
  lemma {:induction false} FilterConcat<T(!new)>(p: T -> bool, a: seq<T>, b: seq<T>)
    ensures Filter(p, a + b) == Filter(p, a) + Filter(p, b)
  {
    if a != [] {
      assert (a + b)[1..] == a[1..] + b;
      FilterConcat(p, a[1..], b);
    } else {
      assert a + b == b;
    }
  }

  /** A single element is kept exactly when it satisfies the predicate. */
  lemma FilterSingleton<T(!new)>(p: T -> bool, x: T)
    ensures Filter(p, [x]) == if p(x) then [x] else []
  {
    assert [x][1..] == [];
  }

  /** When every element passes, filtering changes nothing. */
  lemma {:induction false} FilterAll<T(!new)>(p: T -> bool, s: seq<T>)
    requires forall x :: x in s ==> p(x)
    ensures Filter(p, s) == s
  {
    if s != [] {
      assert s[0] in s;
      FilterAll(p, s[1..]);
    }
  }

  /** Counting with a predicate implied by another never counts fewer. */
  lemma {:induction false} CountMono<T(!new)>(p: T -> bool, q: T -> bool, s: seq<T>)
    requires forall x :: x in s ==> p(x) ==> q(x)
    ensures Count(p, s) <= Count(q, s)
  {
    if s != [] {
      assert s[0] in s;
      CountMono(p, q, s[1..]);
    }
  }

  /** Counts of two disjoint predicates add up to the count of their disjunction. */
  lemma {:induction false} CountDisjoint<T(!new)>(p: T -> bool, q: T -> bool, pq: T -> bool, s: seq<T>)
    requires forall x :: x in s ==> (pq(x) <==> p(x) || q(x))
    requires forall x :: x in s ==> !(p(x) && q(x))
    ensures Count(pq, s) == Count(p, s) + Count(q, s)
  {
    if s != [] {
      assert s[0] in s;
      CountDisjoint(p, q, pq, s[1..]);
    }
  }

  /** One element failing the predicate makes the count fall short of the length. */
  lemma {:induction false} CountLess<T(!new)>(p: T -> bool, s: seq<T>, x: T)
    requires x in s && !p(x)
    ensures Count(p, s) < |s|
  {
    if s[0] != x {
      assert x in s[1..];
      CountLess(p, s[1..], x);
    }
  }

  /** Position by position, `p` on `a` implies `p` on `b`: `b` counts at least as many. */
  lemma {:induction false} CountPointwise<T(!new)>(p: T -> bool, a: seq<T>, b: seq<T>)
    requires |a| == |b|
    requires forall i :: 0 <= i < |a| ==> p(a[i]) ==> p(b[i])
    ensures Count(p, a) <= Count(p, b)
  {
    if a != [] {
      forall i | 0 <= i < |a[1..]| ensures p(a[1..][i]) ==> p(b[1..][i]) {
        assert a[1..][i] == a[i + 1] && b[1..][i] == b[i + 1];
      }
      CountPointwise(p, a[1..], b[1..]);
    }
  }

  /** As above, and at position `k` only `b` passes: `b` counts strictly more. */
  lemma {:induction false} CountGrows<T(!new)>(p: T -> bool, a: seq<T>, b: seq<T>, k: nat)
    requires |a| == |b| && k < |a|
    requires forall i :: 0 <= i < |a| ==> p(a[i]) ==> p(b[i])
    requires !p(a[k]) && p(b[k])
    ensures Count(p, a) < Count(p, b)
  {
    forall i | 0 <= i < |a[1..]| ensures p(a[1..][i]) ==> p(b[1..][i]) {
      assert a[1..][i] == a[i + 1] && b[1..][i] == b[i + 1];
    }
    if k == 0 {
      CountPointwise(p, a[1..], b[1..]);
    } else {
      assert a[1..][k - 1] == a[k] && b[1..][k - 1] == b[k];
      CountGrows(p, a[1..], b[1..], k - 1);
    }
  }

  /** Every element passes exactly when the count is the length. */
  lemma CountIsLength<T(!new)>(p: T -> bool, s: seq<T>)
    ensures Count(p, s) == |s| <==> forall x :: x in s ==> p(x)
  {
    if forall x :: x in s ==> p(x) {
      FilterAll(p, s);
    } else {
      var x :| x in s && !p(x);
      CountLess(p, s, x);
    }
  }

  /** Filtering with predicates that agree on `s` gives the same result. */
  lemma {:induction false} FilterExt<T(!new)>(p: T -> bool, q: T -> bool, s: seq<T>)
    requires forall x :: x in s ==> p(x) == q(x)
    ensures Filter(p, s) == Filter(q, s)
  {
    if s != [] {
      assert s[0] in s;
      FilterExt(p, q, s[1..]);
    }
  }

  /** Filtering first with a weaker predicate loses nothing the stronger one keeps. */
  lemma {:induction false} FilterOfFilter<T(!new)>(p: T -> bool, q: T -> bool, s: seq<T>)
    requires forall x :: x in s ==> p(x) ==> q(x)
    ensures Filter(p, Filter(q, s)) == Filter(p, s)
  {
    if s != [] {
      assert s[0] in s;
      FilterOfFilter(p, q, s[1..]);
      var t := Filter(q, s);
      if q(s[0]) {
        assert t == [s[0]] + Filter(q, s[1..]);
        assert t[0] == s[0] && t[1..] == Filter(q, s[1..]);
      } else {
        assert t == Filter(q, s[1..]);
      }
    }
  }

  /** Counting within a filtered sequence never counts more than within the whole. */
  lemma {:induction false} CountOfFilter<T(!new)>(p: T -> bool, q: T -> bool, s: seq<T>)
    ensures Count(p, Filter(q, s)) <= Count(p, s)
  {
    if s != [] {
      CountOfFilter(p, q, s[1..]);
      var t := Filter(q, s);
      if q(s[0]) {
        assert t == [s[0]] + Filter(q, s[1..]);
        assert t[0] == s[0] && t[1..] == Filter(q, s[1..]);
      } else {
        assert t == Filter(q, s[1..]);
      }
    }
  }

  /** Filtering twice keeps what satisfies both predicates. */
  lemma {:induction false} FilterAnd<T(!new)>(p: T -> bool, q: T -> bool, pq: T -> bool, s: seq<T>)
    requires forall x :: x in s ==> pq(x) == (p(x) && q(x))
    ensures Filter(p, Filter(q, s)) == Filter(pq, s)
  {
    if s != [] {
      assert s[0] in s;
      FilterAnd(p, q, pq, s[1..]);
      var t := Filter(q, s);
      if q(s[0]) {
        assert t == [s[0]] + Filter(q, s[1..]);
        assert t[0] == s[0] && t[1..] == Filter(q, s[1..]);
      } else {
        assert t == Filter(q, s[1..]);
      }
    }
  }

  /** A predicate and its complement split the elements between them. */
  lemma {:induction false} CountComplement<T(!new)>(p: T -> bool, q: T -> bool, s: seq<T>)
    requires forall x :: x in s ==> (q(x) <==> !p(x))
    ensures Count(p, s) + Count(q, s) == |s|
  {
    if s != [] {
      assert s[0] in s;
      CountComplement(p, q, s[1..]);
    }
  }

  /** `s.indexOf(x)`: the first position of `x`, or -1. */
  function IndexOf<T(==,!new)>(s: seq<T>, x: T): (k: int)
    ensures -1 <= k < |s|
    ensures k == -1 <==> x !in s
    ensures 0 <= k ==> s[k] == x && forall j :: 0 <= j < k ==> s[j] != x
  {
    if s == [] then -1
    else if s[0] == x then 0
    else
      var k := IndexOf(s[1..], x);
      if k < 0 then -1 else k + 1
  }

  /** Extending a sequence does not move the first occurrence of something already present. */
  lemma IndexOfPrefix<T(!new)>(s: seq<T>, n: nat, x: T)
    requires n <= |s| && x in s[..n]
    ensures IndexOf(s, x) == IndexOf(s[..n], x)
  {
    var k := IndexOf(s[..n], x);
    assert s[k] == s[..n][k];
    forall j | 0 <= j < k ensures s[j] != x {
      assert s[j] == s[..n][j];
    }
  }

  predicate NoDups<T(==,!new)>(s: seq<T>) {
    forall i, j :: 0 <= i < j < |s| ==> s[i] != s[j]
  }

  /** `Array.from(new Set(s))`: the distinct values of `s`, in order of first occurrence. */
  function Dedup<T(==,!new)>(s: seq<T>): (r: seq<T>)
    ensures NoDups(r)
    ensures forall x :: x in r <==> x in s
  {
    if s == [] then []
    else
      var d := Dedup(s[..|s| - 1]);
      var x := s[|s| - 1];
      assert forall y :: y in s <==> y in s[..|s| - 1] || y == x by {
        assert s == s[..|s| - 1] + [x];
      }
      if x in d then d else d + [x]
  }

  /** A sequence of three elements is the display of its elements. */
  lemma SeqOfThree<T>(m: seq<T>)
    requires |m| == 3
    ensures m == [m[0], m[1], m[2]]
  {
  }

  /** A value seen again later is not listed twice. */
  lemma DedupRepeat<T(!new)>(x: T, y: T)
    requires x != y
    ensures Dedup([x, y, x]) == [x, y]
  {
    assert [x][..0] == [];
    assert Dedup([x]) == [x];
    assert [x, y][..1] == [x];
    assert Dedup([x, y]) == [x, y];
    assert [x, y, x][..2] == [x, y];
  }

  /** Values in `Dedup(s)` appear in the order of their first occurrence in `s`. */
  lemma {:induction false} DedupFirstSeenOrder<T(!new)>(s: seq<T>)
    ensures forall i, j :: 0 <= i < j < |Dedup(s)| ==> IndexOf(s, Dedup(s)[i]) < IndexOf(s, Dedup(s)[j])
  {
    if s != [] {
      var p := s[..|s| - 1];
      var x := s[|s| - 1];
      var d := Dedup(p);
      DedupFirstSeenOrder(p);
      forall y | y in d ensures IndexOf(s, y) == IndexOf(p, y) {
        assert p == s[..|s| - 1];
        IndexOfPrefix(s, |s| - 1, y);
      }
      if x !in d {
        assert Dedup(s) == d + [x];
        assert x !in p;
        assert IndexOf(s, x) == |s| - 1 by {
          forall j | 0 <= j < |s| - 1 ensures s[j] != x {
            assert s[j] == p[j];
          }
        }
        forall i, j | 0 <= i < j < |Dedup(s)|
          ensures IndexOf(s, Dedup(s)[i]) < IndexOf(s, Dedup(s)[j])
        {
          assert Dedup(s)[i] == d[i];
          if j < |d| {
            assert Dedup(s)[j] == d[j];
          }
        }
      }
    }
  }

  /** When no element passes, the filter is empty. */
  lemma FilterNone<T(!new)>(p: T -> bool, s: seq<T>)
    requires forall x :: x in s ==> !p(x)
    ensures Filter(p, s) == []
  {
  }

  /** In a sequence without duplicates every value occurs at most once. */
  lemma {:induction false} NoDupsOccursOnce<T(!new)>(s: seq<T>, x: T)
    requires NoDups(s)
    ensures multiset(s)[x] <= 1
  {
    if s != [] {
      assert s == [s[0]] + s[1..];
      assert NoDups(s[1..]) by {
        forall i, j | 0 <= i < j < |s[1..]| ensures s[1..][i] != s[1..][j] {
          assert s[1..][i] == s[i + 1] && s[1..][j] == s[j + 1];
        }
      }
      NoDupsOccursOnce(s[1..], x);
      if s[0] == x {
        assert x !in s[1..] by {
          forall j | 0 <= j < |s[1..]| ensures s[1..][j] != x {
            assert s[1..][j] == s[j + 1];
          }
        }
      }
    }
  }

  /** A value at two distinct positions occurs at least twice. */
  lemma OccursTwice<T(!new)>(s: seq<T>, i: nat, j: nat)
    requires i < j < |s| && s[i] == s[j]
    ensures multiset(s)[s[i]] >= 2
  {
    assert s == s[..j] + s[j..];
    assert s[i] in s[..j];
    assert s[j] in s[j..];
    assert multiset(s) == multiset(s[..j]) + multiset(s[j..]);
  }

  /** Rearranging a duplicate-free sequence cannot create duplicates. */
  lemma NoDupsPermutation<T(!new)>(a: seq<T>, b: seq<T>)
    requires NoDups(a) && multiset(a) == multiset(b)
    ensures NoDups(b)
  {
    forall i, j | 0 <= i < j < |b| ensures b[i] != b[j] {
      if b[i] == b[j] {
        OccursTwice(b, i, j);
        NoDupsOccursOnce(a, b[i]);
        assert false;
      }
    }
  }
}
