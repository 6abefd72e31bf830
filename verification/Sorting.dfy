/**
 Go's ordering of strings and byte slices, and sorting by it. The elements are compared by
 an injective rank, so the one definition serves strings and byte sequences.
 */
module Sorting {
  import opened Pigeonhole

  ghost predicate Injective<T(!new)>(rank: T -> int) {
    forall x, y :: rank(x) == rank(y) ==> x == y
  }

  function CharRank(c: char): int {
    c as int
  }

  predicate LexLess<T>(rank: T -> int, a: seq<T>, b: seq<T>) {
    b != [] && (a == [] || rank(a[0]) < rank(b[0]) || (rank(a[0]) == rank(b[0]) && LexLess(rank, a[1..], b[1..])))
  }

  /** The first place the two part: there a ends, or has the element of lower rank. */
  predicate LessFrom<T(==)>(rank: T -> int, a: seq<T>, b: seq<T>, k: nat) {
    k <= |a| && k < |b| && a[..k] == b[..k] && (k == |a| || rank(a[k]) < rank(b[k]))
  }

  lemma {:induction false} LessParts<T(!new)>(rank: T -> int, a: seq<T>, b: seq<T>) returns (k: nat)
    requires Injective(rank) && LexLess(rank, a, b)
    ensures LessFrom(rank, a, b, k)
  {
    if a == [] || rank(a[0]) != rank(b[0]) {
      k := 0;
    } else {
      var j := LessParts(rank, a[1..], b[1..]);
      k := j + 1;
      assert a[..k] == [a[0]] + a[1..][..j] && b[..k] == [b[0]] + b[1..][..j];
    }
  }

  lemma {:induction false} PartedLess<T>(rank: T -> int, a: seq<T>, b: seq<T>, k: nat)
    requires LessFrom(rank, a, b, k)
    ensures LexLess(rank, a, b)
  {
    if k > 0 {
      assert a[..k][0] == b[..k][0] && a[1..][..k - 1] == a[..k][1..] && b[1..][..k - 1] == b[..k][1..];
      PartedLess(rank, a[1..], b[1..], k - 1);
    }
  }

  /** Go's < on strings: at the first place where they part, the one that ends or has the smaller character is less. */
  predicate StringLess(a: string, b: string) {
    exists k :: 0 <= k <= |a| && k < |b| && a[..k] == b[..k] && (k == |a| || a[k] < b[k])
  }

  lemma StringOrder(a: string, b: string)
    ensures LexLess(CharRank, a, b) <==> StringLess(a, b)
  {
    hide LexLess;
    if LexLess(CharRank, a, b) {
      var k := LessParts(CharRank, a, b);
    }
    if StringLess(a, b) {
      var k :| 0 <= k <= |a| && k < |b| && a[..k] == b[..k] && (k == |a| || a[k] < b[k]);
      PartedLess(CharRank, a, b, k);
    }
  }

  ghost predicate Ascending<T>(rank: T -> int, s: seq<seq<T>>) {
    forall i, j :: 0 <= i < j < |s| ==> LexLess(rank, s[i], s[j])
  }

  /** The strings come out strictly ascending in Go's order. */
  lemma AscendingStrings(s: seq<string>)
    ensures Ascending(CharRank, s) <==> forall i, j :: 0 <= i < j < |s| ==> StringLess(s[i], s[j])
  {
    hide LexLess, StringLess;
    forall i, j | 0 <= i < j < |s| ensures LexLess(CharRank, s[i], s[j]) <==> StringLess(s[i], s[j]) {
      StringOrder(s[i], s[j]);
    }
  }

  lemma {:induction false} LexIrreflexive<T>(rank: T -> int, a: seq<T>)
    ensures !LexLess(rank, a, a)
  {
    if a != [] {
      LexIrreflexive(rank, a[1..]);
    }
  }

  lemma {:induction false} LexTransitive<T>(rank: T -> int, a: seq<T>, b: seq<T>, c: seq<T>)
    requires LexLess(rank, a, b) && LexLess(rank, b, c)
    ensures LexLess(rank, a, c)
  {
    if a != [] && rank(a[0]) == rank(b[0]) == rank(c[0]) {
      LexTransitive(rank, a[1..], b[1..], c[1..]);
    }
  }

  lemma {:induction false} LexTotal<T(!new)>(rank: T -> int, a: seq<T>, b: seq<T>)
    requires Injective(rank)
    ensures a == b || LexLess(rank, a, b) || LexLess(rank, b, a)
  {
    if a != [] && b != [] && rank(a[0]) == rank(b[0]) {
      LexTotal(rank, a[1..], b[1..]);
      assert a == [a[0]] + a[1..] && b == [b[0]] + b[1..];
    }
  }

  function Insert<T>(rank: T -> int, x: seq<T>, s: seq<seq<T>>): seq<seq<T>> {
    if s == [] || LexLess(rank, x, s[0]) then [x] + s else [s[0]] + Insert(rank, x, s[1..])
  }

  function Sort<T>(rank: T -> int, s: seq<seq<T>>): seq<seq<T>> {
    if s == [] then [] else Insert(rank, s[0], Sort(rank, s[1..]))
  }

  lemma {:induction false} InsertMembers<T>(rank: T -> int, x: seq<T>, s: seq<seq<T>>)
    ensures forall y :: y in Insert(rank, x, s) <==> y == x || y in s
  {
    if s != [] && !LexLess(rank, x, s[0]) {
      InsertMembers(rank, x, s[1..]);
      assert s == [s[0]] + s[1..];
    }
  }

  lemma {:induction false} InsertAscending<T(!new)>(rank: T -> int, x: seq<T>, s: seq<seq<T>>)
    requires Injective(rank) && Ascending(rank, s) && x !in s
    ensures Ascending(rank, Insert(rank, x, s))
  {
    if s == [] {
    } else if LexLess(rank, x, s[0]) {
      forall i | 0 <= i < |s| ensures LexLess(rank, x, s[i]) {
        if i > 0 {
          LexTransitive(rank, x, s[0], s[i]);
        }
      }
    } else {
      LexTotal(rank, x, s[0]);
      InsertAscending(rank, x, s[1..]);
      InsertMembers(rank, x, s[1..]);
      var rest := Insert(rank, x, s[1..]);
      forall i | 0 <= i < |rest| ensures LexLess(rank, s[0], rest[i]) {
        assert rest[i] in rest;
      }
    }
  }

  /** Sorting distinct elements orders them strictly and keeps exactly them. */
  lemma {:induction false} SortSorts<T(!new)>(rank: T -> int, s: seq<seq<T>>)
    requires Injective(rank) && Distinct(s)
    ensures Ascending(rank, Sort(rank, s)) && forall y :: y in Sort(rank, s) <==> y in s
  {
    if s != [] {
      SortSorts(rank, s[1..]);
      InsertMembers(rank, s[0], Sort(rank, s[1..]));
      InsertAscending(rank, s[0], Sort(rank, s[1..]));
      assert s == [s[0]] + s[1..];
    }
  }

  lemma AscendingDistinct<T>(rank: T -> int, s: seq<seq<T>>)
    requires Ascending(rank, s)
    ensures forall i, j :: 0 <= i < j < |s| ==> s[i] != s[j]
  {
    forall i, j | 0 <= i < j < |s| ensures s[i] != s[j] {
      LexIrreflexive(rank, s[i]);
    }
  }

  lemma HeadIn<T>(s: seq<T>)
    requires s != []
    ensures s[0] in s
  {
  }

  lemma HeadIsLeast<T>(rank: T -> int, s: seq<seq<T>>, x: seq<T>)
    requires Ascending(rank, s) && x in s
    ensures x == s[0] || LexLess(rank, s[0], x)
  {
  }

  lemma TailMembers<T>(s: seq<seq<T>>)
    requires s != [] && forall i, j :: 0 <= i < j < |s| ==> s[i] != s[j]
    ensures forall x :: x in s[1..] <==> x in s && x != s[0]
  {
    forall x | x in s && x != s[0] ensures x in s[1..] {
      var i :| 0 <= i < |s| && s[i] == x;
      assert s[1..][i - 1] == x;
    }
  }

  /** A set has only one ascending enumeration. */
  lemma {:induction false} AscendingUnique<T>(rank: T -> int, s: seq<seq<T>>, t: seq<seq<T>>)
    requires Ascending(rank, s) && Ascending(rank, t) && forall x :: x in s <==> x in t
    ensures s == t
  {
    if s == [] {
      if t != [] { HeadIn(t); }
    } else {
      assert s[0] in t;
      assert t[0] in s;
      HeadIsLeast(rank, s, t[0]);
      HeadIsLeast(rank, t, s[0]);
      if s[0] != t[0] {
        LexTransitive(rank, s[0], t[0], s[0]);
        LexIrreflexive(rank, s[0]);
      }
      AscendingDistinct(rank, s);
      AscendingDistinct(rank, t);
      TailMembers(s);
      TailMembers(t);
      AscendingUnique(rank, s[1..], t[1..]);
      assert s == [s[0]] + s[1..] && t == [t[0]] + t[1..];
    }
  }

  // ----- sorting by any order, entries that compare equal staying in their order

  /** What sort.Slice asks of its less function. */
  ghost predicate StrictWeak<C(!new)>(less: (C, C) -> bool) {
    && (forall x :: !less(x, x))
    && (forall x, y, z :: less(x, y) && less(y, z) ==> less(x, z))
    && (forall x, y, z :: less(x, z) ==> less(x, y) || less(y, z))
  }

  ghost predicate Ordered<C>(less: (C, C) -> bool, s: seq<C>) {
    forall i, j :: 0 <= i < j < |s| ==> !less(s[j], s[i])
  }

  /** Puts x behind everything it is not less than. */
  function Place<C>(less: (C, C) -> bool, x: C, s: seq<C>): seq<C> {
    if s == [] || less(x, s[0]) then [x] + s else [s[0]] + Place(less, x, s[1..])
  }

  function SortBy<C>(less: (C, C) -> bool, s: seq<C>): seq<C> {
    if s == [] then [] else Place(less, s[|s| - 1], SortBy(less, s[..|s| - 1]))
  }

  lemma {:induction false} PlaceKeepsAll<C>(less: (C, C) -> bool, x: C, s: seq<C>)
    ensures multiset(Place(less, x, s)) == multiset(s) + multiset{x}
    ensures forall y :: y in Place(less, x, s) <==> y == x || y in s
  {
    if s != [] && !less(x, s[0]) {
      PlaceKeepsAll(less, x, s[1..]);
      assert s == [s[0]] + s[1..];
    }
  }

  lemma NotLess<C(!new)>(less: (C, C) -> bool, x: C, y: C, z: C)
    requires StrictWeak(less) && !less(x, z) && less(y, z)
    ensures !less(x, y)
  {
  }

  lemma {:induction false} PlaceOrdered<C(!new)>(less: (C, C) -> bool, x: C, s: seq<C>)
    requires StrictWeak(less) && Ordered(less, s)
    ensures Ordered(less, Place(less, x, s))
  {
    if s == [] {
    } else if less(x, s[0]) {
      forall i | 0 <= i < |s| ensures !less(s[i], x) {
        NotLess(less, s[i], x, s[0]);
      }
    } else {
      PlaceOrdered(less, x, s[1..]);
      PlaceKeepsAll(less, x, s[1..]);
      var rest := Place(less, x, s[1..]);
      forall i | 0 <= i < |rest| ensures !less(rest[i], s[0]) {
        assert rest[i] in rest;
      }
    }
  }

  /** Sorting orders the entries and keeps exactly them. */
  lemma {:induction false} SortBySorts<C(!new)>(less: (C, C) -> bool, s: seq<C>)
    requires StrictWeak(less)
    ensures Ordered(less, SortBy(less, s)) && multiset(SortBy(less, s)) == multiset(s)
    ensures forall y :: y in SortBy(less, s) <==> y in s
  {
    if s != [] {
      var front, last := s[..|s| - 1], s[|s| - 1];
      SortBySorts(less, front);
      PlaceOrdered(less, last, SortBy(less, front));
      PlaceKeepsAll(less, last, SortBy(less, front));
      assert s == front + [last];
    }
  }
}
