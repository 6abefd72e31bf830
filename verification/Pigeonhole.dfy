/** Counting without repetition, for the arguments that end in "there is no room left". */
module Pigeonhole {

  ghost predicate Distinct<T(!new)>(s: seq<T>) {
    forall i, j :: 0 <= i < j < |s| ==> s[i] != s[j]
  }

  function UpTo(n: nat): (s: set<nat>)
    ensures |s| == n
    ensures forall i: nat :: i in s <==> i < n
  {
    if n == 0 then {} else UpTo(n - 1) + {n - 1}
  }

  lemma {:induction false} NoMoreThan<T(!new)>(s: seq<T>, universe: set<T>)
    requires Distinct(s) && forall x :: x in s ==> x in universe
    ensures |s| <= |universe|
  {
    if s != [] {
      var last := s[|s| - 1];
      NoMoreThan(s[..|s| - 1], universe - {last});
    }
  }

  /** n distinct numbers below n are all of them. */
  lemma AllOccur(s: seq<nat>, n: nat, m: nat)
    requires Distinct(s) && (forall x :: x in s ==> x < n) && |s| >= n && m < n
    ensures m in s
  {
    if m !in s {
      NoMoreThan(s, UpTo(n) - {m});
    }
  }

  lemma DistinctJoined<T(!new)>(s: seq<T>, t: seq<T>)
    requires Distinct(s) && Distinct(t) && forall x :: x in s ==> x !in t
    ensures Distinct(s + t)
  {
    forall i, j | 0 <= i < j < |s + t| ensures (s + t)[i] != (s + t)[j] {
      if i < |s| <= j {
        assert s[i] in s && t[j - |s|] in t;
      }
    }
  }
}
