/** Go's strings.Join, and strings.Split for a one-element separator, over strings and bytes alike. */
module Separated {

  function Join<T>(between: seq<T>, parts: seq<seq<T>>): seq<T> {
    if parts == [] then [] else if |parts| == 1 then parts[0] else parts[0] + between + Join(between, parts[1..])
  }

  function Split<T(==)>(sep: T, s: seq<T>): (parts: seq<seq<T>>)
    ensures parts != []
  {
    if s == [] then [[]]
    else
      var rest := Split(sep, s[1..]);
      if s[0] == sep then [[]] + rest else [[s[0]] + rest[0]] + rest[1..]
  }

  /** Puts x in front of the first part, or starts a part when x separates. */
  function Fronted<T(==)>(sep: T, x: T, parts: seq<seq<T>>): seq<seq<T>>
    requires parts != []
  {
    if x == sep then [[]] + parts else [[x] + parts[0]] + parts[1..]
  }

  lemma SplitStep<T>(sep: T, s: seq<T>)
    requires s != []
    ensures Split(sep, s) == Fronted(sep, s[0], Split(sep, s[1..]))
  {
  }

  lemma {:induction false} SplitParts<T>(sep: T, s: seq<T>)
    ensures forall part :: part in Split(sep, s) ==> sep !in part
  {
    if s != [] {
      SplitParts(sep, s[1..]);
      var rest := Split(sep, s[1..]);
      assert rest[0] in rest;
      assert forall part :: part in rest[1..] ==> part in rest;
    }
  }

  lemma JoinFronted<T>(sep: T, x: T, parts: seq<seq<T>>)
    requires parts != []
    ensures Join([sep], Fronted(sep, x, parts)) == [x] + Join([sep], parts)
  {
    var fronted := Fronted(sep, x, parts);
    if x == sep {
      assert fronted[1..] == parts;
    } else {
      assert fronted[1..] == parts[1..];
    }
  }

  /** Splitting loses nothing. */
  lemma {:induction false} JoinSplit<T>(sep: T, s: seq<T>)
    ensures Join([sep], Split(sep, s)) == s
  {
    if s != [] {
      hide Split, Join, Fronted;
      JoinSplit(sep, s[1..]);
      SplitStep(sep, s);
      JoinFronted(sep, s[0], Split(sep, s[1..]));
      assert s == [s[0]] + s[1..];
    }
  }

  lemma {:induction false} SplitFree<T>(sep: T, s: seq<T>)
    requires sep !in s
    ensures Split(sep, s) == [s]
  {
    if s != [] {
      SplitFree(sep, s[1..]);
      assert s == [s[0]] + s[1..];
    }
  }

  /** A separator in the middle splits the two sides independently. */
  lemma {:induction false} SplitAppend<T>(sep: T, s: seq<T>, t: seq<T>)
    ensures Split(sep, s + [sep] + t) == Split(sep, s) + Split(sep, t)
  {
    hide Split;
    var all := s + [sep] + t;
    SplitStep(sep, all);
    if s == [] {
      assert all[1..] == t;
      SplitFree(sep, s);
    } else {
      SplitAppend(sep, s[1..], t);
      SplitStep(sep, s);
      assert all[1..] == s[1..] + [sep] + t;
    }
  }

  lemma {:induction false} SplitJoin<T>(sep: T, parts: seq<seq<T>>)
    requires parts != [] && forall part :: part in parts ==> sep !in part
    ensures Split(sep, Join([sep], parts)) == parts
  {
    SplitFree(sep, parts[0]);
    if |parts| > 1 {
      SplitJoin(sep, parts[1..]);
      SplitAppend(sep, parts[0], Join([sep], parts[1..]));
    }
  }

  /** Splitting recovers the parts that were joined exactly when none holds the separator. */
  lemma SplitJoinIff<T>(sep: T, parts: seq<seq<T>>)
    requires parts != []
    ensures Split(sep, Join([sep], parts)) == parts <==> forall part :: part in parts ==> sep !in part
  {
    if forall part :: part in parts ==> sep !in part {
      SplitJoin(sep, parts);
    }
    SplitParts(sep, Join([sep], parts));
  }
}
