/** Go's strings.Count and strings.ReplaceAll: occurrences found left to right, without overlap. */
module Replacing {

  predicate StartsWith<T(==)>(s: seq<T>, t: seq<T>) {
    |t| <= |s| && s[..|t|] == t
  }

  function Count<T(==)>(s: seq<T>, old_: seq<T>): nat
    requires old_ != []
  {
    if s == [] then 0
    else if StartsWith(s, old_) then 1 + Count(s[|old_|..], old_)
    else Count(s[1..], old_)
  }

  function ReplaceAll<T(==)>(s: seq<T>, old_: seq<T>, new_: seq<T>): seq<T>
    requires old_ != []
  {
    if s == [] then []
    else if StartsWith(s, old_) then new_ + ReplaceAll(s[|old_|..], old_, new_)
    else [s[0]] + ReplaceAll(s[1..], old_, new_)
  }
}
