/** The version comparison of internal/upgrade/dependencies.go: three numbers, suffixes ignored. */
module Versions {
  import opened Wrappers
  import opened Decimals
  import opened Int64
  import Separated

  datatype Version = Version(major: nat, minor: nat, patch: nat)

  /** The part before the first '-' or '+'. */
  function Cut(s: string): (core: string)
    ensures '-' !in core && '+' !in core
  {
    if s == "" || s[0] == '-' || s[0] == '+' then "" else [s[0]] + Cut(s[1..])
  }

  /** strconv.Atoi on text the cut has left no sign in. */
  function Atoi(s: string): Option<nat> {
    if s != "" && (forall c :: c in s ==> IsDigit(c)) && IsInt64(Number(s)) then Some(Number(s)) else None
  }

  function Parts(v: string): seq<string> {
    Separated.Split('.', Cut(if v != "" && v[0] == 'v' then v[1..] else v))
  }

  /** The version a text denotes, if it denotes one. */
  function Parsed(v: string): Option<Version> {
    var parts := Parts(v);
    if |parts| != 3 then None
    else
      match (Atoi(parts[0]), Atoi(parts[1]), Atoi(parts[2]))
      case (Some(a), Some(b), Some(c)) => Some(Version(a, b, c))
      case _ => None
  }

  /** Fills the three components in a loop, giving up at the first that is not a number. */
  method ParseVersion(v: string) returns (out: array<int>, ok: bool)
    ensures out.Length == 3 && fresh(out)
    ensures ok <==> Parsed(v).Some?
    ensures ok ==> out[..] == [Parsed(v).value.major, Parsed(v).value.minor, Parsed(v).value.patch]
  {
    hide Atoi, Parts;
    out := new int[3](_ => 0);
    var parts := Parts(v);
    if |parts| != 3 {
      return out, false;
    }
    for i := 0 to 3
      invariant forall j :: 0 <= j < i ==> Atoi(parts[j]) == Some(out[j])
    {
      var n := Atoi(parts[i]);
      if n.None? {
        return out, false;
      }
      out[i] := n.value;
    }
    ok := true;
  }

  predicate Later(a: Version, b: Version) {
    if a.major != b.major then a.major > b.major
    else if a.minor != b.minor then a.minor > b.minor
    else a.patch > b.patch
  }

  /** Whether a is a strictly later version than b; false when either cannot be read. */
  function Newer(a: string, b: string): bool {
    Parsed(a).Some? && Parsed(b).Some? && Later(Parsed(a).value, Parsed(b).value)
  }

  /** A version's three numbers, most significant first. */
  function Numbers(v: Version): (n: seq<nat>)
    ensures |n| == 3
  {
    [v.major, v.minor, v.patch]
  }

  /** The first of the three numbers in which two versions differ decides. */
  lemma NewerMeans(a: string, b: string)
    ensures Newer(a, b)
            <==> Parsed(a).Some? && Parsed(b).Some?
                 && var x, y := Numbers(Parsed(a).value), Numbers(Parsed(b).value);
                    exists k :: 0 <= k < 3 && x[k] > y[k] && x[..k] == y[..k]
  {
    hide Parsed;
    if Parsed(a).Some? && Parsed(b).Some? {
      var x, y := Numbers(Parsed(a).value), Numbers(Parsed(b).value);
      assert x[..0] == y[..0];
      assert x[..1] == [x[0]] && y[..1] == [y[0]] && x[..2] == [x[0], x[1]] && y[..2] == [y[0], y[1]];
    }
  }

  /** A strict order, total on the texts that denote different versions. */
  lemma NewerIsStrictOrder(a: string, b: string, c: string)
    ensures !Newer(a, a) && (Newer(a, b) ==> !Newer(b, a)) && (Newer(a, b) && Newer(b, c) ==> Newer(a, c))
    ensures Parsed(a).Some? && Parsed(b).Some? ==> Newer(a, b) || Newer(b, a) || Parsed(a) == Parsed(b)
  {
  }

  /** A text that starts like neither a number nor a cut, such as the range "^5.0.0", denotes no version. */
  lemma RangeUnreadable(v: string)
    requires v != "" && !IsDigit(v[0]) && v[0] !in ['v', '.', '-', '+']
    ensures Parsed(v).None?
  {
    hide Separated.Split;
    Separated.SplitStep('.', Cut(v));
    var first := Parts(v)[0];
    assert first[0] == v[0] && first[0] in first;
  }

  lemma VersionHead(v: string)
    requires Parsed(v).Some?
    ensures v != "" && (IsDigit(v[0]) || v[0] in ['v', '.', '-', '+'])
  {
    hide Atoi, IsDigit;
    if v == "" {
      Separated.SplitFree('.', "");
    } else if !(IsDigit(v[0]) || v[0] in ['v', '.', '-', '+']) {
      RangeUnreadable(v);
    }
  }

  lemma {:induction false} NothingCut(s: string)
    requires '-' !in s && '+' !in s
    ensures Cut(s) == s
  {
    if s != "" {
      NothingCut(s[1..]);
      assert s == [s[0]] + s[1..];
    }
  }

  lemma AtoiDigit(c: char)
    requires IsDigit(c)
    ensures Atoi([c]) == Some(DigitValue(c)) && c != '.' && c != 'v' && c != '-' && c != '+'
  {
    assert Number([c]) == Number([c][..0]) * 10 + DigitValue(c) && [c][..0] == [];
  }

  /** Three digits between dots are a version. */
  lemma DigitVersion(a: char, b: char, c: char)
    requires IsDigit(a) && IsDigit(b) && IsDigit(c)
    ensures Parsed([a, '.', b, '.', c]) == Some(Version(DigitValue(a), DigitValue(b), DigitValue(c)))
  {
    hide Separated.Split, Atoi, IsDigit;
    var v, parts := [a, '.', b, '.', c], [[a], [b], [c]];
    assert parts[1..] == [[b], [c]] && [[b], [c]][1..] == [[c]];
    assert Separated.Join(['.'], [[b], [c]]) == [b, '.', c];
    assert Separated.Join(['.'], parts) == v;
    AtoiDigit(a);
    AtoiDigit(b);
    AtoiDigit(c);
    Separated.SplitJoin('.', parts);
    NothingCut(v);
  }

  predicate IsNumeral(s: string) {
    s != "" && (forall c :: c in s ==> IsDigit(c)) && IsInt64(Number(s))
  }

  lemma {:induction false} CutAt(core: string, suffix: string)
    requires '-' !in core && '+' !in core && (suffix == "" || suffix[0] == '-' || suffix[0] == '+')
    ensures Cut(core + suffix) == core
  {
    if core == "" {
      assert core + suffix == suffix;
    } else {
      assert (core + suffix)[1..] == core[1..] + suffix;
      CutAt(core[1..], suffix);
      assert core == [core[0]] + core[1..];
    }
  }

  lemma JoinedThree(x: string, y: string, z: string)
    ensures Separated.Join(['.'], [x, y, z]) == x + "." + y + "." + z
  {
    assert [x, y, z][1..] == [y, z] && [y, z][1..] == [z];
    assert Separated.Join(['.'], [y, z]) == y + ['.'] + z;
  }

  lemma Numerals(x: string)
    requires IsNumeral(x)
    ensures (forall c :: c in x ==> IsDigit(c)) && x != "" && '.' !in x && '-' !in x && '+' !in x && 'v' !in x
            && Atoi(x) == Some(Number(x))
  {
  }

  lemma CorePieces(v: string, core: string, suffix: string, parts: seq<string>)
    requires v == core + suffix || v == "v" + (core + suffix)
    requires core != "" && core[0] != 'v' && core == Separated.Join(['.'], parts) && parts != []
    requires forall part :: part in parts ==> '.' !in part
    requires '-' !in core && '+' !in core && (suffix == "" || suffix[0] == '-' || suffix[0] == '+')
    ensures Parts(v) == parts
  {
    hide Separated.Split, Separated.Join, Cut;
    CutAt(core, suffix);
    Separated.SplitJoin('.', parts);
    assert (core + suffix)[0] == core[0];
    assert ("v" + (core + suffix))[1..] == core + suffix;
  }

  lemma Spelled(v: string, parts: seq<string>, p: Version)
    requires Parts(v) == parts && |parts| == 3
    requires Atoi(parts[0]) == Some(p.major) && Atoi(parts[1]) == Some(p.minor) && Atoi(parts[2]) == Some(p.patch)
    ensures Parsed(v) == Some(p)
  {
    hide Parts, Atoi;
  }

  /** Three numerals between dots, with or without a 'v' in front and a suffix behind, are the version they spell. */
  lemma VersionSpelled(x: string, y: string, z: string, suffix: string)
    requires IsNumeral(x) && IsNumeral(y) && IsNumeral(z)
    requires suffix == "" || suffix[0] == '-' || suffix[0] == '+'
    ensures Parsed(x + "." + y + "." + z + suffix) == Some(Version(Number(x), Number(y), Number(z)))
    ensures Parsed("v" + x + "." + y + "." + z + suffix) == Some(Version(Number(x), Number(y), Number(z)))
  {
    hide *;
    var core := x + "." + y + "." + z;
    Numerals(x);
    Numerals(y);
    Numerals(z);
    JoinedThree(x, y, z);
    assert core[0] == x[0] && x[0] in x;
    CorePieces(core + suffix, core, suffix, [x, y, z]);
    var lead := "v" + x + "." + y + "." + z + suffix;
    assert lead == "v" + (core + suffix);
    assert lead[1..] == core + suffix;
    CorePieces(lead, core, suffix, [x, y, z]);
    var p := Version(Number(x), Number(y), Number(z));
    Spelled(core + suffix, [x, y, z], p);
    Spelled(lead, [x, y, z], p);
  }
}
