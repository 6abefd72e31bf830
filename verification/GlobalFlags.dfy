/**
 The two passes of internal/cli/dispatch.go that take the reserved global flags out of an argument list: a
 blind one, and one that knows which of the command's own flags take a value.
 */
module GlobalFlags {
  import opened Wrappers
  import opened Pigeonhole
  import opened Sorting

  datatype Global = JSON | Quiet | Verbose | NoColor | Help | Version

  const RESERVED_NAMES := {"json", "quiet", "verbose", "no-color", "help", "h", "version"}

  /** The global flag a token spells, if any. */
  function Spelled(a: string): Option<Global> {
    if a == "--json" then Some(JSON)
    else if a == "--quiet" then Some(Quiet)
    else if a == "--verbose" then Some(Verbose)
    else if a == "--no-color" then Some(NoColor)
    else if a == "--help" || a == "-h" then Some(Help)
    else if a == "--version" then Some(Version)
    else None
  }

  /** Each flag is spelled one way, and help two. */
  lemma SpellingsMean(a: string)
    ensures Spelled(a) == Some(JSON) <==> a == "--json"
    ensures Spelled(a) == Some(Quiet) <==> a == "--quiet"
    ensures Spelled(a) == Some(Verbose) <==> a == "--verbose"
    ensures Spelled(a) == Some(NoColor) <==> a == "--no-color"
    ensures Spelled(a) == Some(Help) <==> a == "--help" || a == "-h"
    ensures Spelled(a) == Some(Version) <==> a == "--version"
  {
  }

  /** The flags that are switched on. */
  type Globals = set<Global>

  /** What extraction leaves of the arguments, and the flags it took out. */
  datatype Extraction = Extraction(out: seq<string>, globals: Globals)

  function Blind(args: seq<string>): Extraction {
    if args == [] then Extraction([], {})
    else if args[0] == "--" then Extraction(args, {})
    else
      var rest := Blind(args[1..]);
      if Spelled(args[0]).Some? then Extraction(rest.out, {Spelled(args[0]).value} + rest.globals)
      else Extraction([args[0]] + rest.out, rest.globals)
  }

  function IndexOf(s: string, c: char): (i: int)
    ensures -1 <= i < |s|
    ensures i >= 0 ==> s[i] == c && c !in s[..i]
    ensures i < 0 ==> c !in s
  {
    if s == "" then -1
    else if s[0] == c then 0
    else var i := IndexOf(s[1..], c); if i < 0 then -1 else i + 1
  }

  /** A flag-shaped token: its name without dashes, and whether it carries its value after '='. */
  datatype FlagToken = NotAFlag | FlagNamed(name: string, embedded: bool)

  function ParseFlagToken(a: string): FlagToken {
    if |a| < 2 || a[0] != '-' then NotAFlag
    else
      var t := if a[1] == '-' then a[2..] else a[1..];
      if t == "" then NotAFlag
      else
        var eq := IndexOf(t, '=');
        if eq >= 0 then FlagNamed(t[..eq], true) else FlagNamed(t, false)
  }

  predicate TakesValue(a: string, valueFlags: set<string>) {
    var t := ParseFlagToken(a); t.FlagNamed? && !t.embedded && t.name in valueFlags
  }

  function Aware(args: seq<string>, valueFlags: set<string>): Extraction {
    if args == [] then Extraction([], {})
    else if args[0] == "--" then Extraction(args, {})
    else if TakesValue(args[0], valueFlags) then
      if |args| == 1 then Extraction(args, {})
      else var rest := Aware(args[2..], valueFlags); Extraction([args[0], args[1]] + rest.out, rest.globals)
    else
      var rest := Aware(args[1..], valueFlags);
      if Spelled(args[0]).Some? then Extraction(rest.out, {Spelled(args[0]).value} + rest.globals)
      else Extraction([args[0]] + rest.out, rest.globals)
  }

  method ExtractGlobalFlags(args: seq<string>) returns (out: seq<string>, g: Globals)
    ensures Extraction(out, g) == Blind(args)
  {
    hide Spelled;
    out, g := [], {};
    var i := 0;
    while i < |args|
      invariant 0 <= i <= |args|
      invariant Blind(args).out == out + Blind(args[i..]).out && Blind(args).globals == g + Blind(args[i..]).globals
    {
      var a := args[i];
      assert args[i..][1..] == args[i + 1..];
      if a == "--" {
        out := out + args[i..];
        return;
      }
      if Spelled(a).Some? {
        g := g + {Spelled(a).value};
      } else {
        out := out + [a];
      }
      i := i + 1;
    }
  }

  lemma NothingToExtract(valueFlags: set<string>)
    ensures Aware([], valueFlags) == Extraction([], {})
  {
  }

  lemma AwareStep(args: seq<string>, i: nat, valueFlags: set<string>)
    requires i < |args|
    ensures Aware(args[i..], valueFlags) ==
            if args[i] == "--" then Extraction(args[i..], {})
            else if TakesValue(args[i], valueFlags) then
              if i + 1 == |args| then Extraction([args[i]], {})
              else Extraction([args[i]] + [args[i + 1]] + Aware(args[i + 2..], valueFlags).out,
                              Aware(args[i + 2..], valueFlags).globals)
            else if Spelled(args[i]).Some? then
              Extraction(Aware(args[i + 1..], valueFlags).out,
                         {Spelled(args[i]).value} + Aware(args[i + 1..], valueFlags).globals)
            else Extraction([args[i]] + Aware(args[i + 1..], valueFlags).out, Aware(args[i + 1..], valueFlags).globals)
  {
    hide Spelled, TakesValue;
    assert args[i..][1..] == args[i + 1..];
    if i + 1 < |args| { assert args[i..][2..] == args[i + 2..]; }
    assert i + 1 == |args| ==> args[i..] == [args[i]];
  }

  function ValueFlags(flags: map<string, bool>): set<string> {
    set name | name in flags && !flags[name]
  }

  method ValueConsumingFlagNames(flags: map<string, bool>) returns (names: set<string>)
    ensures names == ValueFlags(flags)
  {
    names := {};
    var left := flags.Keys;
    while left != {}
      invariant left <= flags.Keys
      invariant names == set name | name in flags && name !in left && !flags[name]
      decreases |left|
    {
      var name :| name in left;
      if !flags[name] {
        names := names + {name};
      }
      left := left - {name};
    }
  }

  method ExtractGlobalFlagsAware(args: seq<string>, flags: map<string, bool>) returns (out: seq<string>, g: Globals)
    ensures Extraction(out, g) == Aware(args, ValueFlags(flags))
  {
    hide Spelled, TakesValue, Aware;
    var valueFlags := ValueConsumingFlagNames(flags);
    NothingToExtract(valueFlags);
    assert args[0..] == args && args[|args|..] == [];
    out, g := [], {};
    var i := 0;
    while i < |args|
      invariant 0 <= i <= |args|
      invariant Aware(args, valueFlags).out == out + Aware(args[i..], valueFlags).out
      invariant Aware(args, valueFlags).globals == g + Aware(args[i..], valueFlags).globals
      decreases |args| - i
    {
      var a := args[i];
      AwareStep(args, i, valueFlags);
      if a == "--" {
        out := out + args[i..];
        return;
      }
      if TakesValue(a, valueFlags) {
        out := out + [a];
        if i + 1 < |args| {
          i := i + 1;
          out := out + [args[i]];
        }
        i := i + 1;
        continue;
      }
      if Spelled(a).Some? {
        g := g + {Spelled(a).value};
      } else {
        out := out + [a];
      }
      i := i + 1;
    }
  }

  /** A command that defines a flag of a reserved name could never receive it. */
  predicate Collides(flags: map<string, bool>) {
    exists name :: name in flags && name in RESERVED_NAMES
  }

  /** The reserved names a command's flags use, sorted. */
  method ReservedFlagCollisions(flags: map<string, bool>) returns (collisions: seq<string>)
    ensures Ascending(CharRank, collisions)
    ensures forall name :: name in collisions <==> name in flags && name in RESERVED_NAMES
    ensures collisions == [] <==> !Collides(flags)
  {
    hide Sort, LexLess;
    var found: seq<string> := [];
    var left := flags.Keys;
    while left != {}
      invariant left <= flags.Keys && Distinct(found)
      invariant forall name :: name in found <==> name in flags && name !in left && name in RESERVED_NAMES
      decreases |left|
    {
      var name :| name in left;
      if name in RESERVED_NAMES {
        found := found + [name];
      }
      left := left - {name};
    }
    SortSorts(CharRank, found);
    collisions := Sort(CharRank, found);
    if collisions != [] { assert collisions[0] in collisions; }
  }

  // ---- what the passes keep

  /** What is left when some elements are dropped and none is moved. */
  predicate IsSubsequence(a: seq<string>, b: seq<string>) {
    a == [] || (b != [] && if a[0] == b[0] then IsSubsequence(a[1..], b[1..]) else IsSubsequence(a, b[1..]))
  }

  lemma {:induction false} SubsequenceSelf(a: seq<string>)
    ensures IsSubsequence(a, a)
  {
    if a != [] {
      SubsequenceSelf(a[1..]);
    }
  }

  /** Dropping one more element keeps a subsequence. */
  lemma {:induction false} SubsequenceSkip(a: seq<string>, b: seq<string>)
    requires b != [] && IsSubsequence(a, b[1..])
    ensures IsSubsequence(a, b)
  {
    if a != [] && a[0] == b[0] {
      SubsequenceTail(a, b[1..]);
    }
  }

  lemma {:induction false} SubsequenceTail(a: seq<string>, b: seq<string>)
    requires a != [] && IsSubsequence(a, b)
    ensures IsSubsequence(a[1..], b)
  {
    if |a| == 1 {
    } else if a[0] == b[0] {
      SubsequenceSkip(a[1..], b);
    } else {
      SubsequenceTail(a, b[1..]);
      SubsequenceSkip(a[1..], b);
    }
  }

  lemma {:induction false} BlindSubsequence(args: seq<string>)
    ensures IsSubsequence(Blind(args).out, args)
  {
    if args == [] {
    } else if args[0] == "--" {
      SubsequenceSelf(args);
    } else {
      BlindSubsequence(args[1..]);
      var rest := Blind(args[1..]).out;
      if Spelled(args[0]).Some? {
        SubsequenceSkip(rest, args);
      } else {
        assert ([args[0]] + rest)[1..] == rest;
      }
    }
  }

  lemma {:induction false} AwareSubsequence(args: seq<string>, valueFlags: set<string>)
    ensures IsSubsequence(Aware(args, valueFlags).out, args)
    decreases |args|
  {
    hide TakesValue, Spelled;
    if args == [] {
    } else if args[0] == "--" {
      SubsequenceSelf(args);
    } else if TakesValue(args[0], valueFlags) {
      if |args| == 1 {
        SubsequenceSelf(args);
      } else {
        AwareSubsequence(args[2..], valueFlags);
        var rest := Aware(args[2..], valueFlags).out;
        assert ([args[0], args[1]] + rest)[1..] == [args[1]] + rest && ([args[1]] + rest)[1..] == rest;
        assert args[1..][1..] == args[2..];
      }
    } else {
      AwareSubsequence(args[1..], valueFlags);
      var rest := Aware(args[1..], valueFlags).out;
      if Spelled(args[0]).Some? {
        SubsequenceSkip(rest, args);
      } else {
        assert ([args[0]] + rest)[1..] == rest;
      }
    }
  }

  lemma BlindStep(a: string, rest: seq<string>)
    requires a != "--"
    ensures Blind([a] + rest) ==
            if Spelled(a).Some? then Extraction(Blind(rest).out, {Spelled(a).value} + Blind(rest).globals)
            else Extraction([a] + Blind(rest).out, Blind(rest).globals)
  {
    assert ([a] + rest)[1..] == rest;
  }

  lemma {:induction false} BlindJoined(before: seq<string>, after: seq<string>)
    requires "--" !in before && (after == [] || after[0] == "--")
    ensures Blind(before + after) == Extraction(Blind(before).out + after, Blind(before).globals)
  {
    if before == [] {
      assert before + after == after;
    } else {
      hide Spelled, Blind;
      var a, rest := before[0], before[1..];
      BlindJoined(rest, after);
      BlindStep(a, rest + after);
      BlindStep(a, rest);
      assert before + after == [a] + (rest + after) && before == [a] + rest;
    }
  }

  lemma {:induction false} BlindKeeps(args: seq<string>, a: string)
    requires "--" !in args
    ensures a in Blind(args).out <==> a in args && Spelled(a).None?
  {
    if args != [] {
      hide Spelled, Blind;
      BlindKeeps(args[1..], a);
      BlindStep(args[0], args[1..]);
      assert args == [args[0]] + args[1..];
    }
  }

  lemma {:induction false} BlindFinds(args: seq<string>, f: Global)
    requires "--" !in args
    ensures f in Blind(args).globals <==> exists a :: a in args && Spelled(a) == Some(f)
  {
    if args != [] {
      hide Spelled, Blind;
      BlindFinds(args[1..], f);
      BlindStep(args[0], args[1..]);
      assert args == [args[0]] + args[1..];
    }
  }

  /** Before the first "--" the blind pass drops exactly the reserved spellings; from "--" on it keeps everything. */
  lemma BlindKeepsFromDashes(before: seq<string>, after: seq<string>)
    requires "--" !in before && (after == [] || after[0] == "--")
    ensures Blind(before + after).out == Blind(before).out + after
    ensures forall a :: a in Blind(before).out <==> a in before && Spelled(a).None?
    ensures forall f :: f in Blind(before + after).globals <==> exists a :: a in before && Spelled(a) == Some(f)
  {
    hide Spelled, Blind;
    BlindJoined(before, after);
    forall a ensures a in Blind(before).out <==> a in before && Spelled(a).None? { BlindKeeps(before, a); }
    forall f ensures f in Blind(before).globals <==> exists a :: a in before && Spelled(a) == Some(f) {
      BlindFinds(before, f);
    }
  }

  /** A reserved spelling reads as a flag of a reserved name, without a value of its own. */
  lemma SpellingsAreReserved(a: string)
    requires Spelled(a).Some?
    ensures ParseFlagToken(a).FlagNamed? && ParseFlagToken(a).name in RESERVED_NAMES
  {
    if a == "-h" {
      assert a[1..] == "h";
    } else {
      var t := a[2..];
      assert t in ["json", "quiet", "verbose", "no-color", "help", "version"];
      assert '=' !in t;
    }
  }

  /** No token of these would be taken out as a global flag: before a "--", only values are spelled like one. */
  predicate NothingTaken(args: seq<string>, valueFlags: set<string>) {
    args == [] || args[0] == "--"
    || if TakesValue(args[0], valueFlags) then |args| == 1 || NothingTaken(args[2..], valueFlags)
       else Spelled(args[0]).None? && NothingTaken(args[1..], valueFlags)
  }

  /**
   No value looks like a global flag, nor like the end of the flags with a global flag behind it: of the values
   before the first "--", none is spelled like a global flag, and one that is "--" has nothing after it to be
   taken out.
   */
  predicate NoValueMistaken(args: seq<string>, valueFlags: set<string>) {
    args == [] || args[0] == "--"
    || if !TakesValue(args[0], valueFlags) then NoValueMistaken(args[1..], valueFlags)
       else |args| == 1 || if args[1] == "--" then NothingTaken(args[2..], valueFlags)
                           else Spelled(args[1]).None? && NoValueMistaken(args[2..], valueFlags)
  }

  lemma {:induction false} AwareNoLonger(args: seq<string>, valueFlags: set<string>)
    ensures |Aware(args, valueFlags).out| <= |args|
    decreases |args|
  {
    hide TakesValue, Spelled;
    if args != [] && args[0] != "--" {
      AwareNoLonger(args[1..], valueFlags);
      if |args| > 1 {
        AwareNoLonger(args[2..], valueFlags);
      }
    }
  }

  lemma {:induction false} NothingTakenIff(args: seq<string>, valueFlags: set<string>)
    ensures Aware(args, valueFlags).out == args <==> NothingTaken(args, valueFlags)
    decreases |args|
  {
    hide TakesValue, Spelled;
    if args == [] || args[0] == "--" {
    } else if TakesValue(args[0], valueFlags) {
      if |args| > 1 {
        NothingTakenIff(args[2..], valueFlags);
        var rest := Aware(args[2..], valueFlags).out;
        assert args == [args[0], args[1]] + args[2..];
        assert ([args[0], args[1]] + rest)[2..] == rest;
      }
    } else {
      NothingTakenIff(args[1..], valueFlags);
      AwareNoLonger(args[1..], valueFlags);
      var rest := Aware(args[1..], valueFlags).out;
      assert args == [args[0]] + args[1..];
      assert ([args[0]] + rest)[1..] == rest;
    }
  }

  lemma {:induction false} BlindHead(args: seq<string>)
    ensures Blind(args).out != [] ==> Spelled(Blind(args).out[0]).None?
  {
    if args != [] && args[0] != "--" {
      BlindHead(args[1..]);
    }
  }

  lemma ValueFlagKept(a: string, valueFlags: set<string>)
    requires TakesValue(a, valueFlags) && valueFlags !! RESERVED_NAMES
    ensures Spelled(a).None?
  {
    hide ParseFlagToken;
    if Spelled(a).Some? {
      SpellingsAreReserved(a);
    }
  }

  /** The two passes leave the same tokens exactly when no value was mistaken for a global flag. */
  lemma {:induction false} PassesAgreeIff(args: seq<string>, valueFlags: set<string>)
    requires valueFlags !! RESERVED_NAMES
    ensures Blind(args).out == Aware(args, valueFlags).out <==> NoValueMistaken(args, valueFlags)
    decreases |args|
  {
    hide TakesValue, Spelled;
    if args == [] || args[0] == "--" {
    } else if TakesValue(args[0], valueFlags) {
      ValueFlagKept(args[0], valueFlags);
      if |args| > 1 {
        assert args[1..][1..] == args[2..];
        PassesAgreeIff(args[2..], valueFlags);
        BlindHead(args[1..]);
        var b, w := Blind(args[1..]).out, [args[1]] + Aware(args[2..], valueFlags).out;
        assert Blind(args).out == [args[0]] + b && Aware(args, valueFlags).out == [args[0]] + w;
        assert Blind(args).out[1..] == b && Aware(args, valueFlags).out[1..] == w;
        assert w[1..] == Aware(args[2..], valueFlags).out;
        if args[1] == "--" {
          NothingTakenIff(args[2..], valueFlags);
          assert b[1..] == args[2..];
          assert b == [args[1]] + args[2..];
        } else if Spelled(args[1]).Some? {
          assert b != w;
        } else {
          assert b == [args[1]] + Blind(args[2..]).out;
          assert b[1..] == Blind(args[2..]).out;
        }
      } else {
        assert Blind(args).out == args;
      }
    } else {
      PassesAgreeIff(args[1..], valueFlags);
      var b, w := Blind(args[1..]).out, Aware(args[1..], valueFlags).out;
      assert ([args[0]] + b)[1..] == b && ([args[0]] + w)[1..] == w;
    }
  }
}
