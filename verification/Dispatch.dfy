/** How internal/cli/dispatch.go turns an argument list into one command and its arguments, in two passes. */
module Dispatch {
  import opened Wrappers
  import opened Commands
  import opened GlobalFlags

  datatype Outcome =
    | QuietAndVerbose
    | VersionAlias(leaf: Command)
    | RootHelp
    | HelpFor(args: seq<string>)
    | UnknownCommand(parentPath: seq<string>, attempted: string, searchedIn: seq<Command>)
    | ReservedCollision(path: seq<string>)
    | CommandHelp(leaf: Command, path: seq<string>)
    | Run(leaf: Command, path: seq<string>, argv: seq<string>, globals: Globals)

  predicate Contradictory(g: Globals) {
    Quiet in g && Verbose in g
  }

  /** What global flags decide by themselves, whatever the command: a contradiction, or the version alias. */
  function Guard(root: seq<Command>, g: Globals): Option<Outcome> {
    if Contradictory(g) then Some(QuietAndVerbose)
    else if Version in g && Help !in g && Find(root, "version").Some? && Find(root, "version").value.hasRun then
      Some(VersionAlias(Find(root, "version").value))
    else None
  }

  /** What the blind pass alone already decides; None when there is a command to look for. */
  function Early(root: seq<Command>, blind: Extraction): Option<Outcome> {
    match Guard(root, blind.globals)
    case Some(outcome) => Some(outcome)
    case None =>
      if blind.out == [] then Some(RootHelp)
      else if blind.out[0] == "help" then Some(HelpFor(blind.out[1..]))
      else None
  }

  /** What is run for a resolved command: the aware pass is adopted only when it found other global flags. */
  function Late(args: seq<string>, leaf: Command, path: seq<string>, remaining: seq<string>): Outcome {
    var blind, aware := Blind(args), Aware(args, ValueFlags(leaf.flags));
    if Collides(leaf.flags) then ReservedCollision(path)
    else if aware.globals != blind.globals && Contradictory(aware.globals) then QuietAndVerbose
    else if Help in aware.globals || !leaf.hasRun then CommandHelp(leaf, path)
    else if aware.globals != blind.globals && |path| <= |aware.out| then
      Run(leaf, path, aware.out[|path|..], aware.globals)
    else Run(leaf, path, remaining, aware.globals)
  }

  function Dispatched(root: seq<Command>, args: seq<string>): Outcome {
    var blind := Blind(args);
    match Early(root, blind)
    case Some(outcome) => outcome
    case None =>
      match Resolve(root, blind.out)
      case Unresolved(parentPath, attempted, searchedIn) => UnknownCommand(parentPath, attempted, searchedIn)
      case Resolved(leaf, path, remaining) => Late(args, leaf, path, remaining)
  }

  /** Two argument lists that lead to the same place in the tree and go on the same way from there. */
  predicate SameWay(cmds: seq<Command>, a: seq<string>, b: seq<string>) {
    var n := |Descend(cmds, a)|;
    Descend(cmds, a) == Descend(cmds, b) && a[..n] == b[..n] && (|a| == n <==> |b| == n) && (|a| > n ==> a[n] == b[n])
  }

  lemma SameWaySelf(cmds: seq<Command>, a: seq<string>)
    ensures SameWay(cmds, a, a)
  {
  }

  /** Two lists that start with the same word which names no command. */
  lemma SameStop(cmds: seq<Command>, word: string, a: seq<string>, b: seq<string>)
    requires Find(cmds, word).None?
    ensures SameWay(cmds, [word] + a, [word] + b)
  {
  }

  lemma SameWayOn(cmds: seq<Command>, word: string, a: seq<string>, b: seq<string>)
    requires Find(cmds, word).Some? ==> SameWay(Find(cmds, word).value.subcommands, a, b)
    ensures SameWay(cmds, [word] + a, [word] + b)
  {
    if Find(cmds, word).Some? {
      hide Find, Descend;
      var below := Find(cmds, word).value.subcommands;
      assert ([word] + a)[1..] == a && ([word] + b)[1..] == b;
      DescendStops([], a);
      DescendStops([], b);
      DescendStep(cmds, [word] + a, 0);
      DescendStep(cmds, [word] + b, 0);
      assert ([word] + a)[0..] == [word] + a && ([word] + b)[0..] == [word] + b;
      var n := |Descend(below, a)|;
      assert ([word] + a)[..n + 1] == [word] + a[..n] && ([word] + b)[..n + 1] == [word] + b[..n];
    } else {
      SameStop(cmds, word, a, b);
    }
  }

  lemma {:induction false} NotACommand(cmds: seq<Command>, word: string)
    requires BareNames(cmds) && word != "" && word[0] == '-'
    ensures Find(cmds, word).None?
  {
    FindMember(cmds, word);
  }

  lemma BareBelow(cmds: seq<Command>, word: string)
    requires BareNames(cmds) && Find(cmds, word).Some?
    ensures BareNames(Find(cmds, word).value.subcommands)
  {
    FindMember(cmds, word);
  }

  lemma ValueFlagDashed(a: string, valueFlags: set<string>)
    requires TakesValue(a, valueFlags)
    ensures a != "" && a[0] == '-'
  {
  }

  lemma SpellingTakesNoValue(a: string, valueFlags: set<string>)
    requires Spelled(a).Some? && valueFlags !! RESERVED_NAMES
    ensures !TakesValue(a, valueFlags)
  {
    hide ParseFlagToken;
    SpellingsAreReserved(a);
  }

  /** Both passes lead the same way, from anywhere in the tree. */
  lemma {:induction false} PassesGoTheSameWay(cmds: seq<Command>, args: seq<string>, valueFlags: set<string>)
    requires BareNames(cmds) && valueFlags !! RESERVED_NAMES
    ensures SameWay(cmds, Blind(args).out, Aware(args, valueFlags).out)
    decreases |args|
  {
    hide TakesValue, Spelled, Find, SameWay, BareNames, Descend;
    if args == [] || args[0] == "--" {
      SameWaySelf(cmds, args);
    } else if Spelled(args[0]).Some? {
      SpellingTakesNoValue(args[0], valueFlags);
      PassesGoTheSameWay(cmds, args[1..], valueFlags);
    } else if TakesValue(args[0], valueFlags) {
      ValueFlagDashed(args[0], valueFlags);
      NotACommand(cmds, args[0]);
      if |args| == 1 {
        assert args == [args[0]] + [];
        SameStop(cmds, args[0], Blind(args[1..]).out, []);
      } else {
        var rest := Aware(args[2..], valueFlags).out;
        assert [args[0], args[1]] + rest == [args[0]] + ([args[1]] + rest);
        SameStop(cmds, args[0], Blind(args[1..]).out, [args[1]] + rest);
      }
    } else {
      if Find(cmds, args[0]).Some? {
        BareBelow(cmds, args[0]);
        PassesGoTheSameWay(Find(cmds, args[0]).value.subcommands, args[1..], valueFlags);
      }
      SameWayOn(cmds, args[0], Blind(args[1..]).out, Aware(args[1..], valueFlags).out);
    }
  }

  /**
   The command is the same in both passes: whatever the blind arguments resolve to, or fail on, the aware ones do too,
   with the same leaf, the same path, and nothing left over in the one exactly when nothing is left over in the other.
   */
  lemma CommandPathAgrees(root: seq<Command>, args: seq<string>, valueFlags: set<string>)
    requires BareNames(root) && valueFlags !! RESERVED_NAMES && Blind(args).out != []
    ensures Aware(args, valueFlags).out != []
    ensures var b, w := Resolve(root, Blind(args).out), Resolve(root, Aware(args, valueFlags).out);
            if b.Resolved? then
              w.Resolved? && w.leaf == b.leaf && w.path == b.path && (w.remaining == [] <==> b.remaining == [])
              && Blind(args).out == b.path + b.remaining && Aware(args, valueFlags).out == b.path + w.remaining
            else w == b
  {
    hide Descend, Blind, Aware, BareNames;
    PassesGoTheSameWay(root, args, valueFlags);
    var a, c := Blind(args).out, Aware(args, valueFlags).out;
    var n := |Descend(root, a)|;
    assert a == a[..n] + a[n..] && c == c[..n] + c[n..];
  }

  lemma NoCollision(flags: map<string, bool>)
    ensures !Collides(flags) ==> ValueFlags(flags) !! RESERVED_NAMES
  {
  }

  /** Dispatches an argument list; the re-resolution after the aware pass never fails. */
  method Execute(root: seq<Command>, args: seq<string>) returns (o: Outcome)
    requires BareNames(root)
    ensures o == Dispatched(root, args)
  {
    hide Blind, Aware, Find, Descend, BareNames, Resolve, ValueFlags;
    var rest, g := ExtractGlobalFlags(args);
    if Contradictory(g) {
      return QuietAndVerbose;
    }
    if Version in g && Help !in g {
      var vc := FindByName(root, "version");
      if vc.Some? && vc.value.hasRun {
        return VersionAlias(vc.value);
      }
    }
    if |rest| == 0 {
      return RootHelp;
    }
    if rest[0] == "help" {
      return HelpFor(rest[1..]);
    }
    var res := ResolveCommand(root, rest);
    if res.Unresolved? {
      return UnknownCommand(res.parentPath, res.attempted, res.searchedIn);
    }
    var collisions := ReservedFlagCollisions(res.leaf.flags);
    if |collisions| > 0 {
      return ReservedCollision(res.path);
    }
    var awareArgs, g2 := ExtractGlobalFlagsAware(args, res.leaf.flags);
    NoCollision(res.leaf.flags);
    CommandPathAgrees(root, args, ValueFlags(res.leaf.flags));
    if g2 != g {
      g := g2;
      if Contradictory(g) {
        return QuietAndVerbose;
      }
      var reResolved := ResolveCommand(root, awareArgs);
      if reResolved.Unresolved? {
        assert false;
      }
      res := reResolved;
    }
    if Help in g || !res.leaf.hasRun {
      return CommandHelp(res.leaf, res.path);
    }
    assert g == Aware(args, ValueFlags(res.leaf.flags)).globals;
    o := Run(res.leaf, res.path, res.remaining, g);
  }

  /**
   The arguments name a command: they do not ask for help, they lead to a leaf, and its flags collide with no
   global one.
   */
  predicate NamesCommand(root: seq<Command>, args: seq<string>) {
    var out := Blind(args).out;
    out != [] && out[0] != "help" && Resolve(root, out).Resolved? && !Collides(Resolve(root, out).leaf.flags)
  }

  /** What the command's own flags make of the arguments. */
  function AwareOf(root: seq<Command>, args: seq<string>): Extraction
    requires NamesCommand(root, args)
  {
    Aware(args, ValueFlags(Resolve(root, Blind(args).out).leaf.flags))
  }

  /** The outcome the arguments call for when every value is left to the flag it belongs to. */
  function Intended(root: seq<Command>, args: seq<string>): Outcome
    requires NamesCommand(root, args)
  {
    var found, aware := Resolve(root, Blind(args).out), AwareOf(root, args);
    match Guard(root, aware.globals)
    case Some(outcome) => outcome
    case None =>
      if Help in aware.globals || !found.leaf.hasRun then CommandHelp(found.leaf, found.path)
      else Run(found.leaf, found.path, if |found.path| <= |aware.out| then aware.out[|found.path|..] else [],
               aware.globals)
  }

  /**
   The global flags found blindly decide as those found with the command's flags known: they decide the same, or they
   decide nothing and the others at most contradict each other, which is looked for again.
   */
  predicate GuardsAgree(root: seq<Command>, blind: Globals, aware: Globals) {
    Guard(root, aware) == Guard(root, blind) || (Guard(root, blind).None? && Contradictory(aware))
  }

  /** The command is run, or would be: no flag asks for anything else. */
  predicate RunsLeaf(root: seq<Command>, leaf: Command, g: Globals) {
    Guard(root, g).None? && Help !in g && leaf.hasRun
  }

  /**
   Every invocation of a command comes out as its arguments call for if and only if the flags found blindly
   decide as the others, and, where the command is run, the two passes found different flags or no value was
   mistaken for a global flag.
   */
  lemma IntendedIff(root: seq<Command>, args: seq<string>)
    requires BareNames(root) && NamesCommand(root, args)
    ensures var leaf := Resolve(root, Blind(args).out).leaf;
            var blind, aware := Blind(args).globals, AwareOf(root, args).globals;
            Dispatched(root, args) == Intended(root, args)
            <==>
            GuardsAgree(root, blind, aware)
            && (RunsLeaf(root, leaf, aware) ==> aware != blind || NoValueMistaken(args, ValueFlags(leaf.flags)))
  {
    hide Blind, Aware, Find, Descend, BareNames, Resolve, ValueFlags, NoValueMistaken, Collides;
    var found := Resolve(root, Blind(args).out);
    var valueFlags := ValueFlags(found.leaf.flags);
    NoCollision(found.leaf.flags);
    CommandPathAgrees(root, args, valueFlags);
    PassesAgreeIff(args, valueFlags);
    var aware := Aware(args, valueFlags);
    assert aware.out[|found.path|..] == Resolve(root, aware.out).remaining;
    assert found.path + found.remaining == Blind(args).out;
  }

  /**
   A command that does run receives exactly the arguments of the aware pass if and only if that pass found other global
   flags than the blind one, or no value of the command's own flags was mistaken for a global flag.
   */
  lemma RunsWithAwareArgumentsIff(root: seq<Command>, args: seq<string>)
    requires BareNames(root) && Dispatched(root, args).Run?
    ensures NamesCommand(root, args)
    ensures var o, aware := Dispatched(root, args), AwareOf(root, args);
            o.globals == aware.globals
            && (o.path + o.argv == aware.out
                <==> aware.globals != Blind(args).globals || NoValueMistaken(args, ValueFlags(o.leaf.flags)))
  {
    hide Blind, Aware, Find, Descend, BareNames, Resolve, ValueFlags, NoValueMistaken, Collides;
    var o := Dispatched(root, args);
    NoCollision(o.leaf.flags);
    CommandPathAgrees(root, args, ValueFlags(o.leaf.flags));
    PassesAgreeIff(args, ValueFlags(o.leaf.flags));
  }

  /** A command none of whose flags takes a value reads the same tokens as the blind pass. */
  lemma {:induction false} NoValuesNoDifference(args: seq<string>)
    ensures Aware(args, {}) == Blind(args)
  {
    hide Spelled;
    if args != [] {
      NoValuesNoDifference(args[1..]);
      assert !TakesValue(args[0], {});
    }
  }

  /** A token of these spells the flag. */
  predicate SpeltIn(tokens: seq<string>, f: Global) {
    exists a :: a in tokens && Spelled(a) == Some(f)
  }

  lemma BlindFlags(before: seq<string>, after: seq<string>)
    requires "--" !in before && (after == [] || after[0] == "--")
    ensures forall f :: f in Blind(before + after).globals <==> SpeltIn(before, f)
  {
    hide Spelled, Blind;
    BlindKeepsFromDashes(before, after);
  }

  lemma FlagsSpelt(tokens: seq<string>)
    ensures SpeltIn(tokens, JSON) <==> "--json" in tokens
    ensures SpeltIn(tokens, Quiet) <==> "--quiet" in tokens
    ensures SpeltIn(tokens, Verbose) <==> "--verbose" in tokens
    ensures SpeltIn(tokens, NoColor) <==> "--no-color" in tokens
    ensures SpeltIn(tokens, Help) <==> "--help" in tokens || "-h" in tokens
    ensures SpeltIn(tokens, Version) <==> "--version" in tokens
  {
    hide Spelled;
    forall a: string
      ensures Spelled(a) == Some(JSON) <==> a == "--json"
      ensures Spelled(a) == Some(Quiet) <==> a == "--quiet"
      ensures Spelled(a) == Some(Verbose) <==> a == "--verbose"
      ensures Spelled(a) == Some(NoColor) <==> a == "--no-color"
      ensures Spelled(a) == Some(Help) <==> a == "--help" || a == "-h"
      ensures Spelled(a) == Some(Version) <==> a == "--version"
    {
      SpellingsMean(a);
    }
    SpellingsMean("--json");
    SpellingsMean("--quiet");
    SpellingsMean("--verbose");
    SpellingsMean("--no-color");
    SpellingsMean("--help");
    SpellingsMean("-h");
    SpellingsMean("--version");
  }

  lemma NothingLeftIff(before: seq<string>, after: seq<string>)
    requires "--" !in before && (after == [] || after[0] == "--")
    ensures Blind(before + after).out == [] <==> after == [] && forall a :: a in before ==> Spelled(a).Some?
  {
    hide Spelled, Blind;
    BlindKeepsFromDashes(before, after);
    var out := Blind(before).out;
    if out != [] { assert out[0] in out; }
  }

  /**
   What the tokens before a first "--" bring about. Quiet and verbose together are refused. The version alias,
   where there is such a command, needs "--version" and gives way to either spelling of help. A command without
   value flags runs with exactly the flags spelled, and no flag spelled asks for help.
   */
  lemma OutcomeOfSpellings(root: seq<Command>, before: seq<string>, after: seq<string>)
    requires "--" !in before && (after == [] || after[0] == "--")
    ensures var o := Dispatched(root, before + after);
            var contradictory := "--quiet" in before && "--verbose" in before;
            var help := "--help" in before || "-h" in before;
            var version := Find(root, "version").Some? && Find(root, "version").value.hasRun;
            && (contradictory ==> o == QuietAndVerbose)
            && (!contradictory && "--version" in before && !help && version ==>
                o == VersionAlias(Find(root, "version").value))
            && (o.VersionAlias? ==> "--version" in before && !help)
            && (o.RootHelp? <==> !contradictory && !("--version" in before && !help && version) && after == []
                                 && forall a :: a in before ==> Spelled(a).Some?)
            && (o.Run? && ValueFlags(o.leaf.flags) == {} ==>
                  && !help
                  && (JSON in o.globals <==> "--json" in before) && (Quiet in o.globals <==> "--quiet" in before)
                  && (Verbose in o.globals <==> "--verbose" in before)
                  && (NoColor in o.globals <==> "--no-color" in before))
  {
    var args := before + after;
    assert forall f :: f in Blind(args).globals <==> SpeltIn(before, f) by {
      BlindFlags(before, after);
    }
    hide Spelled, Blind, Find, Resolve, Aware, ValueFlags, Collides, SpeltIn;
    FlagsSpelt(before);
    NothingLeftIff(before, after);
    NoValuesNoDifference(args);
  }

  const GEN := Command("gen", map["name" := false], true, [])

  /** A value spelled like a global flag. */
  const EXAMPLE := ["gen", "--json", "--name", "--json"]

  lemma ExampleFound()
    ensures Find([GEN], "version").None?
    ensures Descend([GEN], ["gen", "--name"]) == Descend([GEN], ["gen", "--name", "--", "--json"]) == [GEN]
  {
    assert Find([GEN], "gen") == Some(GEN);
  }

  lemma ExampleTokens()
    ensures Spelled("gen").None? && Spelled("--json") == Some(JSON) && Spelled("--name").None?
    ensures Spelled("--").None? && !TakesValue("--", {"name"})
    ensures !TakesValue("gen", {"name"}) && !TakesValue("--json", {"name"}) && TakesValue("--name", {"name"})
  {
    hide IndexOf;
    assert "--json"[2..] == "json" && "--name"[2..] == "name";
    assert '=' !in "json" && '=' !in "name";
  }

  lemma BlindLeaves(a: string, rest: seq<string>)
    requires a != "--" && Spelled(a).None?
    ensures Blind([a] + rest) == Extraction([a] + Blind(rest).out, Blind(rest).globals)
  {
    BlindStep(a, rest);
  }

  lemma BlindTakes(a: string, rest: seq<string>, f: Global)
    requires a != "--" && Spelled(a) == Some(f)
    ensures Blind([a] + rest) == Extraction(Blind(rest).out, {f} + Blind(rest).globals)
  {
    BlindStep(a, rest);
  }

  lemma FromDashes()
    ensures Blind(["--", "--json"]) == Extraction(["--", "--json"], {})
  {
  }

  lemma NothingBlind()
    ensures Blind([]) == Extraction([], {})
  {
  }

  lemma BlindOfExample()
    ensures Blind(EXAMPLE) == Extraction(["gen", "--name"], {JSON})
  {
    hide Spelled, Blind, TakesValue;
    ExampleTokens();
    NothingBlind();
    BlindTakes("--json", [], JSON);
    BlindLeaves("--name", ["--json"]);
    BlindTakes("--json", ["--name", "--json"], JSON);
    BlindLeaves("gen", ["--json", "--name", "--json"]);
    assert ["--name"] + [] == ["--name"] && ["gen"] + ["--name"] == ["gen", "--name"];
    assert ["gen"] + ["--json", "--name", "--json"] == EXAMPLE;
    assert ["--json"] + ["--name", "--json"] == ["--json", "--name", "--json"];
    assert ["--name"] + ["--json"] == ["--name", "--json"] && ["--json"] + [] == ["--json"];
  }

  lemma AwareOfExample()
    ensures Aware(EXAMPLE, {"name"}) == Extraction(["gen", "--name", "--json"], {JSON})
  {
    hide Spelled, TakesValue, Aware;
    ExampleTokens();
    NothingToExtract({"name"});
    assert EXAMPLE[0..] == EXAMPLE && EXAMPLE[4..] == [];
    AwareStep(EXAMPLE, 2, {"name"});
    AwareStep(EXAMPLE, 1, {"name"});
    AwareStep(EXAMPLE, 0, {"name"});
  }

  /** With "--json" both as a global flag and as the value of --name, the command loses its value. */
  lemma ValueLost()
    ensures Dispatched([GEN], EXAMPLE) == Run(GEN, ["gen"], ["--name"], {JSON})
    ensures Aware(EXAMPLE, ValueFlags(GEN.flags)).out == ["gen", "--name", "--json"]
  {
    hide Blind, Aware, Descend, Find;
    assert ValueFlags(GEN.flags) == {"name"};
    BlindOfExample();
    AwareOfExample();
    ExampleFound();
    assert !Collides(GEN.flags);
  }

  /** A value "--" in front of a global flag. */
  const DASHES := ["gen", "--json", "--name", "--", "--json"]

  lemma BlindOfDashes()
    ensures Blind(DASHES) == Extraction(["gen", "--name", "--", "--json"], {JSON})
  {
    hide Spelled, Blind, TakesValue;
    ExampleTokens();
    FromDashes();
    BlindLeaves("--name", ["--", "--json"]);
    BlindTakes("--json", ["--name", "--", "--json"], JSON);
    BlindLeaves("gen", ["--json", "--name", "--", "--json"]);
    assert ["gen"] + ["--name", "--", "--json"] == ["gen", "--name", "--", "--json"];
    assert ["gen"] + ["--json", "--name", "--", "--json"] == DASHES;
    assert ["--json"] + ["--name", "--", "--json"] == ["--json", "--name", "--", "--json"];
    assert ["--name"] + ["--", "--json"] == ["--name", "--", "--json"];
  }

  lemma AwareOfDashes()
    ensures Aware(DASHES, {"name"}) == Extraction(["gen", "--name", "--"], {JSON})
  {
    hide Spelled, TakesValue, Aware;
    ExampleTokens();
    NothingToExtract({"name"});
    assert DASHES[0..] == DASHES && DASHES[5..] == [];
    AwareStep(DASHES, 4, {"name"});
    AwareStep(DASHES, 2, {"name"});
    AwareStep(DASHES, 1, {"name"});
    AwareStep(DASHES, 0, {"name"});
  }

  /** With "--" as the value of --name, the command keeps a global flag behind it as an argument of its own. */
  lemma FlagKeptBehindDashes()
    ensures Dispatched([GEN], DASHES) == Run(GEN, ["gen"], ["--name", "--", "--json"], {JSON})
    ensures Aware(DASHES, ValueFlags(GEN.flags)) == Extraction(["gen", "--name", "--"], {JSON})
  {
    hide Blind, Aware, Descend, Find;
    assert ValueFlags(GEN.flags) == {"name"};
    BlindOfDashes();
    AwareOfDashes();
    ExampleFound();
    assert !Collides(GEN.flags);
  }

  const VERSION := Command("version", map[], true, [])

  /** A value spelled like the version flag. */
  const VERSIONED := ["gen", "--name", "--version"]

  lemma VersionTokens()
    ensures Spelled("--version") == Some(Version) && !TakesValue("--version", {"name"})
  {
    hide IndexOf;
    assert "--version"[2..] == "version";
    assert '=' !in "version";
  }

  lemma BlindOfVersioned()
    ensures Blind(VERSIONED) == Extraction(["gen", "--name"], {Version})
  {
    hide Spelled, Blind, TakesValue;
    ExampleTokens();
    VersionTokens();
    NothingBlind();
    BlindTakes("--version", [], Version);
    BlindLeaves("--name", ["--version"]);
    BlindLeaves("gen", ["--name", "--version"]);
    assert ["--name"] + [] == ["--name"] && ["gen"] + ["--name"] == ["gen", "--name"];
    assert ["gen"] + ["--name", "--version"] == VERSIONED;
    assert ["--name"] + ["--version"] == ["--name", "--version"] && ["--version"] + [] == ["--version"];
  }

  lemma AwareOfVersioned()
    ensures Aware(VERSIONED, {"name"}) == Extraction(VERSIONED, {})
  {
    hide Spelled, TakesValue, Aware;
    ExampleTokens();
    NothingToExtract({"name"});
    assert VERSIONED[0..] == VERSIONED && VERSIONED[3..] == [];
    AwareStep(VERSIONED, 1, {"name"});
    AwareStep(VERSIONED, 0, {"name"});
  }

  lemma VersionFound()
    ensures Find([GEN, VERSION], "version") == Some(VERSION) && Descend([GEN, VERSION], ["gen", "--name"]) == [GEN]
  {
    assert Find([VERSION], "version") == Some(VERSION);
    assert [GEN, VERSION][1..] == [VERSION];
    assert Find([GEN, VERSION], "gen") == Some(GEN);
  }

  /** With "--version" as the value of --name, the version is shown and the command never runs. */
  lemma VersionShownInstead()
    ensures Dispatched([GEN, VERSION], VERSIONED) == VersionAlias(VERSION)
    ensures NamesCommand([GEN, VERSION], VERSIONED)
    ensures Intended([GEN, VERSION], VERSIONED) == Run(GEN, ["gen"], ["--name", "--version"], {})
  {
    hide Blind, Aware, Descend, Find;
    assert ValueFlags(GEN.flags) == {"name"};
    BlindOfVersioned();
    AwareOfVersioned();
    VersionFound();
    assert !Collides(GEN.flags);
  }
}
