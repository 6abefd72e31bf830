/** The command tree of internal/cli and how resolve.go walks it. */
module Commands {
  import opened Wrappers

  /** A command; flags maps each flag it defines to whether it is boolean, a boolean flag taking no value token. */
  datatype Command = Command(name: string, flags: map<string, bool>, hasRun: bool, subcommands: seq<Command>)

  datatype Resolution =
    | Resolved(leaf: Command, path: seq<string>, remaining: seq<string>)
    | Unresolved(parentPath: seq<string>, attempted: string, searchedIn: seq<Command>)

  function Find(cmds: seq<Command>, name: string): Option<Command> {
    if cmds == [] then None else if cmds[0].name == name then Some(cmds[0]) else Find(cmds[1..], name)
  }

  /** The first command of that name, if any. */
  method FindByName(cmds: seq<Command>, name: string) returns (found: Option<Command>)
    ensures found == Find(cmds, name)
    ensures found.None? ==> forall c :: c in cmds ==> c.name != name
    ensures found.Some? ==> found.value in cmds && found.value.name == name
  {
    for i := 0 to |cmds|
      invariant Find(cmds, name) == Find(cmds[i..], name)
      invariant forall c :: c in cmds[..i] ==> c.name != name
    {
      if cmds[i].name == name {
        return Some(cmds[i]);
      }
      assert cmds[i..][1..] == cmds[i + 1..];
    }
    found := None;
  }

  lemma {:induction false} FindMember(cmds: seq<Command>, name: string)
    ensures Find(cmds, name).Some? ==> Find(cmds, name).value in cmds && Find(cmds, name).value.name == name
  {
    if cmds != [] && cmds[0].name != name {
      FindMember(cmds[1..], name);
    }
  }

  /** The commands the leading arguments name, level by level, until one does not match or has nothing below it. */
  function Descend(cmds: seq<Command>, args: seq<string>): (chain: seq<Command>)
    ensures |chain| <= |args|
    decreases |args|
  {
    if args == [] then []
    else
      match Find(cmds, args[0])
      case None => []
      case Some(c) => [c] + if c.subcommands == [] then [] else Descend(c.subcommands, args[1..])
  }

  function Resolve(cmds: seq<Command>, args: seq<string>): Resolution
    requires args != []
  {
    var chain := Descend(cmds, args);
    if chain == [] then Unresolved([], args[0], cmds)
    else
      var leaf := chain[|chain| - 1];
      var path, remaining := args[..|chain|], args[|chain|..];
      if leaf.subcommands != [] && !leaf.hasRun && remaining != [] then Unresolved(path, remaining[0], leaf.subcommands)
      else Resolved(leaf, path, remaining)
  }

  lemma DescendStops(cmds: seq<Command>, args: seq<string>)
    requires cmds == [] || args == []
    ensures Descend(cmds, args) == []
  {
  }

  lemma DescendStep(cmds: seq<Command>, args: seq<string>, i: nat)
    requires i < |args|
    ensures var c := Find(cmds, args[i]);
            Descend(cmds, args[i..])
            == if c.None? then [] else if c.value.subcommands == [] then [c.value]
              else [c.value] + Descend(c.value.subcommands, args[i + 1..])
  {
    hide Find;
    assert args[i..][1..] == args[i + 1..];
  }

  /** Walks the tree along the arguments. An empty argument list is answered before any resolution. */
  method ResolveCommand(cmds: seq<Command>, args: seq<string>) returns (r: Resolution)
    requires args != []
    ensures r == Resolve(cmds, args)
  {
    hide Find, Descend;
    assert args[0..] == args;
    var cur, path, i := cmds, [], 0;
    var leaf: Option<Command> := None;
    ghost var chain: seq<Command> := [];
    while i < |args|
      invariant 0 <= i <= |args| && |chain| == i && path == args[..i]
      invariant Descend(cmds, args) == chain + Descend(cur, args[i..])
      invariant leaf == if i == 0 then None else Some(chain[i - 1])
      decreases |args| - i
    {
      DescendStep(cur, args, i);
      var next := FindByName(cur, args[i]);
      if next.None? {
        break;
      }
      leaf := next;
      assert args[..i + 1] == args[..i] + [args[i]];
      path := path + [args[i]];
      assert chain + ([next.value] + Descend(next.value.subcommands, args[i + 1..]))
          == (chain + [next.value]) + Descend(next.value.subcommands, args[i + 1..]);
      assert chain + [next.value] == (chain + [next.value]) + [];
      chain := chain + [next.value];
      i := i + 1;
      cur := next.value.subcommands;
      if |cur| == 0 {
        DescendStops(cur, args[i..]);
        break;
      }
    }
    if i == |args| { DescendStops(cur, args[i..]); }
    assert Descend(cmds, args) == chain;
    if leaf.None? {
      return Unresolved([], args[0], cmds);
    }
    var remaining := args[i..];
    if |leaf.value.subcommands| > 0 && !leaf.value.hasRun && |remaining| > 0 {
      return Unresolved(path, remaining[0], leaf.value.subcommands);
    }
    r := Resolved(leaf.value, path, remaining);
  }

  /** Every name in the tree is a bare word: no command can be mistaken for a flag or for "--". */
  predicate BareNames(cmds: seq<Command>) {
    forall c :: c in cmds ==> (c.name == "" || c.name[0] != '-') && BareNames(c.subcommands)
  }

  // ----- where resolution ends -----

  /** The words name a command, each one the first of its name below the one before it. */
  ghost predicate Names(cmds: seq<Command>, path: seq<string>, leaf: Command)
    decreases |path|
  {
    path != [] && Find(cmds, path[0]).Some?
    && var c := Find(cmds, path[0]).value;
       if |path| == 1 then leaf == c else Names(c.subcommands, path[1..], leaf)
  }

  /** Nothing below the command takes the word that follows. */
  ghost predicate EndsAt(leaf: Command, remaining: seq<string>) {
    remaining == [] || leaf.subcommands == [] || Find(leaf.subcommands, remaining[0]).None?
  }

  lemma {:induction false} DescendNames(cmds: seq<Command>, args: seq<string>)
    requires Descend(cmds, args) != []
    ensures var chain := Descend(cmds, args);
            var leaf := chain[|chain| - 1];
            Names(cmds, args[..|chain|], leaf) && EndsAt(leaf, args[|chain|..])
    decreases |args|
  {
    hide Find;
    var chain := Descend(cmds, args);
    var c := Find(cmds, args[0]).value;
    var below := if c.subcommands == [] then [] else Descend(c.subcommands, args[1..]);
    assert chain == [c] + below;
    if below == [] {
      assert args[..1] == [args[0]];
    } else {
      DescendNames(c.subcommands, args[1..]);
      assert args[..|chain|][1..] == args[1..][..|below|] && args[|chain|..] == args[1..][|below|..];
      assert args[..|chain|][0] == args[0];
    }
  }

  lemma NothingBelow(name: string)
    ensures Find([], name).None?
  {
  }

  lemma {:induction false} NamesDescend(cmds: seq<Command>, path: seq<string>, remaining: seq<string>, leaf: Command)
    requires Names(cmds, path, leaf) && EndsAt(leaf, remaining)
    ensures var chain := Descend(cmds, path + remaining);
            path != [] && |chain| == |path| && chain[|chain| - 1] == leaf
    decreases |path|
  {
    hide Find;
    var args := path + remaining;
    var c := Find(cmds, path[0]).value;
    assert args[1..] == path[1..] + remaining && args[0] == path[0];
    if |path| > 1 {
      NothingBelow(path[1]);
      NamesDescend(c.subcommands, path[1..], remaining, leaf);
    } else if remaining != [] && c.subcommands != [] {
      assert args[1..][0] == remaining[0];
    }
  }

  /**
   Resolution ends at the command that the longest run of words names, with the rest as its arguments; it fails exactly
   when the first word names nothing, or when a word follows a command that only groups others and names none of them.
   */
  lemma ResolvedIff(cmds: seq<Command>, args: seq<string>, leaf: Command, path: seq<string>, remaining: seq<string>)
    requires args != []
    ensures Resolve(cmds, args) == Resolved(leaf, path, remaining)
            <==> args == path + remaining && Names(cmds, path, leaf) && EndsAt(leaf, remaining)
                 && (leaf.hasRun || leaf.subcommands == [] || remaining == [])
    ensures Resolve(cmds, args).Unresolved? && Resolve(cmds, args).parentPath == []
            <==> Find(cmds, args[0]).None?
    ensures Resolve(cmds, args) == Unresolved(path, if remaining == [] then "" else remaining[0], leaf.subcommands)
              && path != []
            <== args == path + remaining && Names(cmds, path, leaf) && EndsAt(leaf, remaining)
                && !leaf.hasRun && leaf.subcommands != [] && remaining != []
  {
    hide Find, Names, EndsAt;
    var chain := Descend(cmds, args);
    if chain != [] {
      DescendNames(cmds, args);
      assert args == args[..|chain|] + args[|chain|..];
    }
    if args == path + remaining && Names(cmds, path, leaf) && EndsAt(leaf, remaining) {
      NamesDescend(cmds, path, remaining, leaf);
      assert args[..|path|] == path && args[|path|..] == remaining;
    }
  }
}
