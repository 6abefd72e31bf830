/** Which declared removals internal/upgrade/upgrade.go accepts as paths inside the project. */
module ProjectPaths {
  import opened Separated
  import opened Replacing

  predicate Normal(part: string) {
    part != "" && part != "." && part != ".."
  }

  /** filepath.Clean's reading of the components of a relative path: '.' and empty ones go, '..' takes one back. */
  function Resolve(parts: seq<string>): seq<string> {
    if parts == [] then []
    else
      var stack := Resolve(parts[..|parts| - 1]);
      var last := parts[|parts| - 1];
      if last == "" || last == "." then stack
      else if last == ".." && stack != [] && stack[|stack| - 1] != ".." then stack[..|stack| - 1]
      else stack + [last]
  }

  /** filepath.Clean of a relative path. */
  function Clean(path: string): string {
    var stack := Resolve(Split('/', path));
    if stack == [] then "." else Join(['/'], stack)
  }

  predicate InsideProject(candidate: string) {
    candidate != "" && candidate[0] != '/'
    && Clean(candidate) == candidate && Clean(candidate) != "." && !StartsWith(Clean(candidate), "../")
  }

  predicate AllNormal(parts: seq<string>) {
    forall i :: 0 <= i < |parts| ==> Normal(parts[i])
  }

  /** What Resolve leaves: names and leading '..'s, all taken from its input. */
  predicate Resolved(stack: seq<string>) {
    forall i :: 0 <= i < |stack| ==>
      stack[i] != "" && stack[i] != "." && (stack[i] == ".." && i > 0 ==> stack[i - 1] == "..")
  }

  lemma {:induction false} ResolveForm(parts: seq<string>)
    requires forall part :: part in parts ==> '/' !in part
    ensures Resolved(Resolve(parts)) && forall part :: part in Resolve(parts) ==> '/' !in part
  {
    if parts != [] {
      ResolveForm(parts[..|parts| - 1]);
    }
  }

  lemma {:induction false} ResolveNormal(parts: seq<string>)
    requires AllNormal(parts)
    ensures Resolve(parts) == parts
  {
    if parts != [] {
      ResolveNormal(parts[..|parts| - 1]);
      assert parts == parts[..|parts| - 1] + [parts[|parts| - 1]];
    }
  }

  lemma {:induction false} NormalFrom(stack: seq<string>, i: nat)
    requires Resolved(stack) && i < |stack| && stack[0] != ".."
    ensures Normal(stack[i])
  {
    if i > 0 {
      NormalFrom(stack, i - 1);
    }
  }

  lemma ParentFirst(path: string)
    requires StartsWith(path, "../")
    ensures Split('/', path)[0] == ".."
  {
    assert path == ".." + ['/'] + path[3..];
    SplitAppend('/', "..", path[3..]);
    SplitFree('/', "..");
  }

  lemma JoinedParent(stack: seq<string>)
    requires |stack| > 1 && stack[0] == ".."
    ensures StartsWith(Join(['/'], stack), "../")
  {
    assert Join(['/'], stack) == ".." + ['/'] + Join(['/'], stack[1..]);
  }

  lemma OnlyParent()
    ensures Clean("..") == ".."
  {
    SplitFree('/', "..");
    assert Resolve([]) == [];
    assert [".."][..0] == [];
    assert Resolve([".."]) == [".."];
  }

  lemma OneParent(stack: seq<string>)
    requires stack == [".."]
    ensures Join(['/'], stack) == ".."
  {
  }

  lemma NormalStart(candidate: string)
    requires AllNormal(Split('/', candidate))
    ensures candidate != "" && candidate[0] != '/' && candidate != "."
  {
    assert Normal(Split('/', candidate)[0]);
    if candidate == "." { SplitFree('/', "."); }
  }

  /**
   The check accepts exactly the plain relative paths, every component a name of its own, and one path more: "..",
   which is outside the project.
   */
  lemma InsideProjectIff(candidate: string)
    ensures InsideProject(candidate) <==> candidate == ".." || AllNormal(Split('/', candidate))
  {
    hide Split, Join, Resolve;
    var parts := Split('/', candidate);
    SplitParts('/', candidate);
    JoinSplit('/', candidate);
    if candidate == ".." {
      OnlyParent();
    } else if AllNormal(parts) {
      ResolveNormal(parts);
      NormalStart(candidate);
      if StartsWith(candidate, "../") { ParentFirst(candidate); }
    } else if InsideProject(candidate) {
      var stack := Resolve(parts);
      ResolveForm(parts);
      SplitJoin('/', stack);
      if stack[0] == ".." {
        if |stack| > 1 { JoinedParent(stack); } else { OneParent(stack); }
      } else {
        forall i | 0 <= i < |stack| ensures Normal(stack[i]) { NormalFrom(stack, i); }
      }
    }
  }
}
