/**
 The project upgrade of internal/upgrade/upgrade.go and apply.go over a project tree held as a map from path to
 content. What the generator renders and how the recipe is encoded are parameters with the laws their packages keep.
 */
module Upgrades {
  import opened Wrappers
  import opened Migrations
  import opened Dependencies
  import opened ProjectPaths
  import opened Sorting

  type Tree = map<string, string>

  const RECIPE := "nise.json"

  datatype Owner = OwnerNise | OwnerApp

  datatype File = File(path: string, content: string, owner: Owner)

  /** The project recipe; the selected modules are a set, since the recipe's encoding sorts them. */
  datatype Recipe = Recipe(profile: string, modules: set<string>, cliVersion: string, runtimeVersion: string)

  datatype Action = Update | Create | Remove

  datatype FileChange = FileChange(path: string, action: Action)

  datatype CodemodChange = CodemodChange(path: string, describe: string, occurrences: nat)

  datatype Note =
    | AheadNote(ahead: Ahead)
    | GapNote(gap: string, to: string)
    | SummaryNote(from_: string, to: string, summary: string)
    | MigrationNote(text: string)
    | DisabledNote(describe: string, old_: string, new_: string)

  datatype Report = Report(cliFrom: string, cliTo: string, runtimeFrom: string, runtimeTo: string, upToDate: bool,
                           files: seq<FileChange>, dependencies: seq<RequireChange>, codemods: seq<CodemodChange>,
                           notes: seq<Note>)

  datatype UpgradeError = NoRecipe | BadRecipe | CannotPlan

  datatype Options = Options(cliVersion: string, runtimeVersion: string, codemods: bool, migrations: seq<Migration>)

  /**
   What this package takes from the generator and the recipe package. Rendering sees the tree only for the
   project's name.
   */
  datatype Generator = Generator(
    render: (Tree, Recipe) -> Option<seq<File>>,
    marshal: Recipe -> Option<string>,
    unmarshal: string -> Option<Recipe>,
    pins: Manifest -> seq<Dependency>,
    moduleVersion: string)

  predicate IsGoFile(path: string) {
    |path| >= 3 && path[|path| - 3..] == ".go"
  }

  lemma GoFilesMean(path: string)
    ensures IsGoFile(path) <==> exists stem :: path == stem + ".go"
  {
    if IsGoFile(path) {
      assert path == path[..|path| - 3] + ".go";
    }
  }

  function ManifestPath(kind: Manifest): (path: string)
    ensures !IsGoFile(path) && path != RECIPE
  {
    match kind
    case GoMod =>
      assert "go.mod"[|"go.mod"| - 1] == 'd';
      "go.mod"
    case PackageJSON =>
      assert "frontend/package.json"[|"frontend/package.json"| - 1] == 'n';
      "frontend/package.json"
  }

  predicate IsNisePath(planned: seq<File>, path: string) {
    exists f :: f in planned && f.owner == OwnerNise && f.path == path
  }

  predicate UniquePaths(planned: seq<File>) {
    forall i, j :: 0 <= i < j < |planned| ==> planned[i].path != planned[j].path
  }

  /**
   A rendered plan names each path once, holds the recipe among the Nise-owned files, and leaves both manifests
   to the application.
   */
  ghost predicate LawfulPlan(g: Generator, r: Recipe, planned: seq<File>) {
    UniquePaths(planned)
    && (exists f :: f in planned && f.owner == OwnerNise && f.path == RECIPE && g.marshal(r) == Some(f.content))
    && forall kind :: !IsNisePath(planned, ManifestPath(kind))
  }

  /** The Nise-owned half of a plan does not depend on the project it is rendered for. */
  ghost predicate SameNiseFiles(planned: seq<File>, planned': seq<File>) {
    forall f: File :: f.owner == OwnerNise ==> (f in planned <==> f in planned')
  }

  ghost predicate Lawful(g: Generator) {
    (forall t, r :: g.render(t, r).Some? ==> LawfulPlan(g, r, g.render(t, r).value))
    && (forall t, t', r :: g.render(t, r).Some? ==>
          g.render(t', r).Some? && SameNiseFiles(g.render(t, r).value, g.render(t', r).value))
    && (forall r :: g.marshal(r).Some? ==> g.unmarshal(g.marshal(r).value) == Some(r))
    && (forall kind :: GoodPins(kind, Wanted(g.pins(kind))))
  }

  // ---- planning

  function RecipeOf(tree: Tree, g: Generator): Result<Recipe, UpgradeError> {
    if RECIPE !in tree then Err(NoRecipe)
    else match g.unmarshal(tree[RECIPE]) case None => Err(BadRecipe) case Some(r) => Ok(r)
  }

  function RuntimeVersion(g: Generator, opts: Options): string {
    if opts.runtimeVersion == "" then g.moduleVersion else opts.runtimeVersion
  }

  function Target(current: Recipe, g: Generator, opts: Options): Recipe {
    current.(cliVersion := opts.cliVersion, runtimeVersion := RuntimeVersion(g, opts))
  }

  /** What one planned file calls for: nothing if the application owns it or it is on disk already. */
  function FileChangeOf(tree: Tree, f: File): seq<FileChange> {
    if f.owner != OwnerNise then []
    else if f.path !in tree then [FileChange(f.path, Create)]
    else if tree[f.path] != f.content then [FileChange(f.path, Update)]
    else []
  }

  function WritesOf(tree: Tree, planned: seq<File>): seq<FileChange> {
    if planned == [] then []
    else WritesOf(tree, planned[..|planned| - 1]) + FileChangeOf(tree, planned[|planned| - 1])
  }

  predicate Removes(tree: Tree, planned: seq<File>, candidate: string) {
    !IsNisePath(planned, candidate) && InsideProject(candidate) && candidate in tree
  }

  function RemovalsOf(tree: Tree, planned: seq<File>, removed: seq<string>): seq<FileChange> {
    if removed == [] then []
    else
      var last := removed[|removed| - 1];
      RemovalsOf(tree, planned, removed[..|removed| - 1])
      + if Removes(tree, planned, last) then [FileChange(last, Remove)] else []
  }

  predicate PathLess(a: FileChange, b: FileChange) {
    LexLess(CharRank, a.path, b.path)
  }

  /** The changes to Nise-owned files in path order. */
  function FileChangesOf(tree: Tree, planned: seq<File>, removed: seq<string>): seq<FileChange> {
    SortBy(PathLess, WritesOf(tree, planned) + RemovalsOf(tree, planned, removed))
  }

  function DeclaredRemovals(chain: seq<Migration>): seq<string> {
    if chain == [] then [] else DeclaredRemovals(chain[..|chain| - 1]) + chain[|chain| - 1].removed
  }

  function Mods(chain: seq<Migration>): seq<Codemod> {
    if chain == [] then [] else Mods(chain[..|chain| - 1]) + chain[|chain| - 1].codemods
  }

  ghost predicate ValidMods(mods: seq<Codemod>) {
    forall mod :: mod in mods ==> mod.Valid()
  }

  /** The text after the codemods, each applied to the result of the one before. */
  function Rewritten(mods: seq<Codemod>, text: string): string
    requires ValidMods(mods)
  {
    if mods == [] then text else Substitute(mods[|mods| - 1], Rewritten(mods[..|mods| - 1], text)).0
  }

  /** The codemods that matched, with their counts. */
  function Hits(mods: seq<Codemod>, path: string, text: string): seq<CodemodChange>
    requires ValidMods(mods)
  {
    if mods == [] then []
    else
      var front, last := mods[..|mods| - 1], mods[|mods| - 1];
      var count := Substitute(last, Rewritten(front, text)).1;
      Hits(front, path, text) + if count == 0 then [] else [CodemodChange(path, last.describe, count)]
  }

  predicate Rewritable(f: File) {
    f.owner == OwnerApp && IsGoFile(f.path)
  }

  function HitsIn(tree: Tree, f: File, mods: seq<Codemod>): seq<CodemodChange>
    requires ValidMods(mods)
  {
    if Rewritable(f) && f.path in tree then Hits(mods, f.path, tree[f.path]) else []
  }

  /** The matches file by file, each file's in the order its codemods run. */
  function FoundOf(tree: Tree, planned: seq<File>, mods: seq<Codemod>): seq<CodemodChange>
    requires ValidMods(mods)
  {
    if planned == [] then []
    else FoundOf(tree, planned[..|planned| - 1], mods) + HitsIn(tree, planned[|planned| - 1], mods)
  }

  predicate HitLess(a: CodemodChange, b: CodemodChange) {
    if a.path != b.path then LexLess(CharRank, a.path, b.path) else LexLess(CharRank, a.describe, b.describe)
  }

  /** The matches as they are reported: by path, then by description. */
  function CodemodsOf(tree: Tree, planned: seq<File>, mods: seq<Codemod>): seq<CodemodChange>
    requires ValidMods(mods)
  {
    SortBy(HitLess, FoundOf(tree, planned, mods))
  }

  function ManifestChanges(tree: Tree, g: Generator, kind: Manifest): seq<RequireChange> {
    if ManifestPath(kind) in tree then ChangesOf(kind, tree[ManifestPath(kind)], Wanted(g.pins(kind))) else []
  }

  function DependenciesOf(tree: Tree, g: Generator): seq<RequireChange> {
    ManifestChanges(tree, g, GoMod) + ManifestChanges(tree, g, PackageJSON)
  }

  // ---- the steps of an upgrade, on the tree

  function WrittenOne(tree: Tree, change: FileChange, planned: map<string, File>): Tree {
    if change.action == Remove then tree - {change.path}
    else if change.path in planned then tree[change.path := planned[change.path].content]
    else tree
  }

  function Written(tree: Tree, changes: seq<FileChange>, planned: map<string, File>): Tree {
    if changes == [] then tree
    else WrittenOne(Written(tree, changes[..|changes| - 1], planned), changes[|changes| - 1], planned)
  }

  function CodemoddedOne(tree: Tree, f: File, mods: seq<Codemod>): Tree
    requires ValidMods(mods)
  {
    if HitsIn(tree, f, mods) == [] then tree else tree[f.path := Rewritten(mods, tree[f.path])]
  }

  function Codemodded(tree: Tree, planned: seq<File>, mods: seq<Codemod>): Tree
    requires ValidMods(mods)
  {
    if planned == [] then tree
    else CodemoddedOne(Codemodded(tree, planned[..|planned| - 1], mods), planned[|planned| - 1], mods)
  }

  function BumpedManifest(tree: Tree, g: Generator, kind: Manifest): Tree {
    if ManifestChanges(tree, g, kind) == [] then tree
    else tree[ManifestPath(kind) := Bumped(kind, tree[ManifestPath(kind)], Wanted(g.pins(kind)))]
  }

  function BumpedManifests(tree: Tree, g: Generator): Tree {
    BumpedManifest(BumpedManifest(tree, g, GoMod), g, PackageJSON)
  }

  function ByPath(planned: seq<File>): map<string, File> {
    if planned == [] then map[]
    else ByPath(planned[..|planned| - 1])[planned[|planned| - 1].path := planned[|planned| - 1]]
  }

  // ---- the order of a report's lists

  lemma LexWeak(x: string, y: string, z: string)
    ensures !LexLess(CharRank, x, x)
    ensures LexLess(CharRank, x, y) && LexLess(CharRank, y, z) ==> LexLess(CharRank, x, z)
    ensures LexLess(CharRank, x, z) ==> LexLess(CharRank, x, y) || LexLess(CharRank, y, z)
    ensures LexLess(CharRank, x, y) ==> !LexLess(CharRank, y, x)
    ensures x == y || LexLess(CharRank, x, y) || LexLess(CharRank, y, x)
  {
    hide LexLess;
    LexIrreflexive(CharRank, x);
    LexTotal(CharRank, x, y);
    LexTotal(CharRank, y, z);
    if LexLess(CharRank, x, y) && LexLess(CharRank, y, z) { LexTransitive(CharRank, x, y, z); }
    if LexLess(CharRank, y, x) && LexLess(CharRank, x, z) { LexTransitive(CharRank, y, x, z); }
    if LexLess(CharRank, x, y) && LexLess(CharRank, y, x) { LexTransitive(CharRank, x, y, x); }
  }

  lemma PathLessWeak()
    ensures StrictWeak(PathLess)
  {
    forall x, y, z
      ensures !PathLess(x, x) && (PathLess(x, y) && PathLess(y, z) ==> PathLess(x, z))
      ensures PathLess(x, z) ==> PathLess(x, y) || PathLess(y, z)
    {
      LexWeak(x.path, y.path, z.path);
    }
  }

  lemma HitLessWeak()
    ensures StrictWeak(HitLess)
  {
    hide LexLess;
    forall x, y, z
      ensures !HitLess(x, x) && (HitLess(x, y) && HitLess(y, z) ==> HitLess(x, z))
      ensures HitLess(x, z) ==> HitLess(x, y) || HitLess(y, z)
    {
      LexWeak(x.path, y.path, z.path);
      LexWeak(y.path, x.path, z.path);
      LexWeak(x.path, z.path, y.path);
      LexWeak(x.describe, y.describe, z.describe);
    }
  }

  /** A report lists what was found, each match once for each time it was found, in order. */
  lemma ReportsInOrder(tree: Tree, planned: seq<File>, removed: seq<string>, mods: seq<Codemod>)
    requires ValidMods(mods)
    ensures var files := FileChangesOf(tree, planned, removed);
            && Ordered(PathLess, files)
            && multiset(files) == multiset(WritesOf(tree, planned) + RemovalsOf(tree, planned, removed))
    ensures var codemods := CodemodsOf(tree, planned, mods);
            Ordered(HitLess, codemods) && multiset(codemods) == multiset(FoundOf(tree, planned, mods))
    ensures forall c :: c in CodemodsOf(tree, planned, mods) <==> c in FoundOf(tree, planned, mods)
  {
    PathLessWeak();
    HitLessWeak();
    SortBySorts(PathLess, WritesOf(tree, planned) + RemovalsOf(tree, planned, removed));
    SortBySorts(HitLess, FoundOf(tree, planned, mods));
  }

  // ---- the tree after each step, path by path

  lemma {:induction false} ByPathHas(planned: seq<File>, path: string)
    requires UniquePaths(planned)
    ensures path in ByPath(planned) <==> exists f :: f in planned && f.path == path
    ensures path in ByPath(planned) ==> ByPath(planned)[path] in planned && ByPath(planned)[path].path == path
    ensures forall f :: f in planned && f.path == path ==> path in ByPath(planned) && ByPath(planned)[path] == f
  {
    if planned != [] {
      var front, last := planned[..|planned| - 1], planned[|planned| - 1];
      ByPathHas(front, path);
      assert planned == front + [last];
    }
  }

  lemma {:induction false} WritesMean(tree: Tree, planned: seq<File>, c: FileChange)
    ensures c in WritesOf(tree, planned) <==> exists f :: f in planned && c in FileChangeOf(tree, f)
  {
    if planned != [] {
      var front, last := planned[..|planned| - 1], planned[|planned| - 1];
      WritesMean(tree, front, c);
      assert planned == front + [last];
    }
  }

  lemma {:induction false} RemovalsMean(tree: Tree, planned: seq<File>, removed: seq<string>, c: FileChange)
    ensures c in RemovalsOf(tree, planned, removed)
            <==> c.action == Remove && c.path in removed && Removes(tree, planned, c.path)
  {
    hide Removes;
    if removed != [] {
      var front, last := removed[..|removed| - 1], removed[|removed| - 1];
      RemovalsMean(tree, planned, front, c);
      assert removed == front + [last];
    }
  }

  /**
   The change list says exactly this: create a Nise-owned file that is absent, update one whose content differs,
   remove a declared removal that is present, inside the project and no longer planned by Nise.
   */
  lemma FileChangesMean(tree: Tree, planned: seq<File>, removed: seq<string>, c: FileChange)
    ensures c in FileChangesOf(tree, planned, removed) <==>
            match c.action {
              case Create => c.path !in tree && IsNisePath(planned, c.path)
              case Update =>
                c.path in tree
                && exists f :: f in planned && f.owner == OwnerNise && f.path == c.path && tree[c.path] != f.content
              case Remove => c.path in removed && Removes(tree, planned, c.path)
            }
  {
    hide Removes, SortBy;
    WritesMean(tree, planned, c);
    RemovalsMean(tree, planned, removed, c);
    PathLessWeak();
    SortBySorts(PathLess, WritesOf(tree, planned) + RemovalsOf(tree, planned, removed));
  }

  /** Conflict-free changes: no path is both written and removed, and what is written was planned. */
  predicate Consistent(changes: seq<FileChange>, planned: map<string, File>) {
    forall i, j :: 0 <= i < |changes| && 0 <= j < |changes| && changes[i].path == changes[j].path ==>
      && (changes[i].action == Remove <==> changes[j].action == Remove)
      && (changes[i].action != Remove ==> changes[i].path in planned)
  }

  function Held(tree: Tree, path: string): Option<string> {
    if path in tree then Some(tree[path]) else None
  }

  /** What one path holds after writing: its planned content, nothing, or what it held before. */
  function AfterWriting(tree: Tree, changes: seq<FileChange>, planned: map<string, File>,
                        path: string): Option<string> {
    if FileChange(path, Remove) in changes then None
    else if (FileChange(path, Create) in changes || FileChange(path, Update) in changes) && path in planned then
      Some(planned[path].content)
    else Held(tree, path)
  }

  lemma LastDecides(changes: seq<FileChange>, planned: map<string, File>, path: string)
    requires Consistent(changes, planned) && changes != [] && changes[|changes| - 1].path == path
    ensures changes[|changes| - 1].action == Remove <==> FileChange(path, Remove) in changes
    ensures changes[|changes| - 1].action != Remove ==>
      path in planned && (FileChange(path, Create) in changes || FileChange(path, Update) in changes)
  {
    var last := changes[|changes| - 1];
    if FileChange(path, Remove) in changes {
      var i :| 0 <= i < |changes| && changes[i] == FileChange(path, Remove);
      assert changes[i].path == last.path;
    }
    assert last == FileChange(path, last.action) && last in changes;
  }

  lemma {:induction false} WrittenHolds(tree: Tree, changes: seq<FileChange>, planned: map<string, File>, path: string)
    requires Consistent(changes, planned)
    ensures Held(Written(tree, changes, planned), path) == AfterWriting(tree, changes, planned, path)
  {
    if changes != [] {
      var front, last := changes[..|changes| - 1], changes[|changes| - 1];
      assert Consistent(front, planned);
      WrittenHolds(tree, front, planned, path);
      assert changes == front + [last];
      if last.path == path {
        LastDecides(changes, planned, path);
      } else {
        assert FileChange(path, Remove) != last && FileChange(path, Create) != last && FileChange(path, Update) != last;
      }
    }
  }

  lemma PlannedChangesConsistent(tree: Tree, planned: seq<File>, removed: seq<string>)
    requires UniquePaths(planned)
    ensures Consistent(FileChangesOf(tree, planned, removed), ByPath(planned))
  {
    hide FileChangesOf, ByPath, UniquePaths;
    var changes := FileChangesOf(tree, planned, removed);
    forall i, j | 0 <= i < |changes| && 0 <= j < |changes| && changes[i].path == changes[j].path
      ensures (changes[i].action == Remove <==> changes[j].action == Remove)
      ensures changes[i].action != Remove ==> changes[i].path in ByPath(planned)
    {
      FileChangesMean(tree, planned, removed, changes[i]);
      FileChangesMean(tree, planned, removed, changes[j]);
      ByPathHas(planned, changes[i].path);
    }
  }

  lemma {:induction false} NoHitsNoRewrite(mods: seq<Codemod>, path: string, text: string)
    requires ValidMods(mods)
    ensures Hits(mods, path, text) == [] ==> Rewritten(mods, text) == text
  {
    if mods != [] {
      NoHitsNoRewrite(mods[..|mods| - 1], path, text);
    }
  }

  /** Codemods reach application-owned Go files that exist, and nothing else. */
  lemma {:induction false} CodemoddedHolds(tree: Tree, planned: seq<File>, mods: seq<Codemod>, path: string)
    requires ValidMods(mods) && UniquePaths(planned)
    ensures Held(Codemodded(tree, planned, mods), path) ==
            if path in tree && exists f :: f in planned && f.path == path && Rewritable(f)
            then Some(Rewritten(mods, tree[path])) else Held(tree, path)
  {
    hide Hits, Rewritten, Rewritable;
    if planned != [] {
      var front, last := planned[..|planned| - 1], planned[|planned| - 1];
      CodemoddedHolds(tree, front, mods, path);
      assert planned == front + [last];
      assert forall f :: f in front ==> f.path != last.path;
      if path == last.path && path in tree {
        NoHitsNoRewrite(mods, path, tree[path]);
      }
    }
  }
}
