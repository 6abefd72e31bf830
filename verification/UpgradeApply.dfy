/** Plan and Apply of internal/upgrade: the two methods over a project on disk, and what a run of them guarantees. */
module UpgradeApply {
  import opened Wrappers
  import opened Migrations
  import opened Dependencies
  import opened ProjectPaths
  import opened Upgrades
  import opened Sorting

  /** Every codemod of the table names a text to replace. */
  ghost predicate ValidTable(declared: seq<Migration>) {
    forall m :: m in declared ==> ValidMods(m.codemods)
  }

  ghost predicate Proper(g: Generator, opts: Options) {
    Lawful(g) && ValidTable(opts.migrations)
  }

  lemma {:induction false} LinksDeclared(declared: seq<Migration>, at: string)
    ensures at in Links(declared) ==> Links(declared)[at] in declared
  {
    if declared != [] {
      LinksDeclared(declared[..|declared| - 1], at);
    }
  }

  lemma {:induction false} FollowDeclared(declared: seq<Migration>, at: string, end: string, fuel: nat)
    ensures forall m :: m in Follow(Links(declared), at, end, fuel) ==> m in declared
    decreases fuel
  {
    hide Links;
    if !(fuel == 0 || at == end || at !in Links(declared)) {
      LinksDeclared(declared, at);
      FollowDeclared(declared, Links(declared)[at].to, end, fuel - 1);
    }
  }

  lemma {:induction false} ModsValid(chain: seq<Migration>)
    requires forall m :: m in chain ==> ValidMods(m.codemods)
    ensures ValidMods(Mods(chain))
  {
    if chain != [] {
      ModsValid(chain[..|chain| - 1]);
      assert chain[|chain| - 1] in chain;
    }
  }

  function ChainFor(current: Recipe, g: Generator, opts: Options): (chain: seq<Migration>)
    requires ValidTable(opts.migrations)
    ensures ValidMods(Mods(chain))
  {
    var chain := Chain(current.runtimeVersion, RuntimeVersion(g, opts), opts.migrations);
    assert ValidMods(Mods(chain)) by {
      FollowDeclared(opts.migrations, current.runtimeVersion, RuntimeVersion(g, opts), |opts.migrations| + 1);
      ModsValid(chain);
    }
    chain
  }

  function GapNotes(current: Recipe, g: Generator, opts: Options, chain: seq<Migration>): seq<Note> {
    var to := RuntimeVersion(g, opts);
    var reached := End(current.runtimeVersion, chain);
    if reached == to then [] else [GapNote(reached, to)]
  }

  function Texts(texts: seq<string>): seq<Note> {
    seq(|texts|, i requires 0 <= i < |texts| => MigrationNote(texts[i]))
  }

  function NotesOf(m: Migration): seq<Note> {
    (if m.summary == "" then [] else [SummaryNote(m.from_, m.to, m.summary)]) + Texts(m.notes)
  }

  function ChainNotes(chain: seq<Migration>): seq<Note> {
    if chain == [] then [] else ChainNotes(chain[..|chain| - 1]) + NotesOf(chain[|chain| - 1])
  }

  function DisabledNotes(mods: seq<Codemod>): seq<Note> {
    seq(|mods|, i requires 0 <= i < |mods| => DisabledNote(mods[i].describe, mods[i].old_, mods[i].new_))
  }

  function ManifestNotes(tree: Tree, g: Generator, kind: Manifest): seq<Note> {
    if ManifestPath(kind) !in tree then []
    else
      var ahead := AheadNotes(kind, RequiredIn(kind, tree[ManifestPath(kind)]), Wanted(g.pins(kind)));
      seq(|ahead|, i requires 0 <= i < |ahead| => AheadNote(ahead[i]))
  }

  function ReportOf(tree: Tree, g: Generator, opts: Options, current: Recipe, planned: seq<File>): Report
    requires ValidTable(opts.migrations)
  {
    var chain := ChainFor(current, g, opts);
    var files := FileChangesOf(tree, planned, DeclaredRemovals(chain));
    var dependencies := DependenciesOf(tree, g);
    var codemods := if opts.codemods then CodemodsOf(tree, planned, Mods(chain)) else [];
    var notes := ManifestNotes(tree, g, GoMod) + ManifestNotes(tree, g, PackageJSON) + GapNotes(current, g, opts, chain)
               + ChainNotes(chain) + if opts.codemods then [] else DisabledNotes(Mods(chain));
    var upToDate := files == [] && dependencies == [] && codemods == [] && notes == []
      && current.cliVersion == opts.cliVersion;
    Report(current.cliVersion, opts.cliVersion, current.runtimeVersion, RuntimeVersion(g, opts), upToDate,
           files, dependencies, codemods, notes)
  }

  /** The plan as a function of the tree: what Plan returns and Apply carries out. */
  function PlanOf(tree: Tree, g: Generator, opts: Options): Result<Report, UpgradeError>
    requires ValidTable(opts.migrations)
  {
    match RecipeOf(tree, g)
    case Err(e) => Err(e)
    case Ok(current) =>
      match g.render(tree, Target(current, g, opts))
      case None => Err(CannotPlan)
      case Some(planned) => Ok(ReportOf(tree, g, opts, current, planned))
  }

  /** The tree after the Nise-owned files are written. */
  function FirstTree(tree: Tree, g: Generator, opts: Options, current: Recipe, planned: seq<File>): Tree
    requires ValidTable(opts.migrations)
  {
    Written(tree, FileChangesOf(tree, planned, DeclaredRemovals(ChainFor(current, g, opts))), ByPath(planned))
  }

  /** The tree after the codemods. */
  function SecondTree(tree: Tree, g: Generator, opts: Options, current: Recipe, planned: seq<File>): Tree
    requires ValidTable(opts.migrations)
  {
    var first := FirstTree(tree, g, opts, current, planned);
    if opts.codemods then Codemodded(first, planned, Mods(ChainFor(current, g, opts))) else first
  }

  /** The tree a completed upgrade leaves. */
  function AppliedTree(tree: Tree, g: Generator, opts: Options, current: Recipe, planned: seq<File>,
                       recipe: string): Tree
    requires ValidTable(opts.migrations)
  {
    BumpedManifests(SecondTree(tree, g, opts, current, planned), g)[RECIPE := recipe]
  }

  /** The tree a completed upgrade leaves, from the tree it started on. */
  function Upgraded(tree: Tree, g: Generator, opts: Options): Tree
    requires ValidTable(opts.migrations)
    requires RecipeOf(tree, g).Ok?
    requires g.render(tree, Target(RecipeOf(tree, g).value, g, opts)).Some?
    requires g.marshal(Target(RecipeOf(tree, g).value, g, opts)).Some?
  {
    var current := RecipeOf(tree, g).value;
    var target := Target(current, g, opts);
    AppliedTree(tree, g, opts, current, g.render(tree, target).value, g.marshal(target).value)
  }

  lemma Rendered(g: Generator, tree: Tree, r: Recipe)
    requires Lawful(g) && g.render(tree, r).Some?
    ensures LawfulPlan(g, r, g.render(tree, r).value) && UniquePaths(g.render(tree, r).value) && g.marshal(r).Some?
  {
  }

  lemma {:induction false} ModsWithin(chain: seq<Migration>, i: nat)
    requires i <= |chain|
    ensures forall mod :: mod in Mods(chain[..i]) ==> mod in Mods(chain)
    decreases |chain|
  {
    if i == |chain| {
      assert chain[..i] == chain;
    } else {
      ModsWithin(chain[..|chain| - 1], i);
      assert chain[..|chain| - 1][..i] == chain[..i];
    }
  }

  lemma ModsPrefix(chain: seq<Migration>, i: nat)
    requires i < |chain| && ValidMods(Mods(chain))
    ensures Mods(chain[..i + 1]) == Mods(chain[..i]) + chain[i].codemods
    ensures ValidMods(Mods(chain[..i + 1])) && ValidMods(Mods(chain[..i])) && ValidMods(chain[i].codemods)
  {
    assert chain[..i + 1][..i] == chain[..i];
    ModsWithin(chain, i + 1);
  }

  lemma PlanIs(tree: Tree, g: Generator, opts: Options)
    requires ValidTable(opts.migrations)
    ensures RecipeOf(tree, g).Err? ==> PlanOf(tree, g, opts) == Err(RecipeOf(tree, g).error)
    ensures RecipeOf(tree, g).Ok? ==>
              var current := RecipeOf(tree, g).value;
              var plan := g.render(tree, Target(current, g, opts));
              PlanOf(tree, g, opts)
              == if plan.None? then Err(CannotPlan) else Ok(ReportOf(tree, g, opts, current, plan.value))
  {
    hide ReportOf, RecipeOf;
  }

  lemma ReportIs(tree: Tree, g: Generator, opts: Options, current: Recipe, planned: seq<File>, report: Report)
    requires ValidTable(opts.migrations)
    requires var chain := ChainFor(current, g, opts);
             var notes := (ManifestNotes(tree, g, GoMod) + ManifestNotes(tree, g, PackageJSON))
                        + (GapNotes(current, g, opts, chain) + ChainNotes(chain));
             && report.files == FileChangesOf(tree, planned, DeclaredRemovals(chain))
             && report.dependencies == DependenciesOf(tree, g)
             && report.codemods == (if opts.codemods then CodemodsOf(tree, planned, Mods(chain)) else [])
             && report.notes == (if opts.codemods then notes else notes + DisabledNotes(Mods(chain)))
             && report == Report(current.cliVersion, opts.cliVersion, current.runtimeVersion, RuntimeVersion(g, opts),
                                 report.files == [] && report.dependencies == [] && report.codemods == []
                                 && report.notes == []
                                 && current.cliVersion == opts.cliVersion,
                                 report.files, report.dependencies, report.codemods, report.notes)
    ensures report == ReportOf(tree, g, opts, current, planned)
  {
    hide Chain, FileChangesOf, CodemodsOf, Mods, DependenciesOf, ManifestNotes, ChainNotes, GapNotes;
    assert report.notes == ReportOf(tree, g, opts, current, planned).notes;
  }

  lemma NothingPlanned(tree: Tree, planned: seq<File>, removed: seq<string>)
    ensures WritesOf(tree, planned[..0]) == [] && RemovalsOf(tree, planned, removed[..0]) == []
    ensures forall path :: !IsNisePath(planned[..0], path)
  {
  }

  lemma WritesStep(tree: Tree, planned: seq<File>, i: nat)
    requires i < |planned|
    ensures WritesOf(tree, planned[..i + 1]) == WritesOf(tree, planned[..i]) + FileChangeOf(tree, planned[i])
    ensures forall path :: IsNisePath(planned[..i + 1], path) <==>
              IsNisePath(planned[..i], path) || (planned[i].owner == OwnerNise && planned[i].path == path)
  {
    assert planned[..i + 1][..i] == planned[..i];
    assert planned[..i + 1] == planned[..i] + [planned[i]];
    assert forall f :: f in planned[..i + 1] <==> f in planned[..i] || f == planned[i];
    forall path ensures IsNisePath(planned[..i + 1], path) <==>
              IsNisePath(planned[..i], path) || (planned[i].owner == OwnerNise && planned[i].path == path) {
      if planned[i].owner == OwnerNise && planned[i].path == path {
        assert planned[i] in planned[..i + 1];
      } else if IsNisePath(planned[..i], path) {
        var f :| f in planned[..i] && f.owner == OwnerNise && f.path == path;
        assert f in planned[..i + 1];
      }
    }
  }

  lemma RemovalsStep(tree: Tree, planned: seq<File>, removed: seq<string>, i: nat)
    requires i < |removed|
    ensures RemovalsOf(tree, planned, removed[..i + 1]) ==
            RemovalsOf(tree, planned, removed[..i])
            + if Removes(tree, planned, removed[i]) then [FileChange(removed[i], Remove)] else []
  {
    assert removed[..i + 1][..i] == removed[..i];
  }

  lemma NoMods(path: string, source: string)
    ensures ValidMods([]) && Mods([]) == [] && Rewritten([], source) == source && Hits([], path, source) == []
  {
  }

  lemma ValidJoined(a: seq<Codemod>, b: seq<Codemod>)
    requires ValidMods(a) && ValidMods(b)
    ensures forall k :: 0 <= k <= |b| ==> ValidMods(a + b[..k])
    ensures forall k :: 0 <= k < |b| ==> b[k].Valid()
  {
  }

  lemma ModStep(before: seq<Codemod>, mods: seq<Codemod>, j: nat, path: string, source: string)
    requires j < |mods| && ValidMods(before + mods[..j]) && ValidMods(before + mods[..j + 1]) && mods[j].Valid()
    ensures var done := before + mods[..j];
            var hit := Substitute(mods[j], Rewritten(done, source));
            Rewritten(before + mods[..j + 1], source) == hit.0
            && Hits(before + mods[..j + 1], path, source)
               == Hits(done, path, source) + if hit.1 == 0 then [] else [CodemodChange(path, mods[j].describe, hit.1)]
  {
    hide Substitute;
    var longer := before + mods[..j + 1];
    assert longer[..|longer| - 1] == before + mods[..j] && longer[|longer| - 1] == mods[j];
  }

  lemma NoCountNoChange(c: Codemod, text: string)
    requires c.Valid()
    ensures Substitute(c, text).1 == 0 ==> Substitute(c, text).0 == text
  {
  }

  /** A project on disk. */
  class Project {
    var files: Tree

    constructor (files: Tree)
      ensures this.files == files
    {
      this.files := files;
    }

    method PlanFileChanges(planned: seq<File>, removed: seq<string>) returns (changes: seq<FileChange>)
      ensures changes == FileChangesOf(files, planned, removed)
    {
      hide InsideProject, WritesOf, RemovalsOf, IsNisePath, SortBy;
      NothingPlanned(files, planned, removed);
      changes := [];
      var plannedByPath: map<string, File> := map[];
      for i := 0 to |planned|
        invariant changes == WritesOf(files, planned[..i])
        invariant forall path :: path in plannedByPath <==> IsNisePath(planned[..i], path)
      {
        var file := planned[i];
        WritesStep(files, planned, i);
        if file.owner != OwnerNise {
          continue;
        }
        ghost var before := plannedByPath;
        plannedByPath := plannedByPath[file.path := file];
        forall path ensures path in plannedByPath <==> IsNisePath(planned[..i + 1], path) {
          assert path in before <==> IsNisePath(planned[..i], path);
        }
        if file.path !in files {
          changes := changes + [FileChange(file.path, Create)];
        } else if files[file.path] != file.content {
          changes := changes + [FileChange(file.path, Update)];
        }
      }
      assert planned[..|planned|] == planned;
      for i := 0 to |removed|
        invariant changes == WritesOf(files, planned) + RemovalsOf(files, planned, removed[..i])
      {
        var candidate := removed[i];
        RemovalsStep(files, planned, removed, i);
        if candidate in plannedByPath {
          continue;
        }
        if !InsideProject(candidate) {
          continue;
        }
        if candidate in files {
          changes := changes + [FileChange(candidate, Remove)];
        }
      }
      assert removed[..|removed|] == removed;
      changes := SortBy(PathLess, changes);
    }

    /** Runs the codemods of a chain over one text in memory: the text they leave, and where they matched. */
    method Rewrite(path: string, source: string, chain: seq<Migration>) returns (text: string, hits: seq<CodemodChange>)
      requires ValidMods(Mods(chain))
      ensures text == Rewritten(Mods(chain), source) && hits == Hits(Mods(chain), path, source)
    {
      hide Substitute, Rewritten, Hits, Mods, ValidMods;
      NoMods(path, source);
      text, hits := source, [];
      for i := 0 to |chain|
        invariant ValidMods(Mods(chain[..i])) && text == Rewritten(Mods(chain[..i]), source)
        invariant hits == Hits(Mods(chain[..i]), path, source)
      {
        ModsPrefix(chain, i);
        var mods := chain[i].codemods;
        ghost var before := Mods(chain[..i]);
        assert before + mods[..0] == before;
        ValidJoined(before, mods);
        for j := 0 to |mods|
          invariant ValidMods(before + mods[..j])
          invariant text == Rewritten(before + mods[..j], source) && hits == Hits(before + mods[..j], path, source)
        {
          assert before + mods[..j + 1] == before + mods[..j] + [mods[j]];
          ModStep(before, mods, j, path, source);
          var (rewritten, count) := Substitute(mods[j], text);
          NoCountNoChange(mods[j], text);
          if count != 0 {
            text := rewritten;
            hits := hits + [CodemodChange(path, mods[j].describe, count)];
          }
        }
        assert before + mods[..|mods|] == Mods(chain[..i + 1]);
      }
      assert chain[..|chain|] == chain;
    }

    method PlanCodemods(planned: seq<File>, chain: seq<Migration>) returns (changes: seq<CodemodChange>)
      requires ValidMods(Mods(chain))
      ensures changes == CodemodsOf(files, planned, Mods(chain))
    {
      hide Mods, Hits, Rewritten, ValidMods, SortBy;
      changes := [];
      for i := 0 to |planned|
        invariant changes == FoundOf(files, planned[..i], Mods(chain))
      {
        var file := planned[i];
        assert planned[..i + 1][..i] == planned[..i];
        if file.owner != OwnerApp || !IsGoFile(file.path) || file.path !in files {
          continue;
        }
        var _, hits := Rewrite(file.path, files[file.path], chain);
        changes := changes + hits;
      }
      assert planned[..|planned|] == planned;
      changes := SortBy(HitLess, changes);
    }

    method PlanDependencies(g: Generator) returns (changes: seq<RequireChange>, notes: seq<Note>)
      ensures changes == DependenciesOf(files, g)
      ensures notes == ManifestNotes(files, g, GoMod) + ManifestNotes(files, g, PackageJSON)
    {
      hide Wanted, Bumped, ChangesOf, AheadNotes, RequiredIn;
      changes, notes := [], [];
      var manifests := [GoMod, PackageJSON];
      for i := 0 to |manifests|
        invariant changes == if i == 0 then [] else if i == 1 then ManifestChanges(files, g, GoMod)
                             else DependenciesOf(files, g)
        invariant notes == if i == 0 then [] else if i == 1 then ManifestNotes(files, g, GoMod)
                           else ManifestNotes(files, g, GoMod) + ManifestNotes(files, g, PackageJSON)
      {
        var kind := manifests[i];
        if ManifestPath(kind) !in files {
          continue;
        }
        var source := files[ManifestPath(kind)];
        var _, bumped := Bump(kind, source, g.pins(kind));
        var ahead := AheadOfNise(kind, source, g.pins(kind));
        changes := changes + bumped;
        notes := notes + seq(|ahead|, k requires 0 <= k < |ahead| => AheadNote(ahead[k]));
      }
    }

    method PlanNotes(current: Recipe, g: Generator, opts: Options, chain: seq<Migration>, missing: seq<string>)
      returns (notes: seq<Note>)
      requires missing == if End(current.runtimeVersion, chain) == RuntimeVersion(g, opts) then []
                          else [End(current.runtimeVersion, chain)]
      ensures notes == GapNotes(current, g, opts, chain) + ChainNotes(chain)
    {
      notes := [];
      for i := 0 to |missing|
        invariant notes == seq(i, k requires 0 <= k < i => GapNote(missing[k], RuntimeVersion(g, opts)))
      {
        notes := notes + [GapNote(missing[i], RuntimeVersion(g, opts))];
      }
      assert notes == GapNotes(current, g, opts, chain);
      for i := 0 to |chain|
        invariant notes == GapNotes(current, g, opts, chain) + ChainNotes(chain[..i])
      {
        assert chain[..i + 1][..i] == chain[..i];
        if chain[i].summary != "" {
          notes := notes + [SummaryNote(chain[i].from_, chain[i].to, chain[i].summary)];
        }
        notes := notes + Texts(chain[i].notes);
      }
      assert chain[..|chain|] == chain;
    }

    /** Computes the upgrade without writing anything. */
    method Plan(g: Generator, opts: Options) returns (r: Result<Report, UpgradeError>)
      requires Proper(g, opts)
      ensures r == PlanOf(files, g, opts)
    {
      hide Lawful, Chain, FileChangesOf, CodemodsOf, Mods, ValidMods, DependenciesOf, ManifestNotes, ChainNotes,
           GapNotes, PlanOf, ReportOf;
      PlanIs(files, g, opts);
      var recipe := RecipeOf(files, g);
      if recipe.Err? {
        return Err(recipe.error);
      }
      var current := recipe.value;
      var plan := g.render(files, Target(current, g, opts));
      if plan.None? {
        return Err(CannotPlan);
      }
      var planned := plan.value;
      var chain, missing := Path(current.runtimeVersion, RuntimeVersion(g, opts), opts.migrations);
      assert chain == ChainFor(current, g, opts);
      var changes := PlanFileChanges(planned, DeclaredRemovals(chain));
      var dependencies, notes := PlanDependencies(g);
      var chainNotes := PlanNotes(current, g, opts, chain, missing);
      notes := notes + chainNotes;
      var codemods: seq<CodemodChange> := [];
      if opts.codemods {
        codemods := PlanCodemods(planned, chain);
      } else {
        notes := notes + DisabledNotes(Mods(chain));
      }
      var upToDate := changes == [] && dependencies == [] && codemods == [] && notes == []
        && current.cliVersion == opts.cliVersion;
      var report := Report(current.cliVersion, opts.cliVersion, current.runtimeVersion, RuntimeVersion(g, opts),
                           upToDate,
                           changes, dependencies, codemods, notes);
      ReportIs(files, g, opts, current, planned, report);
      r := Ok(report);
    }

    method WriteFiles(changes: seq<FileChange>, planned: map<string, File>)
      requires Consistent(changes, planned)
      modifies this
      ensures files == Written(old(files), changes, planned)
    {
      for i := 0 to |changes|
        invariant files == Written(old(files), changes[..i], planned)
      {
        var change := changes[i];
        assert changes[..i + 1][..i] == changes[..i];
        if change.action == Remove {
          files := files - {change.path};
          continue;
        }
        assert change.path in planned;
        files := files[change.path := planned[change.path].content];
      }
      assert changes[..|changes|] == changes;
    }

    /** Rewrites application-owned Go files where a codemod matches; performed records every match, in order. */
    method ApplyCodemods(planned: seq<File>, chain: seq<Migration>) returns (ghost performed: seq<CodemodChange>)
      requires ValidMods(Mods(chain)) && UniquePaths(planned)
      modifies this
      ensures files == Codemodded(old(files), planned, Mods(chain))
      ensures performed == FoundOf(old(files), planned, Mods(chain))
    {
      hide Mods, Hits, Rewritten, ValidMods;
      performed := [];
      for i := 0 to |planned|
        invariant files == Codemodded(old(files), planned[..i], Mods(chain))
        invariant performed == FoundOf(old(files), planned[..i], Mods(chain))
      {
        var file := planned[i];
        assert planned[..i + 1][..i] == planned[..i];
        CodemoddedHolds(old(files), planned[..i], Mods(chain), file.path);
        assert Held(files, file.path) == Held(old(files), file.path);
        if file.owner != OwnerApp || !IsGoFile(file.path) || file.path !in files {
          continue;
        }
        var text, hits := Rewrite(file.path, files[file.path], chain);
        performed := performed + hits;
        if hits == [] {
          continue;
        }
        files := files[file.path := text];
      }
      assert planned[..|planned|] == planned;
    }

    method ApplyDependencies(g: Generator)
      modifies this
      ensures files == BumpedManifests(old(files), g)
    {
      hide Wanted, Bumped, ChangesOf;
      var manifests := [GoMod, PackageJSON];
      for i := 0 to |manifests|
        invariant files == if i == 0 then old(files) else if i == 1 then BumpedManifest(old(files), g, GoMod)
                           else BumpedManifests(old(files), g)
      {
        var kind := manifests[i];
        if ManifestPath(kind) !in files {
          continue;
        }
        var bumped, changes := Bump(kind, files[ManifestPath(kind)], g.pins(kind));
        if |changes| == 0 {
          continue;
        }
        files := files[ManifestPath(kind) := bumped];
      }
    }

    /**
     Performs the upgrade and returns what it did: nothing when there is nothing to do, and otherwise the planned files,
     then the codemods, then the manifests, then the recipe.
     */
    method Apply(g: Generator, opts: Options) returns (r: Result<Report, UpgradeError>)
      requires Proper(g, opts)
      modifies this
      ensures r == PlanOf(old(files), g, opts)
      ensures r.Err? || r.value.upToDate ==> files == old(files)
      ensures r.Ok? && !r.value.upToDate ==> files == Upgraded(old(files), g, opts)
    {
      hide Lawful, LawfulPlan, Chain, FileChangesOf, CodemodsOf, Mods, ValidMods, Codemodded, Written,
           BumpedManifests, UniquePaths, ByPath;
      var report := Plan(g, opts);
      if report.Err? || report.value.upToDate {
        return report;
      }
      var current := RecipeOf(files, g).value;
      var target := Target(current, g, opts);
      var planned := g.render(files, target).value;
      Rendered(g, files, target);
      PlannedChangesConsistent(files, planned, DeclaredRemovals(ChainFor(current, g, opts)));
      WriteFiles(report.value.files, ByPath(planned));
      if opts.codemods {
        var chain, _ := Path(current.runtimeVersion, target.runtimeVersion, opts.migrations);
        assert chain == ChainFor(current, g, opts);
        var _ := ApplyCodemods(planned, chain);
      }
      ApplyDependencies(g);
      files := files[RECIPE := g.marshal(target).value];
      return report;
    }
  }
}
