/** What an upgrade guarantees: it converges, it changes only what it accounts for, and no version moves backwards. */
module UpgradeTheorems {
  import opened Wrappers
  import opened Migrations
  import opened Versions
  import opened Dependencies
  import opened ProjectPaths
  import opened Upgrades
  import opened UpgradeApply
  import opened Separated
  import opened Sorting
  import opened Replacing

  /** The plan succeeds on the tree, with this recipe and these files. */
  ghost predicate Plans(tree: Tree, g: Generator, opts: Options, current: Recipe, planned: seq<File>) {
    Proper(g, opts) && RecipeOf(tree, g) == Ok(current) && g.render(tree, Target(current, g, opts)) == Some(planned)
  }

  function Removed(g: Generator, opts: Options, current: Recipe): seq<string>
    requires ValidTable(opts.migrations)
  {
    DeclaredRemovals(ChainFor(current, g, opts))
  }

  lemma PlansLawful(tree: Tree, g: Generator, opts: Options, current: Recipe, planned: seq<File>)
    requires Plans(tree, g, opts, current, planned)
    ensures LawfulPlan(g, Target(current, g, opts), planned) && UniquePaths(planned)
    ensures g.marshal(Target(current, g, opts)).Some?
    ensures Consistent(FileChangesOf(tree, planned, Removed(g, opts, current)), ByPath(planned))
  {
    hide LawfulPlan, FileChangesOf, ByPath, Target, ChainFor, UniquePaths;
    Rendered(g, tree, Target(current, g, opts));
    PlannedChangesConsistent(tree, planned, Removed(g, opts, current));
  }

  /** Every Nise-owned file is in place once the files are written. */
  lemma NiseFileWritten(tree: Tree, planned: seq<File>, removed: seq<string>, f: File)
    requires UniquePaths(planned) && f in planned && f.owner == OwnerNise
    ensures Held(Written(tree, FileChangesOf(tree, planned, removed), ByPath(planned)), f.path) == Some(f.content)
  {
    hide FileChangesOf, ByPath, Written, Consistent;
    var changes := FileChangesOf(tree, planned, removed);
    PlannedChangesConsistent(tree, planned, removed);
    WrittenHolds(tree, changes, ByPath(planned), f.path);
    ByPathHas(planned, f.path);
    FileChangesMean(tree, planned, removed, FileChange(f.path, Remove));
    FileChangesMean(tree, planned, removed, FileChange(f.path, Create));
    FileChangesMean(tree, planned, removed, FileChange(f.path, Update));
  }

  /** A path Nise does not plan is removed if that is declared, and otherwise left as it was. */
  lemma OtherPathWritten(tree: Tree, planned: seq<File>, removed: seq<string>, path: string)
    requires UniquePaths(planned) && !IsNisePath(planned, path)
    ensures Held(Written(tree, FileChangesOf(tree, planned, removed), ByPath(planned)), path)
         == if path in removed && InsideProject(path) then None else Held(tree, path)
  {
    hide FileChangesOf, ByPath, Written, Consistent, InsideProject;
    var changes := FileChangesOf(tree, planned, removed);
    PlannedChangesConsistent(tree, planned, removed);
    WrittenHolds(tree, changes, ByPath(planned), path);
    FileChangesMean(tree, planned, removed, FileChange(path, Remove));
    FileChangesMean(tree, planned, removed, FileChange(path, Create));
    FileChangesMean(tree, planned, removed, FileChange(path, Update));
  }

  lemma BumpedManifestHolds(tree: Tree, g: Generator, kind: Manifest, path: string)
    ensures Held(BumpedManifest(tree, g, kind), path)
         == if path == ManifestPath(kind) && path in tree then Some(Bumped(kind, tree[path], Wanted(g.pins(kind))))
            else Held(tree, path)
  {
    hide Bumped, ChangesOf, Wanted;
    if path == ManifestPath(kind) && path in tree && ManifestChanges(tree, g, kind) == [] {
      BumpedUnchanged(kind, tree[path], Wanted(g.pins(kind)));
    }
  }

  lemma ManifestPathsDiffer()
    ensures ManifestPath(GoMod) != ManifestPath(PackageJSON)
  {
    assert |ManifestPath(GoMod)| == 6;
  }

  /** What a manifest path holds after both manifests are bumped. */
  lemma ManifestsHold(tree: Tree, g: Generator, kind: Manifest)
    ensures Held(BumpedManifests(tree, g), ManifestPath(kind))
         == match Held(tree, ManifestPath(kind))
            case None => None
            case Some(text) => Some(Bumped(kind, text, Wanted(g.pins(kind))))
  {
    hide Bumped, Wanted, BumpedManifest, ManifestPath;
    var path := ManifestPath(kind);
    ManifestPathsDiffer();
    var middle := BumpedManifest(tree, g, GoMod);
    BumpedManifestHolds(tree, g, GoMod, path);
    BumpedManifestHolds(middle, g, PackageJSON, path);
  }

  lemma OtherPathsHold(tree: Tree, g: Generator, path: string)
    requires forall kind :: ManifestPath(kind) != path
    ensures Held(BumpedManifests(tree, g), path) == Held(tree, path)
  {
    hide Bumped, Wanted, BumpedManifest, ManifestPath;
    BumpedManifestHolds(tree, g, GoMod, path);
    BumpedManifestHolds(BumpedManifest(tree, g, GoMod), g, PackageJSON, path);
  }

  /** The codemods leave every path alone that is not an application-owned Go file of the plan. */
  lemma SecondTreeHolds(tree: Tree, g: Generator, opts: Options, current: Recipe, planned: seq<File>, path: string)
    requires ValidTable(opts.migrations) && UniquePaths(planned)
    ensures Held(SecondTree(tree, g, opts, current, planned), path) ==
            var first := FirstTree(tree, g, opts, current, planned);
            if opts.codemods && path in first && exists f :: f in planned && f.path == path && Rewritable(f)
            then Some(Rewritten(Mods(ChainFor(current, g, opts)), first[path])) else Held(first, path)
  {
    hide Codemodded, Rewritten, Mods, Chain, Written, FileChangesOf, ByPath, Rewritable, UniquePaths;
    var first := FirstTree(tree, g, opts, current, planned);
    CodemoddedHolds(first, planned, Mods(ChainFor(current, g, opts)), path);
  }

  lemma OnlyFileOfPath(planned: seq<File>, f: File)
    requires UniquePaths(planned) && f in planned
    ensures forall h :: h in planned && h.path == f.path ==> h == f
  {
  }

  lemma RecipeFile(g: Generator, r: Recipe, planned: seq<File>, f: File)
    requires LawfulPlan(g, r, planned) && f in planned && f.path == RECIPE
    ensures g.marshal(r) == Some(f.content)
  {
    OnlyFileOfPath(planned, f);
  }

  /** Each Nise-owned file holds its planned content after the upgrade. */
  lemma NiseFileUpgraded(tree: Tree, g: Generator, opts: Options, current: Recipe, planned: seq<File>, f: File)
    requires Plans(tree, g, opts, current, planned) && f in planned && f.owner == OwnerNise
    ensures g.marshal(Target(current, g, opts)).Some? && Held(Upgraded(tree, g, opts), f.path) == Some(f.content)
  {
    hide Written, FileChangesOf, ByPath, Codemodded, BumpedManifests, Mods, Chain, Lawful, ManifestPath, RecipeOf,
         Target, ValidTable;
    PlansLawful(tree, g, opts, current, planned);
    NiseFileWritten(tree, planned, Removed(g, opts, current), f);
    SecondTreeHolds(tree, g, opts, current, planned, f.path);
    var second := SecondTree(tree, g, opts, current, planned);
    assert Held(second, f.path) == Some(f.content) by {
      OnlyFileOfPath(planned, f);
    }
    forall kind ensures ManifestPath(kind) != f.path {
      assert !IsNisePath(planned, ManifestPath(kind));
    }
    OtherPathsHold(second, g, f.path);
    if f.path == RECIPE {
      RecipeFile(g, Target(current, g, opts), planned, f);
    }
  }

  /** A manifest holds its bumped text after the upgrade, unless a migration declares it removed. */
  lemma ManifestUpgraded(tree: Tree, g: Generator, opts: Options, current: Recipe, planned: seq<File>, kind: Manifest)
    requires Plans(tree, g, opts, current, planned)
    ensures g.marshal(Target(current, g, opts)).Some?
    ensures var path := ManifestPath(kind);
            Held(Upgraded(tree, g, opts), path)
            == if path !in tree || (path in Removed(g, opts, current) && InsideProject(path)) then None
               else Some(Bumped(kind, tree[path], Wanted(g.pins(kind))))
  {
    hide Written, FileChangesOf, ByPath, Codemodded, BumpedManifests, Mods, Chain, Lawful, RecipeOf, Target,
         ValidTable, InsideProject, Bumped, Wanted, Rewritten, ManifestPath;
    var path := ManifestPath(kind);
    PlansLawful(tree, g, opts, current, planned);
    assert !IsNisePath(planned, path);
    OtherPathWritten(tree, planned, Removed(g, opts, current), path);
    SecondTreeHolds(tree, g, opts, current, planned, path);
    ManifestsHold(SecondTree(tree, g, opts, current, planned), g, kind);
  }

  /** The tree Apply leaves when it succeeds: the same tree when there is nothing to do. */
  function After(tree: Tree, g: Generator, opts: Options): Tree
    requires ValidTable(opts.migrations) && PlanOf(tree, g, opts).Ok?
    requires g.marshal(Target(RecipeOf(tree, g).value, g, opts)).Some?
  {
    if PlanOf(tree, g, opts).value.upToDate then tree else Upgraded(tree, g, opts)
  }

  /** A plan that finds nothing to write, move or rewrite. */
  predicate NothingToDo(r: Result<Report, UpgradeError>) {
    r.Ok? && r.value.files == [] && r.value.dependencies == [] && r.value.codemods == []
  }

  lemma {:induction false} NothingFound(tree: Tree, planned: seq<File>)
    ensures FoundOf(tree, planned, []) == []
  {
    if planned != [] {
      NothingFound(tree, planned[..|planned| - 1]);
    }
  }

  lemma NoModsNoHits(tree: Tree, planned: seq<File>)
    ensures CodemodsOf(tree, planned, []) == []
  {
    NothingFound(tree, planned);
  }

  lemma Settled(tree: Tree, g: Generator, opts: Options, current: Recipe)
    requires ValidTable(opts.migrations) && current.runtimeVersion == RuntimeVersion(g, opts)
    ensures ChainFor(current, g, opts) == [] && Removed(g, opts, current) == []
            && Mods(ChainFor(current, g, opts)) == []
  {
    hide Links;
  }

  lemma NoFileChanges(tree: Tree, planned: seq<File>)
    requires forall f :: f in planned && f.owner == OwnerNise ==> Held(tree, f.path) == Some(f.content)
    ensures FileChangesOf(tree, planned, []) == []
  {
    hide FileChangesOf;
    var changes := FileChangesOf(tree, planned, []);
    if changes != [] {
      HeadIn(changes);
      FileChangesMean(tree, planned, [], changes[0]);
    }
  }

  /** The recipe the upgraded project is planned from next time. */
  lemma RecipeUpgraded(tree: Tree, g: Generator, opts: Options, current: Recipe, planned: seq<File>)
    requires Plans(tree, g, opts, current, planned)
    ensures g.marshal(Target(current, g, opts)).Some?
    ensures RecipeOf(Upgraded(tree, g, opts), g) == Ok(Target(current, g, opts))
    ensures Target(Target(current, g, opts), g, opts) == Target(current, g, opts)
  {
    hide Written, FileChangesOf, ByPath, Codemodded, BumpedManifests, Mods, Chain, UniquePaths, SameNiseFiles,
         GoodPins, Wanted;
    PlansLawful(tree, g, opts, current, planned);
  }

  lemma PlannedAgain(tree: Tree, g: Generator, opts: Options, current: Recipe, planned: seq<File>)
    returns (again: seq<File>)
    requires Plans(tree, g, opts, current, planned)
    ensures g.marshal(Target(current, g, opts)).Some?
    ensures g.render(Upgraded(tree, g, opts), Target(current, g, opts)) == Some(again) && SameNiseFiles(planned, again)
  {
    hide Written, FileChangesOf, ByPath, Codemodded, BumpedManifests, Mods, Chain, UniquePaths, SameNiseFiles,
         GoodPins, Wanted, LawfulPlan;
    PlansLawful(tree, g, opts, current, planned);
    again := g.render(Upgraded(tree, g, opts), Target(current, g, opts)).value;
  }

  lemma NoManifestChanges(tree: Tree, g: Generator, opts: Options, current: Recipe, planned: seq<File>, kind: Manifest)
    requires Plans(tree, g, opts, current, planned)
    ensures g.marshal(Target(current, g, opts)).Some? && ManifestChanges(Upgraded(tree, g, opts), g, kind) == []
  {
    hide Upgraded, Bumped, ChangesOf, Wanted, ManifestPath, InsideProject, RecipeOf, Target, GoodPins, Removed,
         LawfulPlan, SameNiseFiles;
    ManifestUpgraded(tree, g, opts, current, planned, kind);
    if ManifestPath(kind) in tree {
      BumpIdempotent(kind, tree[ManifestPath(kind)], Wanted(g.pins(kind)));
    }
  }

  lemma UpToDateMeans(tree: Tree, g: Generator, opts: Options, current: Recipe, planned: seq<File>)
    requires ValidTable(opts.migrations) && ReportOf(tree, g, opts, current, planned).upToDate
    ensures var r := ReportOf(tree, g, opts, current, planned);
            r.files == [] && r.dependencies == [] && r.codemods == []
  {
  }

  lemma SettledReport(tree: Tree, g: Generator, opts: Options, current: Recipe, planned: seq<File>)
    requires ValidTable(opts.migrations) && current == Target(current, g, opts)
    requires FileChangesOf(tree, planned, []) == [] && CodemodsOf(tree, planned, []) == []
    requires ManifestChanges(tree, g, GoMod) == [] && ManifestChanges(tree, g, PackageJSON) == []
    ensures var r := ReportOf(tree, g, opts, current, planned);
            r.files == [] && r.dependencies == [] && r.codemods == []
  {
    hide FileChangesOf, CodemodsOf, ManifestChanges, ChainFor, Mods;
    Settled(tree, g, opts, current);
  }

  /** After an upgrade a fresh plan with the same options succeeds and reports no file, dependency or codemod change. */
  lemma Converges(tree: Tree, g: Generator, opts: Options, current: Recipe, planned: seq<File>)
    requires Plans(tree, g, opts, current, planned)
    ensures PlanOf(tree, g, opts).Ok? && g.marshal(Target(current, g, opts)).Some?
    ensures NothingToDo(PlanOf(After(tree, g, opts), g, opts))
  {
    hide ReportOf, RecipeOf, Target, Lawful, Upgraded, CodemodsOf, FileChangesOf, ManifestChanges, ValidTable,
         LawfulPlan, ChainFor, Mods;
    PlansLawful(tree, g, opts, current, planned);
    if PlanOf(tree, g, opts).value.upToDate {
      UpToDateMeans(tree, g, opts, current, planned);
    } else {
      var target := Target(current, g, opts);
      var after := Upgraded(tree, g, opts);
      RecipeUpgraded(tree, g, opts, current, planned);
      var again := PlannedAgain(tree, g, opts, current, planned);
      forall f | f in again && f.owner == OwnerNise ensures Held(after, f.path) == Some(f.content) {
        assert f in planned;
        NiseFileUpgraded(tree, g, opts, current, planned, f);
      }
      NoFileChanges(after, again);
      NoManifestChanges(tree, g, opts, current, planned, GoMod);
      NoManifestChanges(tree, g, opts, current, planned, PackageJSON);
      NoModsNoHits(after, again);
      SettledReport(after, g, opts, target, again);
    }
  }

  // ---- what an upgrade touches

  /** A file entry the report may carry for this path: Nise's own file, or a declared removal inside the project. */
  ghost predicate FileEntry(planned: seq<File>, removed: seq<string>, report: Report, path: string) {
    exists c :: c in report.files && c.path == path
      && if c.action == Remove then path in removed && InsideProject(path) && !IsNisePath(planned, path)
         else IsNisePath(planned, path)
  }

  ghost predicate CodemodEntry(planned: seq<File>, report: Report, path: string) {
    (exists f :: f in planned && f.path == path && Rewritable(f)) && exists c :: c in report.codemods && c.path == path
  }

  ghost predicate DependencyEntry(report: Report, path: string) {
    exists c :: c in report.dependencies && ManifestPath(c.manifest) == path
  }

  lemma {:induction false} HitsCarryPath(mods: seq<Codemod>, path: string, text: string)
    requires ValidMods(mods)
    ensures forall c :: c in Hits(mods, path, text) ==> c.path == path
  {
    hide Substitute;
    if mods != [] {
      HitsCarryPath(mods[..|mods| - 1], path, text);
    }
  }

  lemma {:induction false} HitsListed(tree: Tree, planned: seq<File>, mods: seq<Codemod>, f: File)
    requires ValidMods(mods) && f in planned
    ensures forall c :: c in HitsIn(tree, f, mods) ==> c in FoundOf(tree, planned, mods)
  {
    hide HitsIn;
    var front, last := planned[..|planned| - 1], planned[|planned| - 1];
    assert planned == front + [last];
    if f in front {
      HitsListed(tree, front, mods, f);
    }
  }

  lemma {:induction false} ChangesCarryKind(kind: Manifest, held: seq<Dependency>, want: map<string, string>)
    ensures forall c :: c in Changes(kind, held, want) ==> c.manifest == kind
  {
    hide Moves;
    if held != [] {
      ChangesCarryKind(kind, held[1..], want);
    }
  }

  lemma UnlistedFileKept(tree: Tree, planned: seq<File>, removed: seq<string>, path: string)
    requires UniquePaths(planned)
    requires forall c :: c in FileChangesOf(tree, planned, removed) ==> c.path != path
    ensures Held(Written(tree, FileChangesOf(tree, planned, removed), ByPath(planned)), path) == Held(tree, path)
  {
    hide FileChangesOf, ByPath, Written, Consistent;
    PlannedChangesConsistent(tree, planned, removed);
    WrittenHolds(tree, FileChangesOf(tree, planned, removed), ByPath(planned), path);
  }

  lemma UnmatchedCodemodKept(tree: Tree, planned: seq<File>, mods: seq<Codemod>, f: File)
    requires ValidMods(mods) && f in planned && Rewritable(f) && f.path in tree
    requires forall c :: c in CodemodsOf(tree, planned, mods) ==> c.path != f.path
    ensures Rewritten(mods, tree[f.path]) == tree[f.path]
  {
    hide CodemodsOf, FoundOf, Rewritten, Hits;
    HitsListed(tree, planned, mods, f);
    ReportsInOrder(tree, planned, [], mods);
    HitsCarryPath(mods, f.path, tree[f.path]);
    var hits := Hits(mods, f.path, tree[f.path]);
    if hits != [] { HeadIn(hits); }
    NoHitsNoRewrite(mods, f.path, tree[f.path]);
  }

  lemma UnlistedManifestKept(tree: Tree, g: Generator, kind: Manifest)
    requires ManifestPath(kind) in tree && forall c :: c in DependenciesOf(tree, g) ==> c.manifest != kind
    ensures Bumped(kind, tree[ManifestPath(kind)], Wanted(g.pins(kind))) == tree[ManifestPath(kind)]
  {
    hide Changes, Bumped, Wanted, ManifestPath, RequiredIn;
    var text, want := tree[ManifestPath(kind)], Wanted(g.pins(kind));
    var changes := ManifestChanges(tree, g, kind);
    ChangesCarryKind(kind, RequiredIn(kind, text), want);
    assert forall c :: c in changes ==> c in DependenciesOf(tree, g);
    if changes != [] { HeadIn(changes); }
    BumpedUnchanged(kind, text, want);
  }

  /** The second tree differs from the first one only where the report lists a file or a matched codemod. */
  lemma UnaccountedKept(tree: Tree, g: Generator, opts: Options, current: Recipe, planned: seq<File>, path: string)
    requires Plans(tree, g, opts, current, planned)
    requires var report := ReportOf(tree, g, opts, current, planned);
             (forall c :: c in report.files ==> c.path != path) && !CodemodEntry(planned, report, path)
    ensures Held(SecondTree(tree, g, opts, current, planned), path) == Held(tree, path)
  {
    hide FileChangesOf, CodemodsOf, Written, ByPath, ChainFor, Codemodded, Mods, Rewritten, Lawful, RecipeOf, Target,
         LawfulPlan, DependenciesOf, ManifestNotes, GapNotes, ChainNotes, UniquePaths, Rewritable;
    PlansLawful(tree, g, opts, current, planned);
    UnlistedFileKept(tree, planned, Removed(g, opts, current), path);
    SecondTreeHolds(tree, g, opts, current, planned, path);
    if opts.codemods && path in tree && exists f :: f in planned && f.path == path && Rewritable(f) {
      var f :| f in planned && f.path == path && Rewritable(f);
      UnmatchedCodemodKept(tree, planned, Mods(ChainFor(current, g, opts)), f);
    }
  }

  lemma ListedFileEntry(tree: Tree, planned: seq<File>, removed: seq<string>, report: Report, c: FileChange)
    requires report.files == FileChangesOf(tree, planned, removed) && c in report.files
    ensures FileEntry(planned, removed, report, c.path)
  {
    hide FileChangesOf, InsideProject;
    FileChangesMean(tree, planned, removed, c);
  }

  /**
   Whatever path an upgrade changes, the report accounts for it: a Nise-owned file or declared removal, an
   application Go file a codemod matched in, a manifest with a version to move, or the recipe.
   */
  lemma ChangesAreAccountedFor(tree: Tree, g: Generator, opts: Options, current: Recipe, planned: seq<File>,
                               path: string)
    requires Plans(tree, g, opts, current, planned)
    ensures g.marshal(Target(current, g, opts)).Some?
    ensures var report := ReportOf(tree, g, opts, current, planned);
            Held(After(tree, g, opts), path) != Held(tree, path) ==>
              FileEntry(planned, Removed(g, opts, current), report, path) || CodemodEntry(planned, report, path)
              || DependencyEntry(report, path) || path == RECIPE
  {
    hide FileChangesOf, CodemodsOf, SecondTree, Target, RecipeOf, Lawful, LawfulPlan, BumpedManifests, ChainFor, Mods,
         Bumped, Wanted, ManifestPath, ManifestNotes, GapNotes, ChainNotes, CodemodEntry, DependenciesOf, UniquePaths,
         ByPath, InsideProject, IsNisePath;
    PlansLawful(tree, g, opts, current, planned);
    PlanIs(tree, g, opts);
    var report := ReportOf(tree, g, opts, current, planned);
    if path != RECIPE && !CodemodEntry(planned, report, path) && !DependencyEntry(report, path) {
      if exists c :: c in report.files && c.path == path {
        var c :| c in report.files && c.path == path;
        ListedFileEntry(tree, planned, Removed(g, opts, current), report, c);
      } else {
        UnaccountedKept(tree, g, opts, current, planned, path);
        var second := SecondTree(tree, g, opts, current, planned);
        if exists kind :: ManifestPath(kind) == path {
          var kind :| ManifestPath(kind) == path;
          ManifestsHold(second, g, kind);
          if path in tree { UnlistedManifestKept(tree, g, kind); }
        } else {
          OtherPathsHold(second, g, path);
        }
      }
    }
  }

  // ---- what the report says besides

  lemma {:induction false} AheadMeans(kind: Manifest, held: seq<Dependency>, want: map<string, string>, a: Ahead)
    ensures a in AheadNotes(kind, held, want)
            <==> a.manifest == kind && Dependency(a.name, a.version) in held && a.name in want
                 && a.pinned == want[a.name] && Newer(a.version, a.pinned)
  {
    hide Parsed, Later;
    if held != [] {
      var front, last := held[..|held| - 1], held[|held| - 1];
      AheadMeans(kind, front, want, a);
      assert held == front + [last];
      NewerIsStrictOrder(last.version, last.version, last.version);
    }
  }

  lemma ManifestNotesMean(tree: Tree, g: Generator, kind: Manifest, n: Note)
    ensures n in ManifestNotes(tree, g, kind)
            <==> n.AheadNote? && ManifestPath(kind) in tree
                 && n.ahead in AheadNotes(kind, RequiredIn(kind, tree[ManifestPath(kind)]), Wanted(g.pins(kind)))
  {
    hide AheadNotes, RequiredIn, Wanted, ManifestPath;
    if ManifestPath(kind) in tree && n.AheadNote? {
      var ahead := AheadNotes(kind, RequiredIn(kind, tree[ManifestPath(kind)]), Wanted(g.pins(kind)));
      if n.ahead in ahead {
        var i :| 0 <= i < |ahead| && ahead[i] == n.ahead;
        assert ManifestNotes(tree, g, kind)[i] == n;
      }
    }
  }

  lemma {:induction false} ChainNotesMean(chain: seq<Migration>, n: Note)
    ensures n in ChainNotes(chain)
            <==> exists m :: m in chain && ((n.SummaryNote? && n == SummaryNote(m.from_, m.to, m.summary)
                                             && n.summary != "")
                                            || (n.MigrationNote? && n.text in m.notes))
  {
    if chain != [] {
      var front, last := chain[..|chain| - 1], chain[|chain| - 1];
      ChainNotesMean(front, n);
      assert chain == front + [last];
      if n.MigrationNote? && n.text in last.notes {
        var i :| 0 <= i < |last.notes| && last.notes[i] == n.text;
        assert Texts(last.notes)[i] == n;
      }
    }
  }

  lemma {:induction false} ModsMean(chain: seq<Migration>, c: Codemod)
    ensures c in Mods(chain) <==> exists m :: m in chain && c in m.codemods
  {
    if chain != [] {
      ModsMean(chain[..|chain| - 1], c);
      assert chain == chain[..|chain| - 1] + [chain[|chain| - 1]];
    }
  }

  lemma DisabledNotesMean(mods: seq<Codemod>, n: Note)
    ensures n in DisabledNotes(mods) <==> n.DisabledNote? && Codemod(n.describe, n.old_, n.new_) in mods
  {
    if n.DisabledNote? && Codemod(n.describe, n.old_, n.new_) in mods {
      var i :| 0 <= i < |mods| && mods[i] == Codemod(n.describe, n.old_, n.new_);
      assert DisabledNotes(mods)[i] == n;
    }
  }

  lemma NotesApart(tree: Tree, g: Generator, opts: Options, current: Recipe, planned: seq<File>, n: Note)
    requires ValidTable(opts.migrations)
    ensures var chain := ChainFor(current, g, opts);
            n in ReportOf(tree, g, opts, current, planned).notes
            <==> n in ManifestNotes(tree, g, GoMod) || n in ManifestNotes(tree, g, PackageJSON)
                 || n in GapNotes(current, g, opts, chain) || n in ChainNotes(chain)
                 || (!opts.codemods && n in DisabledNotes(Mods(chain)))
  {
    hide ChainFor, FileChangesOf, DependenciesOf, CodemodsOf, Mods, ManifestNotes, GapNotes, ChainNotes, DisabledNotes;
  }

  lemma GapMeans(current: Recipe, g: Generator, opts: Options, chain: seq<Migration>, n: Note)
    requires ValidTable(opts.migrations)
    requires Stops(Links(opts.migrations), |opts.migrations|, current.runtimeVersion, RuntimeVersion(g, opts), chain)
    ensures chain == ChainFor(current, g, opts)
    ensures n in GapNotes(current, g, opts, chain)
            <==> !Reachable(Links(opts.migrations), current.runtimeVersion, RuntimeVersion(g, opts))
                 && n == GapNote(End(current.runtimeVersion, chain), RuntimeVersion(g, opts))
  {
    hide Chain, Links, At, IsWalk, Reachable;
    var start, end := current.runtimeVersion, RuntimeVersion(g, opts);
    IsTheChain(start, end, opts.migrations, chain);
    Concluded(start, end, opts.migrations, chain);
  }

  lemma AheadOfKind(tree: Tree, g: Generator, a: Ahead)
    ensures forall kind :: ManifestPath(kind) in tree ==>
              (a in AheadNotes(kind, RequiredIn(kind, tree[ManifestPath(kind)]), Wanted(g.pins(kind)))
               <==> a.manifest == kind && Dependency(a.name, a.version) in RequiredIn(kind, tree[ManifestPath(kind)])
                    && a.name in Wanted(g.pins(kind)) && a.pinned == Wanted(g.pins(kind))[a.name]
                    && Newer(a.version, a.pinned))
  {
    hide AheadNotes, RequiredIn, Wanted, ManifestPath, Newer;
    forall kind | ManifestPath(kind) in tree
      ensures a in AheadNotes(kind, RequiredIn(kind, tree[ManifestPath(kind)]), Wanted(g.pins(kind)))
              <==> a.manifest == kind && Dependency(a.name, a.version) in RequiredIn(kind, tree[ManifestPath(kind)])
                   && a.name in Wanted(g.pins(kind)) && a.pinned == Wanted(g.pins(kind))[a.name]
                   && Newer(a.version, a.pinned)
    {
      AheadMeans(kind, RequiredIn(kind, tree[ManifestPath(kind)]), Wanted(g.pins(kind)), a);
    }
  }

  /**
   A report's notes are exactly these: each requirement held at a later version than nise ships; if the table does not
   lead from the project's version to the target, where the walk along it stopped; what each migration of that walk has
   to say; and, with codemods off, each of its codemods.
   */
  lemma NotesMean(tree: Tree, g: Generator, opts: Options, current: Recipe, planned: seq<File>, chain: seq<Migration>,
                  n: Note)
    requires Plans(tree, g, opts, current, planned)
    requires Stops(Links(opts.migrations), |opts.migrations|, current.runtimeVersion, RuntimeVersion(g, opts), chain)
    ensures n in ReportOf(tree, g, opts, current, planned).notes
            <==> match n {
              case AheadNote(a) =>
                ManifestPath(a.manifest) in tree
                && Dependency(a.name, a.version) in RequiredIn(a.manifest, tree[ManifestPath(a.manifest)])
                && a.name in Wanted(g.pins(a.manifest)) && a.pinned == Wanted(g.pins(a.manifest))[a.name]
                && Newer(a.version, a.pinned)
              case GapNote(gap, to) =>
                !Reachable(Links(opts.migrations), current.runtimeVersion, to)
                && to == (if opts.runtimeVersion == "" then g.moduleVersion else opts.runtimeVersion)
                && gap == End(current.runtimeVersion, chain)
              case SummaryNote(from_, to, summary) =>
                summary != "" && exists m :: m in chain && m.from_ == from_ && m.to == to && m.summary == summary
              case MigrationNote(text) => exists m :: m in chain && text in m.notes
              case DisabledNote(describe, old_, new_) =>
                !opts.codemods && exists m :: m in chain && Codemod(describe, old_, new_) in m.codemods
            }
  {
    hide ReportOf, ManifestNotes, ChainNotes, GapNotes, DisabledNotes, Mods, Stops, Reachable, Links, ChainFor, Lawful,
         RecipeOf, Target, RequiredIn, Wanted, ManifestPath, AheadNotes, Newer;
    GapMeans(current, g, opts, chain, n);
    NotesApart(tree, g, opts, current, planned, n);
    ManifestNotesMean(tree, g, GoMod, n);
    ManifestNotesMean(tree, g, PackageJSON, n);
    ChainNotesMean(chain, n);
    DisabledNotesMean(Mods(chain), n);
    match n {
      case AheadNote(a) =>
        AheadOfKind(tree, g, a);
      case DisabledNote(describe, old_, new_) => ModsMean(chain, Codemod(describe, old_, new_));
      case _ =>
    }
  }

  /** The walk NotesMean speaks of exists, and no other. */
  lemma WalkOfPlan(current: Recipe, g: Generator, opts: Options)
    requires ValidTable(opts.migrations)
    ensures exists chain :: Stops(Links(opts.migrations), |opts.migrations|, current.runtimeVersion,
                                  RuntimeVersion(g, opts), chain)
  {
    hide Stops, Links;
    ChainStops(current.runtimeVersion, RuntimeVersion(g, opts), opts.migrations);
  }

  lemma NoGapElsewhere(tree: Tree, g: Generator, kind: Manifest, chain: seq<Migration>, mods: seq<Codemod>)
    ensures forall n :: n in ManifestNotes(tree, g, kind) || n in ChainNotes(chain) || n in DisabledNotes(mods) ==>
            !n.GapNote?
  {
    hide ManifestNotes, ChainNotes, DisabledNotes;
    forall n | n in ManifestNotes(tree, g, kind) || n in ChainNotes(chain) || n in DisabledNotes(mods)
      ensures !n.GapNote?
    {
      ManifestNotesMean(tree, g, kind, n);
      ChainNotesMean(chain, n);
      DisabledNotesMean(mods, n);
    }
  }

  /** A gap is reported at most once. */
  lemma OneGapNote(tree: Tree, g: Generator, opts: Options, current: Recipe, planned: seq<File>, i: nat, j: nat)
    requires ValidTable(opts.migrations)
    requires var notes := ReportOf(tree, g, opts, current, planned).notes;
             i < |notes| && j < |notes| && notes[i].GapNote? && notes[j].GapNote?
    ensures i == j
  {
    hide ChainFor, FileChangesOf, DependenciesOf, CodemodsOf, Mods, ManifestNotes, ChainNotes, DisabledNotes;
    var chain := ChainFor(current, g, opts);
    NoGapElsewhere(tree, g, GoMod, chain, Mods(chain));
    NoGapElsewhere(tree, g, PackageJSON, chain, Mods(chain));
    var ahead := ManifestNotes(tree, g, GoMod) + ManifestNotes(tree, g, PackageJSON);
    var gap := GapNotes(current, g, opts, chain);
    var rest := ChainNotes(chain) + if opts.codemods then [] else DisabledNotes(Mods(chain));
    var notes := ReportOf(tree, g, opts, current, planned).notes;
    assert notes == ahead + gap + rest;
    forall k | 0 <= k < |ahead| ensures !ahead[k].GapNote? { assert ahead[k] in ahead; }
    forall k | 0 <= k < |rest| ensures !rest[k].GapNote? { assert rest[k] in rest; }
    assert forall k :: |ahead| + |gap| <= k < |notes| ==> notes[k] == rest[k - |ahead| - |gap|];
  }

  /** A gap is reported exactly when the table does not lead to the target version. */
  lemma GapNotedIff(tree: Tree, g: Generator, opts: Options, current: Recipe, planned: seq<File>)
    requires Plans(tree, g, opts, current, planned)
    ensures PlanOf(tree, g, opts) == Ok(ReportOf(tree, g, opts, current, planned))
    ensures (exists n :: n in ReportOf(tree, g, opts, current, planned).notes && n.GapNote?)
            <==> !Reachable(Links(opts.migrations), current.runtimeVersion, RuntimeVersion(g, opts))
  {
    hide ReportOf, Stops, Reachable, Links, ChainFor, Lawful, Newer, RequiredIn, Wanted, ManifestPath;
    var start, end := current.runtimeVersion, RuntimeVersion(g, opts);
    WalkOfPlan(current, g, opts);
    var chain :| Stops(Links(opts.migrations), |opts.migrations|, start, end, chain);
    var report := ReportOf(tree, g, opts, current, planned);
    if exists n :: n in report.notes && n.GapNote? {
      var n :| n in report.notes && n.GapNote?;
      NotesMean(tree, g, opts, current, planned, chain, n);
    }
    NotesMean(tree, g, opts, current, planned, chain, GapNote(End(start, chain), end));
  }

  /** A project is up to date exactly when there is nothing to list and it was last upgraded by this very nise. */
  lemma UpToDateIff(tree: Tree, g: Generator, opts: Options, current: Recipe, planned: seq<File>)
    requires Plans(tree, g, opts, current, planned)
    ensures var r := ReportOf(tree, g, opts, current, planned);
            && (r.upToDate <==> r.files == [] && r.dependencies == [] && r.codemods == [] && r.notes == []
                                && current.cliVersion == opts.cliVersion)
            && r.cliFrom == current.cliVersion && r.cliTo == opts.cliVersion && r.runtimeFrom == current.runtimeVersion
            && r.runtimeTo == if opts.runtimeVersion == "" then g.moduleVersion else opts.runtimeVersion
  {
    hide FileChangesOf, DependenciesOf, CodemodsOf, ManifestNotes, GapNotes, ChainNotes, DisabledNotes, ChainFor;
  }

  // ---- the codemods performed against those reported

  /** The codemod entries whose file the same report does not remove. */
  function Kept(codemods: seq<CodemodChange>, files: seq<FileChange>): (kept: seq<CodemodChange>)
    ensures |kept| <= |codemods|
    ensures forall c :: c in kept ==> c in codemods
  {
    if codemods == [] then []
    else (if FileChange(codemods[0].path, Remove) in files then [] else [codemods[0]]) + Kept(codemods[1..], files)
  }

  lemma KeptStep(x: CodemodChange, s: seq<CodemodChange>, files: seq<FileChange>)
    ensures Kept([x] + s, files) == (if FileChange(x.path, Remove) in files then [] else [x]) + Kept(s, files)
    ensures Kept([], files) == []
  {
    assert ([x] + s)[1..] == s;
  }

  lemma {:induction false} KeptAppend(a: seq<CodemodChange>, b: seq<CodemodChange>, files: seq<FileChange>)
    ensures Kept(a + b, files) == Kept(a, files) + Kept(b, files)
  {
    if a == [] {
      assert a + b == b;
    } else {
      hide Kept;
      KeptAppend(a[1..], b, files);
      KeptStep(a[0], a[1..], files);
      KeptStep(a[0], a[1..] + b, files);
      assert a == [a[0]] + a[1..] && a + b == [a[0]] + (a[1..] + b);
    }
  }

  /** Keeping some entries of an ordered list and placing another one commute. */
  lemma {:induction false} KeptPlaced(x: CodemodChange, s: seq<CodemodChange>, files: seq<FileChange>)
    requires StrictWeak(HitLess) && Ordered(HitLess, s)
    ensures Kept(Place(HitLess, x, s), files)
            == if FileChange(x.path, Remove) in files then Kept(s, files) else Place(HitLess, x, Kept(s, files))
  {
    hide HitLess, Kept;
    if s == [] {
      KeptStep(x, [], files);
      assert [x] + [] == [x];
    } else if HitLess(x, s[0]) {
      KeptStep(x, s, files);
      var kept := Kept(s, files);
      if kept != [] {
        HeadIn(kept);
        assert HitLess(x, kept[0]);
      }
    } else {
      KeptPlaced(x, s[1..], files);
      KeptStep(s[0], Place(HitLess, x, s[1..]), files);
      KeptStep(s[0], s[1..], files);
      assert s == [s[0]] + s[1..];
      var kept := Kept(s[1..], files);
      assert ([s[0]] + kept)[1..] == kept && [] + kept == kept;
      assert [] + Kept(Place(HitLess, x, s[1..]), files) == Kept(Place(HitLess, x, s[1..]), files);
    }
  }

  lemma SortByStep(front: seq<CodemodChange>, last: CodemodChange)
    ensures SortBy(HitLess, front + [last]) == Place(HitLess, last, SortBy(HitLess, front))
  {
    assert (front + [last])[..|front + [last]| - 1] == front;
  }

  lemma KeptLast(front: seq<CodemodChange>, last: CodemodChange, files: seq<FileChange>)
    ensures Kept(front + [last], files)
            == if FileChange(last.path, Remove) in files then Kept(front, files) else Kept(front, files) + [last]
  {
    hide Kept;
    KeptAppend(front, [last], files);
    KeptStep(last, [], files);
    assert [last] + [] == [last] && Kept(front, files) + [] == Kept(front, files);
  }

  lemma SortedOrdered(codemods: seq<CodemodChange>)
    requires StrictWeak(HitLess)
    ensures Ordered(HitLess, SortBy(HitLess, codemods))
  {
    hide HitLess;
    SortBySorts(HitLess, codemods);
  }

  /** Sorting the entries that are kept is keeping some of the sorted ones. */
  lemma {:induction false} KeptSorted(codemods: seq<CodemodChange>, files: seq<FileChange>)
    requires StrictWeak(HitLess)
    ensures Kept(SortBy(HitLess, codemods), files) == SortBy(HitLess, Kept(codemods, files))
  {
    if codemods != [] {
      hide HitLess, StrictWeak, Ordered, Place, Kept, SortBy;
      var front, last := codemods[..|codemods| - 1], codemods[|codemods| - 1];
      assert codemods == front + [last];
      KeptSorted(front, files);
      SortedOrdered(front);
      KeptPlaced(last, SortBy(HitLess, front), files);
      KeptLast(front, last, files);
      SortByStep(front, last);
      SortByStep(Kept(front, files), last);
    }
  }

  lemma {:induction false} KeptSamePath(codemods: seq<CodemodChange>, files: seq<FileChange>, path: string)
    requires forall c :: c in codemods ==> c.path == path
    ensures Kept(codemods, files) == if FileChange(path, Remove) in files then [] else codemods
  {
    if codemods != [] {
      KeptSamePath(codemods[1..], files, path);
      assert codemods == [codemods[0]] + codemods[1..];
    }
  }

  lemma {:induction false} KeptAllIff(codemods: seq<CodemodChange>, files: seq<FileChange>)
    ensures Kept(codemods, files) == codemods <==> forall c :: c in codemods ==> FileChange(c.path, Remove) !in files
  {
    if codemods != [] {
      KeptAllIff(codemods[1..], files);
      assert codemods == [codemods[0]] + codemods[1..];
      if Kept(codemods, files) == codemods {
        assert Kept(codemods, files)[1..] == codemods[1..];
      }
    }
  }

  lemma AppFileNotNise(planned: seq<File>, f: File)
    requires UniquePaths(planned) && f in planned && f.owner == OwnerApp
    ensures !IsNisePath(planned, f.path)
  {
    OnlyFileOfPath(planned, f);
  }

  /** On the tree as written, a file's codemods match as planned, unless the file was removed. */
  lemma HitsAfterWriting(tree: Tree, all: seq<File>, removed: seq<string>, f: File, mods: seq<Codemod>)
    requires ValidMods(mods) && UniquePaths(all) && f in all
    ensures var files := FileChangesOf(tree, all, removed);
            HitsIn(Written(tree, files, ByPath(all)), f, mods) == Kept(HitsIn(tree, f, mods), files)
  {
    hide FileChangesOf, Written, ByPath, Hits, InsideProject, Kept, UniquePaths;
    var files := FileChangesOf(tree, all, removed);
    var hits := HitsIn(tree, f, mods);
    if f.path in tree { HitsCarryPath(mods, f.path, tree[f.path]); }
    KeptSamePath(hits, files, f.path);
    if Rewritable(f) {
      AppFileNotNise(all, f);
      OtherPathWritten(tree, all, removed, f.path);
      FileChangesMean(tree, all, removed, FileChange(f.path, Remove));
    }
  }

  lemma NothingKept(files: seq<FileChange>)
    ensures Kept([], files) == []
  {
  }

  lemma {:induction false} CodemodsAfterWriting(tree: Tree, all: seq<File>, removed: seq<string>, planned: seq<File>,
                                                mods: seq<Codemod>)
    requires ValidMods(mods) && UniquePaths(all) && forall f :: f in planned ==> f in all
    ensures var files := FileChangesOf(tree, all, removed);
            FoundOf(Written(tree, files, ByPath(all)), planned, mods) == Kept(FoundOf(tree, planned, mods), files)
  {
    hide FileChangesOf, Written, ByPath, HitsIn, UniquePaths, Kept;
    var files := FileChangesOf(tree, all, removed);
    NothingKept(files);
    if planned != [] {
      var front, last := planned[..|planned| - 1], planned[|planned| - 1];
      CodemodsAfterWriting(tree, all, removed, front, mods);
      HitsAfterWriting(tree, all, removed, last, mods);
      KeptAppend(FoundOf(tree, front, mods), HitsIn(tree, last, mods), files);
    }
  }

  /**
   The codemods performed, listed as a report lists them, are those reported less those in files the same
   upgrade removed; so the two agree exactly when no reported codemod is in a file the report removes.
   */
  lemma PerformedAgainstReported(tree: Tree, g: Generator, opts: Options, current: Recipe, planned: seq<File>)
    requires Plans(tree, g, opts, current, planned) && opts.codemods
    ensures var report := ReportOf(tree, g, opts, current, planned);
            var performed := FoundOf(FirstTree(tree, g, opts, current, planned), planned,
                                     Mods(ChainFor(current, g, opts)));
            && SortBy(HitLess, performed) == Kept(report.codemods, report.files)
            && (SortBy(HitLess, performed) == report.codemods <==>
                  forall c :: c in report.codemods ==> FileChange(c.path, Remove) !in report.files)
  {
    hide FileChangesOf, FoundOf, Written, ByPath, ChainFor, Mods, Lawful, RecipeOf, Target, LawfulPlan,
         DependenciesOf, ManifestNotes, GapNotes, ChainNotes, UniquePaths, Kept, SortBy, StrictWeak;
    var report := ReportOf(tree, g, opts, current, planned);
    PlansLawful(tree, g, opts, current, planned);
    CodemodsAfterWriting(tree, planned, Removed(g, opts, current), planned, Mods(ChainFor(current, g, opts)));
    HitLessWeak();
    KeptSorted(FoundOf(tree, planned, Mods(ChainFor(current, g, opts))), report.files);
    KeptAllIff(report.codemods, report.files);
  }

  // ---- an upgrade that removes a file it reports a codemod in

  const OLD_RECIPE := Recipe("web", {}, "1.0.0", "v1")
  const NEW_RECIPE := Recipe("web", {}, "2.0.0", "v2")
  const APP_FILE := File("app.go", "old", OwnerApp)

  function Encoded(r: Recipe): Option<string> {
    if r == OLD_RECIPE then Some("1") else if r == NEW_RECIPE then Some("2") else None
  }

  function Decoded(text: string): Option<Recipe> {
    if text == "1" then Some(OLD_RECIPE) else if text == "2" then Some(NEW_RECIPE) else None
  }

  function FilesFor(r: Recipe): Option<seq<File>> {
    match Encoded(r)
    case None => None
    case Some(text) => Some([File(RECIPE, text, OwnerNise), APP_FILE])
  }

  function TwoVersions(): Generator {
    Generator((tree, r) => FilesFor(r), r => Encoded(r), text => Decoded(text), kind => [], "v2")
  }

  const RENAMES := Codemod("rename", "old", "new")
  const DROPS_APP := Migration("v1", "v2", "", [RENAMES], ["app.go"], [])
  const TO_TWO := Options("2.0.0", "", true, [DROPS_APP])
  const BEFORE: Tree := map[RECIPE := "1", "app.go" := "old"]
  const PLANNED := [File(RECIPE, "2", OwnerNise), APP_FILE]

  lemma FilesLawful(r: Recipe)
    requires FilesFor(r).Some?
    ensures LawfulPlan(TwoVersions(), r, FilesFor(r).value)
  {
    var files := FilesFor(r).value;
    assert files[0] in files && files[0].path == RECIPE;
    assert "app.go" != RECIPE;
    forall kind ensures !IsNisePath(files, ManifestPath(kind)) {
      assert ManifestPath(kind) != RECIPE;
    }
  }

  lemma TwoVersionsLawful()
    ensures Lawful(TwoVersions())
  {
    hide LawfulPlan;
    var g := TwoVersions();
    forall t, r | g.render(t, r).Some? ensures LawfulPlan(g, r, g.render(t, r).value) {
      FilesLawful(r);
    }
  }

  lemma ExampleChain()
    ensures ValidTable(TO_TWO.migrations)
    ensures ChainFor(OLD_RECIPE, TwoVersions(), TO_TWO) == [DROPS_APP]
    ensures Removed(TwoVersions(), TO_TWO, OLD_RECIPE) == ["app.go"] && Mods([DROPS_APP]) == [RENAMES]
  {
    var links := Links([DROPS_APP]);
    assert [DROPS_APP][..0] == [] && Links([]) == map[] && Mods([]) == [] && DeclaredRemovals([]) == [];
    assert [] + [RENAMES] == [RENAMES] && [] + ["app.go"] == ["app.go"];
    assert links == map["v1" := DROPS_APP];
    assert Follow(links, "v2", "v2", 1) == [];
    assert Follow(links, "v1", "v2", 2) == [DROPS_APP];
  }

  lemma ExampleHits()
    ensures ValidMods([RENAMES]) && Hits([RENAMES], "app.go", "old") == [CodemodChange("app.go", "rename", 1)]
  {
    assert StartsWith("old", "old") && "old"[3..] == [];
    assert Count("old", "old") == 1 + Count("old"[3..], "old");
    assert [RENAMES][..0] == [];
    assert Rewritten([], "old") == "old" && Hits([], "app.go", "old") == [];
  }

  lemma ExampleInside()
    ensures InsideProject("app.go") && IsGoFile("app.go")
  {
    hide InsideProject;
    SplitFree('/', "app.go");
    InsideProjectIff("app.go");
    assert "app.go"[3..] == ".go";
  }

  lemma ExamplePlans()
    ensures Plans(BEFORE, TwoVersions(), TO_TWO, OLD_RECIPE, PLANNED)
  {
    hide Lawful;
    TwoVersionsLawful();
    assert Target(OLD_RECIPE, TwoVersions(), TO_TWO) == NEW_RECIPE;
    assert ValidTable(TO_TWO.migrations);
    assert BEFORE[RECIPE] == "1";
  }

  lemma ExampleReported()
    ensures Plans(BEFORE, TwoVersions(), TO_TWO, OLD_RECIPE, PLANNED)
    ensures var report := ReportOf(BEFORE, TwoVersions(), TO_TWO, OLD_RECIPE, PLANNED);
            CodemodChange("app.go", "rename", 1) in report.codemods && FileChange("app.go", Remove) in report.files
  {
    hide FileChangesOf, FoundOf, CodemodsOf, Lawful, InsideProject, ChainFor, Mods, Hits, TwoVersions, DependenciesOf,
         ManifestNotes, GapNotes, ChainNotes, RecipeOf;
    ExamplePlans();
    ExampleChain();
    ExampleHits();
    ExampleInside();
    assert PLANNED[1] == APP_FILE;
    HitsListed(BEFORE, PLANNED, [RENAMES], APP_FILE);
    ReportsInOrder(BEFORE, PLANNED, ["app.go"], [RENAMES]);
    FileChangesMean(BEFORE, PLANNED, ["app.go"], FileChange("app.go", Remove));
  }

  /** A codemod is reported in a file that the same upgrade removes, and so is not performed. */
  lemma RemovedFileStillReported()
    ensures Plans(BEFORE, TwoVersions(), TO_TWO, OLD_RECIPE, PLANNED)
    ensures var report := ReportOf(BEFORE, TwoVersions(), TO_TWO, OLD_RECIPE, PLANNED);
            var performed := FoundOf(FirstTree(BEFORE, TwoVersions(), TO_TWO, OLD_RECIPE, PLANNED), PLANNED,
                                     Mods(ChainFor(OLD_RECIPE, TwoVersions(), TO_TWO)));
            && CodemodChange("app.go", "rename", 1) in report.codemods && FileChange("app.go", Remove) in report.files
            && SortBy(HitLess, performed) != report.codemods
  {
    hide Plans, ReportOf, FoundOf, ChainFor, Mods, SortBy, FirstTree, TwoVersions;
    ExampleReported();
    PerformedAgainstReported(BEFORE, TwoVersions(), TO_TWO, OLD_RECIPE, PLANNED);
  }

  // ---- runs of upgrades

  /** One upgrade: what a nise of some version, with its own generator and table, does to the tree. */
  ghost predicate UpgradesTo(tree: Tree, g: Generator, opts: Options, tree': Tree) {
    Proper(g, opts) && PlanOf(tree, g, opts).Ok?
    && g.marshal(Target(RecipeOf(tree, g).value, g, opts)).Some?
    && tree' == After(tree, g, opts)
  }

  ghost predicate IsUpgradeRun(trees: seq<Tree>, steps: seq<(Generator, Options)>) {
    && |trees| == |steps| + 1
    && forall i :: 0 <= i < |steps| ==> UpgradesTo(trees[i], steps[i].0, steps[i].1, trees[i + 1])
  }

  lemma UpgradedForward(tree: Tree, g: Generator, opts: Options, current: Recipe, planned: seq<File>, kind: Manifest)
    requires Plans(tree, g, opts, current, planned)
    ensures g.marshal(Target(current, g, opts)).Some?
    ensures ManifestPath(kind) in Upgraded(tree, g, opts) ==>
              && ManifestPath(kind) in tree
              && MovesForward(kind, tree[ManifestPath(kind)], Upgraded(tree, g, opts)[ManifestPath(kind)])
  {
    hide Upgraded, MovesForward, Bumped, Wanted, ManifestPath, InsideProject, RecipeOf, Target, LawfulPlan, Removed,
         GoodPins, SameNiseFiles;
    ManifestUpgraded(tree, g, opts, current, planned, kind);
    if ManifestPath(kind) in tree {
      BumpedForward(kind, tree[ManifestPath(kind)], Wanted(g.pins(kind)));
    }
  }

  /**
   Along any run of upgrades, by whatever versions of nise, a manifest that is still there has the same
   requirements, each only moved forward, and the same text otherwise but for white space behind package.json
   entries.
   */
  lemma {:induction false} NoVersionMovesBackwards(trees: seq<Tree>, steps: seq<(Generator, Options)>,
                                                   kind: Manifest, k: nat)
    requires IsUpgradeRun(trees, steps) && k < |trees| && ManifestPath(kind) in trees[k]
    ensures ManifestPath(kind) in trees[0]
            && MovesForward(kind, trees[0][ManifestPath(kind)], trees[k][ManifestPath(kind)])
  {
    hide Upgraded, MovesForward, ManifestPath, RecipeOf, Target, Lawful, ReportOf;
    var path := ManifestPath(kind);
    if k == 0 {
      MovesForwardSelf(kind, trees[0][path]);
    } else {
      var tree, g, opts := trees[k - 1], steps[k - 1].0, steps[k - 1].1;
      assert UpgradesTo(tree, g, opts, trees[k - 1 + 1]);
      if PlanOf(tree, g, opts).value.upToDate {
        MovesForwardSelf(kind, tree[path]);
      } else {
        var current := RecipeOf(tree, g).value;
        UpgradedForward(tree, g, opts, current, g.render(tree, Target(current, g, opts)).value, kind);
      }
      NoVersionMovesBackwards(trees, steps, kind, k - 1);
      MovesForwardTransitive(kind, trees[0][path], tree[path], trees[k][path]);
    }
  }
}
