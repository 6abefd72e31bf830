# A verified model of nise-and-go

nise is a project generator with a command line, a dev loop, a project upgrader, and runtime
packages the generated services link against. This project models the parts of it that are
algorithms or protocols, and proves the guarantees their documentation states, for every input,
every run and every interleaving:

- **Suggestions** (`EditDistance.dfy`): the two-row Levenshtein table against the minimum over all
  edit scripts, and the first nearest candidate under a threshold.
- **Lifecycle** (`Worker.dfy`, `Group.dfy`): the lock-protected worker and the group that supervises
  several, as a transition system over every lock section, channel operation and cancellation.
- **Dev loop** (`Watch.dfy`, `Supervisor.dfy`, `DevLoop.dfy`): the polling watcher, its one-slot
  channel, the debouncing supervisor, its timer, builds and children.
- **Dev output** (`PrefixWriter.dfy`, `StripAnsi.dfy`): splitting a stream into lines under a buffer
  bound, and removing escape sequences.
- **Metrics** (`SeriesTable.dfy`, `Accumulator.dfy`, `Histogram.dfy`, `Exposition.dfy`,
  `MetricsText.dfy`): the capped series table, the compare-and-swap accumulator, cumulative
  histograms, and the text format with a reader that inverts it.
- **Pagination** (`Framing.dfy`, `Binding.dfy`, `Base64Url.dfy`, `KeyRing.dfy`, `Cursor.dfy`,
  `Rotation.dfy`, `Report.dfy`): the canonical framing of a query, signed cursors, key rotation,
  and offset reports.
- **Upgrade** (`Migration.dfy`, `Versions.dfy`, `Dependencies.dfy`, `ProjectPath.dfy`,
  `Upgrade.dfy`, `UpgradeApply.dfy`, `UpgradeTheorems.dfy`): the migration chain, manifest
  rewriting, and Plan and Apply over a project tree.
- **Command line** (`Commands.dfy`, `GlobalFlags.dfy`, `Dispatch.dfy`): command resolution and the
  two passes that take global flags out of the arguments.
- **Forwarded headers** (`Forwarded.dfy`) and **second factors** (`Base32.dfy`, `Totp.dfy`,
  `RecoveryCode.dfy`).

`Wrappers.dfy`, `Pigeonhole.dfy`, `Sorting.dfy`, `Separated.dfy`, `Replacing.dfy`, `Trimming.dfy`,
`Decimal.dfy`, `Int64.dfy` and `Utf8.dfy` hold what several of these share: Go's string splitting,
replacing, sorting, trimming and UTF-8 decoding, with the laws the proofs need.

Code that changes state in place is modelled by classes and methods with loops, each proved against
a specification function; what the code promises is then proved about those functions. Concurrent
code is a transition system whose steps are the atomic sections of the Go code, and its properties
are proved of every state of every run. `dafny verify dfyconfig.toml` checks everything.

Modelling also showed where a documented or expected property holds only under a condition. Each is
stated exactly:

- A line split over several writes comes out the same however it is cut if and only if every
  terminated line is at most 65,536 bytes and a last unterminated one at most 65,537
  (`PrefixLines.ChunkingIrrelevantIffFits`).
- Series of a counter or a set gauge print alike exactly when the first parts of their keys do; so
  a combination with a label value holding the separator 0x1f, and no other, prints as a
  separator-free combination of another key (`MetricsText.SeparatorMergesSeries`, with
  `MetricsText.MergedExample`). In a histogram
  the value left over also takes the place of every bucket's bound
  (`MetricsText.SeparatorHidesBounds`). Label values are recovered exactly when none holds it
  (`SeriesTables.ValuesOfKey`).
- Tracked and untracked combinations have different metric objects unless the tracked one is the
  overflow combination itself, looked up under that name
  (`SeriesTables.OneObjectPerCombination`, `SeriesTables.OverflowNameShared`).
- `insideProject` accepts exactly the plain relative paths and, besides them, `..`
  (`ProjectPaths.InsideProjectIff`).
- The codemods performed equal those reported if and only if no reported codemod is in a file the
  same upgrade removes (`UpgradeTheorems.PerformedAgainstReported`); one upgrade for which they
  differ is `UpgradeTheorems.RemovedFileStillReported`.
- A pinned requirement of a manifest is neither moved nor named as ahead if and only if one of the two
  versions cannot be read or they are equal; `"svelte": "^5.0.0"` is passed over without the note
  the code's comment promises (`Dependencies.MovedAheadOrEqual`, `Dependencies.RangeUnnoted`).
- An invocation of a command comes out as its arguments call for, every value left to its own flag,
  if and only if the flags found blindly decide as those found with the command's flags known (a
  contradiction, or the version alias), and, where the command is run, the two passes found
  different flags or no value of the command's flags looked like a global flag, nor like a `--` with
  a global flag behind it (`Dispatch.IntendedIff`). `gen --name --version` shows the version instead
  of running (`Dispatch.VersionShownInstead`), `gen --json --name --json` loses its value
  (`Dispatch.ValueLost`), and `gen --json --name -- --json` keeps a flag that was none of its
  arguments (`Dispatch.FlagKeptBehindDashes`).
- A bump keeps every line of a manifest in its place if and only if no package.json entry it moves
  has a line break in the white space its match takes behind it, or in its version
  (`Dependencies.LinesKeptIff`); a blank line behind a moved entry is lost
  (`Dependencies.BlankLineLost`).
- Where the peer is permitted and the header within its limits, the client address comes from what
  the deployment's proxies wrote if and only if there are at least as many of them as declared hops;
  otherwise it is the direct peer (`Forwarded.ClientAlongProxies`).
- One-time codes are refused while the window reaches before the epoch, whatever its other steps
  show (`Totp.Verify`, `Totp.NearEpochRefused`).

## Model

| member | source | states |
|---|---|---|
| `EditDistance.Levenshtein` | internal/cli/suggest.go:44-76 | Despite the swap and the two reused rows, the result is the least length of any script of insertions, deletions and substitutions turning a into b |
| `EditDistance.FillRow` | internal/cli/suggest.go:55-72 | One pass of the inner loop turns row j-1 of the distance table into row j |
| `EditDistance.DistanceIsEditDistance` | internal/cli/suggest.go:40-43 | The recurrence behind the table is attained by some edit script and beaten by none |
| `EditDistance.Metric` | internal/cli/suggest.go:40-76 | The distance is zero exactly for equal rune sequences, symmetric, and obeys the triangle inequality |
| `EditDistance.Suggest` | internal/cli/suggest.go:12-38 | A suggestion is made exactly when some candidate is within the clamped threshold, and it is the first candidate of least distance |
| `EditDistance.Nearest` | internal/cli/suggest.go:17-25 | The scan keeps the first candidate at the least distance |
| `EditDistance.ThresholdMeans` | internal/cli/suggest.go:27-33 | One edit is forgiven in up to two bytes, two in up to four, three beyond |
| `WorkerMachine.Worker.constructor` | runtime/lifecycle/worker.go:39-41 | A new worker is idle, nothing canceled, its done channel open |
| `WorkerMachine.Worker.BeginRun` | runtime/lifecycle/worker.go:48-56 | Run enters the loop unless Shutdown came first, in which case nothing changes |
| `WorkerMachine.StoppedForGood` | runtime/lifecycle/worker.go:47-95 | Whatever locked sections follow, in any order, a stopped worker stays stopped and never enters its loop, a canceled one stays canceled, and the done channel is closed at most once |
| `WorkerMachine.Worker.CloseDone` | runtime/lifecycle/worker.go:64 | The done channel is closed while open only, so a second close cannot panic, and the worker stays consistent |
| `WorkerMachine.Worker.BeginShutdown` | runtime/lifecycle/worker.go:74-85 | Shutdown's locked section stops an idle worker, finds a stopped one, or must cancel a running one |
| `WorkerMachine.Worker.Shutdown` | runtime/lifecycle/worker.go:73-87 | Up to its wait, Shutdown leaves the worker stopped, or running with its loop told to stop; it waits exactly in the second case |
| `WorkerMachine.Worker.Run` | runtime/lifecycle/worker.go:47-67 | One call of Run, interrupted or not, leaves the worker stopped and closes the done channel once exactly when it entered the loop |
| `GroupProtocol.NilShutdownIsFinal` | runtime/lifecycle/worker.go:73-95 | In every interleaving, a Shutdown that returned nil means the loop is not running, then or ever after, and is never invoked again |
| `GroupProtocol.ClosedAndStartedAtMostOnce` | runtime/lifecycle/worker.go:47-67 | In every interleaving the done channel is closed at most once and the loop invoked at most once |
| `GroupProtocol.ReturnsAfterAll` | runtime/lifecycle/group.go:85-110 | Group.Run returns only after every component's Run has; its result is nil exactly when all were, and otherwise the error of the earliest failed outcome received |
| `GroupProtocol.OutcomeCarried` | runtime/lifecycle/worker.go:58-66 | In every run, what a component's loop returned is what its Run carries and returns from then on |
| `GroupProtocol.AnswersForTheLoops` | runtime/lifecycle/group.go:85-110 | In every run Group.Run returns nil exactly when no loop returned an error, and otherwise an error that the loop of the component it names returned |
| `GroupProtocol.ParentCancelReachesLoops` | runtime/lifecycle/worker.go:53-58 | Canceling the context given to Group.Run cancels every loop in progress and every loop begun later |
| `GroupProtocol.TornDownLeavesNoneRunning` | runtime/lifecycle/group.go:115-130 | Once shutdownExcept has returned, every other component is canceled or stopped, and the skipped one has returned |
| `GroupProtocol.NilGroupShutdownIsFinal` | runtime/lifecycle/group.go:135-149 | In every interleaving, once a Group.Shutdown has returned nil no component's loop runs or ever starts again |
| `GroupProtocol.GroupShutdownSettles` | runtime/lifecycle/group.go:135-149 | A Group.Shutdown that returned has waited for one Shutdown per component and returns nil exactly when all did; a component without an error is stopped for good, one with an error has been told to stop |
| `GroupProtocol.NeverStuck` | runtime/lifecycle/group.go:85-110 | Until Group.Run has returned, a step of the code can be taken or a component is in its loop |
| `GroupProtocol.OnlyCanceledLoopsAwaited` | runtime/lifecycle/group.go:85-130 | After the first component has returned, the code waits for no loop whose context is not canceled |
| `GroupProtocol.EndsWithin` | runtime/lifecycle/group.go:85-149 | Without new calls and cancellations from outside, a bounded number of steps follow any reachable state, and Group.Run has returned when none can |
| `GroupProtocol.Collect` | runtime/lifecycle/group.go:93-109 | The receive loop records the earliest error and tears the others down once, for the first arrival |
| `Watch.Changed` | internal/dev/watch.go:98-113 | Lists, once each and ascending, exactly the paths added, removed or modified; empty exactly when the snapshots are equal |
| `Watch.DiffersSomewhere` | internal/dev/watch.go:93-113 | Two snapshots differ at some path exactly when they are not equal |
| `SupervisorState.Supervisor.Stop` | internal/dev/supervisor.go:111-121 | The stop closure charges one end to the held child and forgets it, and does nothing without one; no child is owned by the log afterwards |
| `SupervisorState.Supervisor.Spawn` | internal/dev/supervisor.go:139-150 | A child is started only when none is held; the log then owns exactly that child, and the channel listened to is its own |
| `SupervisorState.Supervisor.Disarm` | internal/dev/supervisor.go:162-167 | After disarming no settle timer is pending |
| `SupervisorState.Supervisor.OnChange` | internal/dev/supervisor.go:175-185 | A change leaves the settle timer armed or fired, never absent |
| `SupervisorState.Supervisor.OnExit` | internal/dev/supervisor.go:203-213 | The process an exit is charged to is the one whose channel reported it, and the log owns no child afterwards |
| `SupervisorState.Supervisor.OnTick` | internal/dev/supervisor.go:187-201 | A build that fails keeps the child and logs no end; otherwise exactly the newly started child is held |
| `SupervisorState.Supervisor.Run` | internal/dev/supervisor.go:94-216 | Whatever the selects receive and however builds and starts turn out, Run leaves no child held, no timer armed, and a log in which no child is left running |
| `SupervisorState.ChangeIsRebuilt` | internal/dev/supervisor.go:175-201 | After any sequence of turns, the first tick behind a change logs the restart and the build, and if that succeeds the held child's end and the new start; a failed build keeps the child |
| `SupervisorState.TickWithoutChange` | internal/dev/supervisor.go:153-187 | Without a change since the last tick nothing is rebuilt |
| `SupervisorState.ExitIsLogged` | internal/dev/supervisor.go:203-213 | An exit received while a child is held is logged and charged to it |
| `SupervisorState.ChangeIsQuiet` | internal/dev/supervisor.go:175-185 | A change by itself logs nothing and leaves the child running |
| `SupervisorState.BeginningAndEnd` | internal/dev/supervisor.go:94-172 | The log begins with the first build and, if it succeeds, the first start, and ends with the end of the child held when Run leaves |
| `SupervisorState.AfterIsEmitted` | internal/dev/supervisor.go:94-216 | What has been logged after some turns is part of the log of the whole Run |
| `SupervisorState.EveryStartEnded` | internal/dev/supervisor.go:94-216 | In a log that owns no child every child started has an end of its own |
| `SupervisorState.OneEndBetweenStarts` | internal/dev/supervisor.go:94-216 | Between two Started events of a consistent log there is exactly one Stopped or Exited, of the child the first one started |
| `DevLoop.NoDetectedChangeLost` | internal/dev/watch.go:180-203 | In every run, a change detected since the last build began is in the channel, just taken from it, or behind a timer armed or fired and unhandled, until the supervisor leaves |
| `DevLoop.OwedMeans` | internal/dev/watch.go:180-203 | A change is owed from the sweep that differs from the one before, which fills the channel, until a build begins |
| `DevLoop.AtMostOneAlive` | internal/dev/supervisor.go:94-216 | In every run at most one child is alive, and current and exited both name it |
| `DevLoop.NoneSurvives` | internal/dev/supervisor.go:94-216 | However Run leaves, no child is alive once it has returned |
| `DevLoop.EventsAlternate` | internal/dev/supervisor.go:107-215 | In every run, exactly one end is logged between consecutive starts, charged to the child that was started |
| `DevLoop.EveryChildAccountedFor` | internal/dev/supervisor.go:94-216 | Once Run has returned, every child started is ended in the log |
| `DevLoop.HeldIsListenedTo` | internal/dev/supervisor.go:139-150 | In every state of every run the child held and the exit channel listened to belong together, its exit not yet taken |
| `DevLoop.NeverStuck` | internal/dev/supervisor.go:169-215 | Until Run has returned the supervisor can step or waits in its select, and it waits with a change owed only while the settle timer runs |
| `DevLoop.OwedChangeReachesBuild` | internal/dev/supervisor.go:169-201 | From any state of a run in which a change is owed, the build that includes it can begin within eight steps, until the supervisor leaves |
| `DevLoop.CanceledRunReturns` | internal/dev/supervisor.go:169-216 | In every run, at any time after the context was canceled, the supervisor is at most six of its steps from returning |
| `DevLoop.FailedRebuildKeepsChild` | internal/dev/supervisor.go:187-197 | Through a rebuild that fails the supervisor holds the same child and logs nothing that ends it |
| `DevLoop.FailedBuildReturns` | internal/dev/supervisor.go:187-197 | A failed build leads back to the select, ending no child |
| `DevLoop.RebuildStepsSpareChildren` | internal/dev/supervisor.go:187-197 | No step of a rebuild ends a living child but that child's own exit |
| `DevLoop.StoppingLeavesNone` | internal/dev/process.go:31-50 | Stopping the held child, which by contract is gone on return, leaves none alive |
| `PrefixLines.PrefixWriter.Write` | internal/dev/prefix.go:50-67 | The lines completed are emitted, tagged, and at most 65,536 bytes without a newline are kept |
| `PrefixLines.PrefixWriter.Flush` | internal/dev/prefix.go:73-80 | What is pending is emitted as a last line and nothing is kept |
| `PrefixLines.PrefixWriter.Line` | internal/dev/prefix.go:83-89 | One line goes out without its carriage return, stripped on request, behind its tag |
| `PrefixLines.TaggedMeans` | internal/dev/prefix.go:83-89 | A line with one carriage return at its end and the line without it go out alike: the tag, then the line, its escapes kept or stripped |
| `PrefixLines.WriteAll` | internal/dev/prefix.go:45-80 | Writing the chunks and flushing emits the lines of the joined stream when they fit |
| `PrefixLines.LinesJoined` | internal/dev/prefix.go:50-67 | Lines read on from the last newline: splitting a concatenation continues from the pending rest |
| `PrefixLines.EmittedIsAllLines` | internal/dev/prefix.go:50-80 | When every line fits, what is emitted depends only on the concatenation of the writes |
| `PrefixLines.ChunkingIrrelevantIffFits` | internal/dev/prefix.go:50-80 | Every cut of a stream gives the same tagged lines if and only if every line fits the buffer |
| `StripAnsi.StripANSI` | internal/dev/prefix.go:98-142 | The loop terminates on every input, leaves no ESC, and computes the text outside escape sequences |
| `StripAnsi.StripIdempotent` | internal/dev/prefix.go:98-142 | Stripping leaves no ESC, so stripping again changes nothing |
| `StripAnsi.StripKeepsExactlyTheText` | internal/dev/prefix.go:91-142 | Well-formed text interleaved with complete CSI, OSC and two-byte escapes comes out as exactly the text |
| `SeriesTables.ValuesOfKey` | runtime/observability/series.go:62-76 | Splitting a joined key recovers the label values exactly when none holds the separator |
| `SeriesTables.KeysDistinct` | runtime/observability/series.go:62-64 | A combination without the separator shares its key with no other combination of its width |
| `SeriesTables.Normalized` | runtime/observability/counter.go:61-68 | Missing label values become empty and superfluous ones are dropped |
| `SeriesTables.SeriesTable.constructor` | runtime/observability/series.go:48-57 | A non-positive cap becomes the default, and the table starts empty |
| `SeriesTables.SeriesTable.Get` | runtime/observability/series.go:83-107 | A lookup answers with the bound object, a new one below the cap, or the overflow object, and keeps the table valid |
| `SeriesTables.SeriesTable.WriteLocked` | runtime/observability/series.go:92-123 | The section under the write lock re-checks, then binds at most one new key |
| `SeriesTables.LockedKeepsValid` | runtime/observability/series.go:92-123 | The section never rebinds or drops a key, creates at most one object, and answers with what is bound |
| `SeriesTables.TableBoundedAndNothingLost` | runtime/observability/series.go:83-123 | In every interleaving the table holds at most maxSeries+1 entries, and the counters add up to the number of Inc calls |
| `SeriesTables.BindingsNeverChange` | runtime/observability/series.go:83-123 | Between any two states of a run no bound key is rebound or dropped and no answered call changes its object |
| `SeriesTables.OneObjectPerCombination` | runtime/observability/series.go:83-123 | Two answered lookups got one object exactly when they are charged to one key: their own where tracked, the overflow key past the cap |
| `SeriesTables.OverflowNameShared` | runtime/observability/series.go:109-123 | A run in which a combination named like the overflow one is handed out to another combination |
| `Accumulators.ValueIsFoldOfCommits` | runtime/observability/atomic.go:18-36 | In every interleaving of adders and stores the value is the fold of the committed updates in commit order, each returned call committed once |
| `Histograms.HistogramValue.Observe` | runtime/observability/histogram.go:36-44 | Every bucket whose bound is at least the value counts it, and count and sum include it |
| `Histograms.QuiescentHistogram` | runtime/observability/histogram.go:36-44 | With no Observe in progress each bucket counts the observations at most its bound, and buckets never decrease and are bounded by the count |
| `Exposition.EscapesAreOnePass` | runtime/observability/expose.go:192-206 | The sequential replacements equal escaping each character once |
| `Exposition.UnescapeEscaped` | runtime/observability/expose.go:192-196 | Help text is recovered from its escaped form |
| `Exposition.ReadQuotedEscaped` | runtime/observability/expose.go:201-206 | A label value is read back up to its closing quote, whatever follows |
| `Exposition.CharactersEscaped` | runtime/observability/expose.go:190-206 | Which characters are escaped, in help text and in label values, and as what |
| `Exposition.LinesSpelled` | runtime/observability/expose.go:162-188 | The help, type and sample lines as they stand in the document |
| `Exposition.ReadWritten` | runtime/observability/expose.go:162-188 | Every help, type and sample line parses back to its name, labels and value |
| `Exposition.TextDeterminesLines` | runtime/observability/expose.go:162-188 | Two texts are equal only if they are the same lines |
| `MetricsText.WriteText` | runtime/observability/expose.go:42-76 | For every registry, the document is counters, gauges, sampled gauges and histograms, each kind in name order and each family's series in key order |
| `MetricsText.ExpositionDeterminesRegistry` | runtime/observability/expose.go:42-76 | Registries of well-named families whose series show all their label values print the same text only if, each in its one order, they hold the same families series for series and number for number |
| `MetricsText.ExpositionUnique` | runtime/observability/expose.go:35-41 | A registry has one text, whatever order its maps are ranged over in |
| `MetricsText.WriteFamily` | runtime/observability/expose.go:84-160 | One family is its header and its series in ascending key order |
| `MetricsText.KeysInOrder` | runtime/observability/series.go:140-147 | The keys of a map come out once each and ascending, however it is ranged over |
| `Sorting.StringOrder` | runtime/observability/series.go:140-147 | The order sorted by is that of Go strings: at the first place where two part, the one that ends or has the smaller character is less |
| `Sorting.AscendingStrings` | runtime/observability/series.go:140-147 | A sorted list is strictly ascending in that order |
| `MetricsText.InNameOrder` | runtime/observability/expose.go:80-82 | The registered families of a kind come out in ascending name order |
| `MetricsText.TextsAgreeIff` | runtime/observability/expose.go:84-206 | Whatever the label values, two documents are the same text exactly when they show the same families with the same readings: label values, bucket bounds and numbers |
| `MetricsText.LinesShowReading` | runtime/observability/expose.go:84-160 | The lines of a series are those of its reading: of values too many one is shown for each label, and a histogram shows the next one as the bound |
| `MetricsText.SeriesSpelled` | runtime/observability/expose.go:84-160 | The lines of a histogram with one bucket and of a counter with one label, spelled out |
| `MetricsText.TextDeterminesSnapshot` | runtime/observability/expose.go:42-206 | Where every series shows all of its label values the text determines every family and, in each, every series, its numbers and its buckets: distinct series never merge |
| `MetricsText.LegalKeyIff` | runtime/observability/series.go:59-64 | The keys the writer accepts are exactly those some combination of the declared width has |
| `MetricsText.KeysUnique` | runtime/observability/expose.go:78-82 | The order of the series is determined by the snapshot alone |
| `MetricsText.SeparatorMergesSeries` | runtime/observability/expose.go:84-110 | Series of a counter or set gauge with one number in them print alike exactly when their combinations show alike, and a combination shows as one of another key exactly when a value holds the separator |
| `MetricsText.DisplayedIsAnother` | runtime/observability/series.go:66-76 | What a combination shows is separator-free, and is itself exactly when it is separator-free |
| `MetricsText.SeparatorHidesBounds` | runtime/observability/expose.go:126-146 | A histogram's series shows its bounds exactly when no value holds the separator; otherwise a label value stands in the place of each |
| `MetricsText.SampledNeverMerge` | runtime/observability/expose.go:112-124 | Sampled gauges print the values they were registered under, so different combinations never print alike |
| `Utf8.ValidIffReencodes` | runtime/pagination/cursor.go:333-350 | Valid UTF-8 is exactly what decoding and encoding again leaves unchanged |
| `Framing.SignedBytesInjective` | runtime/pagination/cursor.go:319-331 | The bytes signed determine version, key identifier and body |
| `Framing.PrefixedUnique` | runtime/pagination/cursor.go:354-365 | A length-prefixed field is told apart from whatever follows it |
| `Framing.WordDenotes` | runtime/pagination/cursor.go:354-365 | A length is written as the eight bytes that denote it, most significant first |
| `QueryBinding.CanonicalBytes` | runtime/pagination/cursor.go:112-130 | The buffer holds the resource and the filters in ascending key order, whatever order the map was ranged over in |
| `QueryBinding.BytesOrder` | runtime/pagination/cursor.go:112-121 | Keys are ordered as Go strings are, byte by byte |
| `QueryBinding.WriteEntry` | runtime/pagination/cursor.go:123-129 | One key, its value count and its values, each length-prefixed, are appended |
| `QueryBinding.CanonicalDeterminesQuery` | runtime/pagination/cursor.go:112-134 | Equal hashed bytes mean the same resource and the same ordered values under the same keys |
| `QueryBinding.QueryDeterminesCanonical` | runtime/pagination/cursor.go:109-121 | Parameter order does not change the hashed bytes |
| `QueryBinding.NewBinding` | runtime/pagination/cursor.go:112-134 | The fingerprint is the hexadecimal hash of the canonical bytes, and plain text |
| `QueryBinding.HexMeans` | runtime/pagination/cursor.go:133 | Two lower-case hexadecimal digits for each byte, the high half first |
| `QueryBinding.FingerprintsAgreeIff` | runtime/pagination/cursor.go:98-134 | Under a hash without collisions fingerprints agree exactly when the queries do |
| `Base64Url.DecodeEncoded` | runtime/pagination/cursor.go:234-235 | Every byte string reads back from its unpadded base64url form (section 5 of RFC 4648) |
| `Base64Url.EncodedIsLetters` | runtime/pagination/cursor.go:231-236 | Encoded parts never hold the dot that separates them |
| `Base64Url.AlphabetOrder` | runtime/pagination/cursor.go:234-235 | The letters are those of the URL-safe alphabet in its order |
| `Base64Url.GroupsAreBits` | runtime/pagination/cursor.go:234-235 | Three bytes are the same bits as their four letters, and a shorter end is padded with zero bits |
| `Base64Url.ReadableIff` | runtime/pagination/cursor.go:269-276 | Without line breaks, exactly the texts of letters with none left over from groups of four are read |
| `Base64Url.BreaksSkipped` | runtime/pagination/cursor.go:269-276 | A line break anywhere changes nothing in what is read |
| `KeyRings.NewKey` | runtime/pagination/key.go:62-70 | A key is accepted exactly with a valid identifier and at least 32 secret bytes |
| `KeyRings.NewKeyRing` | runtime/pagination/key.go:131-149 | A ring is accepted exactly when its keys are constructed, at most eight are retired and identifiers are unique; the first offence decides the error |
| `KeyRings.FindsTheKey` | runtime/pagination/key.go:191-201 | Looking up an identifier finds the one key of the ring that has it |
| `KeyRings.FindOrderIrrelevant` | runtime/pagination/key.go:127-130 | Rings with the same keys answer every lookup alike, whatever their order |
| `Cursors.PartsRecovered` | runtime/pagination/cursor.go:229-236 | Splitting a token at its dots recovers exactly the four parts joined |
| `Cursors.DecodeIssued` | runtime/pagination/cursor.go:209-317 | A token decodes, under any ring still holding its key, to its direction, values and expiry for its own query before its expiry, and to the stated error otherwise |
| `Cursors.EncodeSucceedsIff` | runtime/pagination/cursor.go:209-242 | A cursor is issued exactly for a bound query, a known direction, fitting values and a token within its limit; the first failure decides the error |
| `Cursors.LivesItsLifetime` | runtime/pagination/cursor.go:219-307 | For its own query a cursor is accepted up to a second before its lifetime is over, and not from then on |
| `Cursors.IssuedExpires` | runtime/pagination/cursor.go:301-307 | From its expiry on a token is accepted by no ring |
| `Cursors.AcceptedIsVerified` | runtime/pagination/cursor.go:244-281 | Whatever is accepted came from a body some key of the ring tagged under its own identifier |
| `Cursors.AcceptedIff` | runtime/pagination/cursor.go:244-317 | A token is accepted as a cursor exactly when it is within 4096 bytes, a key of the ring tagged its body, and the body holds that cursor for this query, well formed and not expired |
| `Rotation.EveryIssuedTokenDecodes` | runtime/pagination/key.go:120-149 | In every run of issuing, waiting and ring changes that keep each key until the cursors it signed have expired, every token issued decodes to exactly what it was issued with until its stored expiry, and never after |
| `Rotation.EveryTokenLivesItsLifetime` | runtime/pagination/key.go:120-149 | In every such run each token is accepted up to a second before its lifetime is over and by no ring from then on |
| `Rotation.RunGoesOn` | runtime/pagination/key.go:120-149 | Any run goes on to any later moment, any token the ring issues and any ring that keeps the keys still needed |
| `Reports.NewReportLimits` | runtime/pagination/report.go:70-86 | Limits are accepted exactly when sizes and offset are within their bounds |
| `Reports.ComputeTotals` | runtime/pagination/report.go:140-162 | Bounds are checked again; more pages exist exactly when a row past this page does |
| `Reports.OffsetBounded` | runtime/pagination/report.go:109-114 | For a bounded report the 64-bit product is exact |
| `Reports.PagesPartitionRows` | runtime/pagination/report.go:109-162 | Pages 1 to TotalPages read every row exactly once, none is empty, and no offset wraps |
| `Reports.DigitsIn` | runtime/pagination/report.go:216-223 | The loop counts the digits of the decimal |
| `Reports.DecimalValue` | runtime/pagination/request.go:197-211 | Accepts exactly the plain decimals of at most that many digits, with their value |
| `Reports.ParseBoundedParameter` | runtime/pagination/report.go:198-214 | Absent, repeated and empty parameters aside, accepts exactly the plain decimals between the bounds; the digit ceiling refuses none of them |
| `Reports.ParseReport` | runtime/pagination/report.go:170-194 | Refuses mixed parameters first, then page, then size, then depth; what it accepts is bounded with its offset within the ceiling |
| `Reports.ReportAcceptedIff` | runtime/pagination/report.go:164-194 | A report is accepted exactly without cursor parameters and with page and size absent or plain decimals in range that skip no more rows than allowed; mixing and depth have errors of their own |
| `Decimals.DecimalOfNumber` | runtime/pagination/request.go:190-211 | Digits without a leading zero are the one decimal of the number they denote |
| `Migrations.Path` | internal/upgrade/migration.go:80-108 | The chain is the table's linked walk stopped at the first arrival, nothing is missing exactly when the target is reachable, and cycles end after one link more than declared |
| `Migrations.ShortWalk` | internal/upgrade/migration.go:89-93 | Whatever is reachable is reachable in as many links as the table has |
| `Migrations.LinksMean` | internal/upgrade/migration.go:80-88 | A version leads on exactly if a migration is declared from it, by the last one declared |
| `Migrations.StopsOnce` | internal/upgrade/migration.go:80-108 | Only one chain satisfies that description |
| `Migrations.ApplyIsSubstitution` | internal/upgrade/migration.go:112-118 | A codemod replaces exactly count occurrences, found left to right, and changes nothing between them |
| `Versions.ParseVersion` | internal/upgrade/dependencies.go:127-145 | Fills three numbers exactly for the texts that denote a version |
| `Versions.NewerIsStrictOrder` | internal/upgrade/dependencies.go:108-123 | Newer is a strict order, total on texts that denote different versions |
| `Versions.NewerMeans` | internal/upgrade/dependencies.go:108-123 | The first of the three numbers in which two versions differ decides |
| `Versions.VersionSpelled` | internal/upgrade/dependencies.go:127-145 | Three numerals between dots, with or without a "v" before and a suffix behind, are the version they spell |
| `Dependencies.Bump` | internal/upgrade/dependencies.go:52-99 | Over the whole text, replaces every match whose pin is newer and reports one change for each, in order; all else is written back |
| `Dependencies.WantedMeans` | internal/upgrade/dependencies.go:53-56 | A name is wanted at the version its last pin gives it |
| `Dependencies.MovedStands` | internal/upgrade/dependencies.go:58-69 | A requirement at its new version, before the rest of the text rewritten, is one a match reads as that |
| `Dependencies.ReadAgain` | internal/upgrade/dependencies.go:52-99 | Matching a rewritten text again finds the same requirements in order, each at the version it was moved to, and no others |
| `Dependencies.MatchIff` | internal/upgrade/dependencies.go:30-38 | Either expression matches a text at a line start exactly as the requirement whose parts the text begins with, wherever they break lines |
| `Dependencies.MatchJSONForm` | internal/upgrade/dependencies.go:37-38 | A package.json match is its quoted parts and the white space up to the last line break before what follows |
| `Dependencies.BumpIdempotent` | internal/upgrade/dependencies.go:52-99 | Bumping the result again with the same pins changes nothing |
| `Dependencies.BumpedUnchanged` | internal/upgrade/apply.go:187-190 | A manifest with no change to report is the same text |
| `Dependencies.BumpKeeps` | internal/upgrade/dependencies.go:52-99 | A bump keeps the requirements, each at the version it was moved to, and all of the text but white space behind package.json entries |
| `Dependencies.NeverBackwards` | internal/upgrade/dependencies.go:101-123 | Along any run of bumps the requirements stay, each version only moves forward, and the rest of the text is kept but for white space behind package.json entries |
| `Dependencies.LinesKeptIff` | internal/upgrade/dependencies.go:37-99 | Every piece of a text stays on its line exactly when no moved package.json entry has a line break in its version or in the white space its match drops |
| `Dependencies.BlankLineLost` | internal/upgrade/dependencies.go:71-99 | A package.json text that loses the blank line behind the entry that is moved |
| `Dependencies.AheadOfNise` | internal/upgrade/dependencies.go:149-166 | Names, in order, the pins held at a newer version than is shipped |
| `Dependencies.MovedAheadOrEqual` | internal/upgrade/dependencies.go:52-166 | A pinned requirement is moved or named as ahead, never both, and neither exactly when a version cannot be read or the two are equal |
| `Dependencies.RangeUnnoted` | internal/upgrade/dependencies.go:111-115 | A range in package.json is left alone without a note |
| `Versions.RangeUnreadable` | internal/upgrade/dependencies.go:127-145 | A text that starts like no number denotes no version |
| `ProjectPaths.InsideProjectIff` | internal/upgrade/upgrade.go:378-384 | Accepts exactly the plain relative paths, and ".." besides |
| `Upgrades.FileChangesMean` | internal/upgrade/upgrade.go:272-318 | A change is listed exactly for an absent or differing Nise-owned file, or a declared removal that is present, inside and no longer planned |
| `Upgrades.ReportsInOrder` | internal/upgrade/upgrade.go:316-360 | The reported lists are ordered and hold exactly what was found, as often as it was found |
| `Upgrades.WrittenHolds` | internal/upgrade/apply.go:99-124 | After writing, each path holds its planned content, nothing, or what it held |
| `Upgrades.CodemoddedHolds` | internal/upgrade/apply.go:133-165 | Codemods rewrite present application-owned Go files of the plan and nothing else |
| `Upgrades.GoFilesMean` | internal/upgrade/apply.go:135 | A Go file is one whose path ends in ".go" |
| `UpgradeApply.Project.PlanFileChanges` | internal/upgrade/upgrade.go:272-318 | The loops and the final sort compute the file changes in path order |
| `UpgradeApply.Project.PlanCodemods` | internal/upgrade/upgrade.go:327-362 | The loops and the final sort compute each codemod's matches on the text left by those before it, by path and description |
| `UpgradeApply.Project.PlanDependencies` | internal/upgrade/dependencies.go:169-199 | Both manifests are planned where they exist, with notes for pins that are ahead |
| `UpgradeApply.Project.Plan` | internal/upgrade/upgrade.go:119-191 | Planning returns the report the tree determines |
| `UpgradeApply.Project.WriteFiles` | internal/upgrade/apply.go:99-124 | The listed files are written or removed and no other |
| `UpgradeApply.Project.ApplyCodemods` | internal/upgrade/apply.go:133-165 | The rewrites performed are those that match on the tree as it is then |
| `UpgradeApply.Project.ApplyDependencies` | internal/upgrade/apply.go:167-196 | Each manifest present is bumped |
| `UpgradeApply.Project.Apply` | internal/upgrade/apply.go:39-90 | Nothing changes on an error or when up to date; otherwise the tree is the one the four steps leave, and the report the one planned before |
| `UpgradeTheorems.Converges` | internal/upgrade/apply.go:14-90 | After an upgrade a fresh plan with the same options succeeds and reports no file, dependency or codemod change |
| `UpgradeTheorems.NotesMean` | internal/upgrade/upgrade.go:146-180 | The notes are exactly the pins held ahead, the gap if the table does not lead to the target, what the migrations of the walk say, and their codemods when those are off |
| `UpgradeTheorems.GapNotedIff` | internal/upgrade/migration.go:75-108 | A gap is reported exactly when the target version is not reachable in the table |
| `UpgradeTheorems.OneGapNote` | internal/upgrade/upgrade.go:155-160 | A gap is reported once |
| `UpgradeTheorems.UpToDateIff` | internal/upgrade/upgrade.go:184-190 | A project is up to date exactly when nothing is listed or noted and its recipe names this version |
| `UpgradeTheorems.ChangesAreAccountedFor` | internal/upgrade/upgrade.go:265-318 | Every path changed is a Nise-owned file, a declared removal, an application Go file with a reported match, a manifest with a reported change, or the recipe |
| `UpgradeTheorems.NiseFileUpgraded` | internal/upgrade/apply.go:99-124 | Each Nise-owned file holds its planned content afterwards |
| `UpgradeTheorems.ManifestUpgraded` | internal/upgrade/apply.go:167-196 | Each manifest holds its bumped text afterwards unless a migration declares it removed |
| `UpgradeTheorems.PerformedAgainstReported` | internal/upgrade/apply.go:126-165 | The codemods performed are those reported less those in files removed, so the two lists agree exactly when no reported codemod is in a removed file |
| `UpgradeTheorems.RemovedFileStillReported` | internal/upgrade/apply.go:99-165 | An upgrade that reports a codemod in a file it removes, and does not perform it |
| `UpgradeTheorems.NoVersionMovesBackwards` | internal/upgrade/dependencies.go:101-123 | Along any run of upgrades, by any versions of nise, a manifest keeps its requirements, each only moved forward, and its text but for white space behind package.json entries |
| `Commands.FindByName` | internal/cli/resolve.go:67-74 | The first command of that name, or none has it |
| `Commands.ResolveCommand` | internal/cli/resolve.go:30-65 | The loop descends as far as the arguments name commands, and fails within a group without an action of its own |
| `Commands.ResolvedIff` | internal/cli/resolve.go:30-65 | Resolution ends at the command the longest run of words names, with the rest as its arguments, and fails exactly when the first word names nothing or a word names none of the commands a mere group holds |
| `GlobalFlags.ExtractGlobalFlags` | internal/cli/dispatch.go:258-284 | The loop computes the blind pass |
| `GlobalFlags.ExtractGlobalFlagsAware` | internal/cli/dispatch.go:415-453 | The loop computes the aware pass |
| `GlobalFlags.ValueConsumingFlagNames` | internal/cli/dispatch.go:357-369 | Exactly the flags that are not boolean |
| `GlobalFlags.ReservedFlagCollisions` | internal/cli/dispatch.go:311-323 | Exactly the reserved names the command defines, sorted; none exactly when it does not collide |
| `GlobalFlags.BlindSubsequence` | internal/cli/dispatch.go:258-284 | The blind pass drops arguments and reorders none |
| `GlobalFlags.AwareSubsequence` | internal/cli/dispatch.go:415-453 | The aware pass drops arguments and reorders none |
| `GlobalFlags.BlindKeepsFromDashes` | internal/cli/dispatch.go:248-284 | Exactly the reserved spellings before the first "--" are taken out, and everything from it on is kept |
| `GlobalFlags.SpellingsAreReserved` | internal/cli/dispatch.go:375-390 | Every reserved spelling reads as a flag of a reserved name |
| `GlobalFlags.SpellingsMean` | internal/cli/dispatch.go:225-284 | Each global flag has the one spelling the command line documents, and help two |
| `GlobalFlags.PassesAgreeIff` | internal/cli/dispatch.go:392-453 | Both passes leave the same arguments exactly when no value of the command's flags is spelled like a global flag, nor is a "--" with something behind it to be taken out |
| `GlobalFlags.NothingTakenIff` | internal/cli/dispatch.go:415-453 | The aware pass leaves its arguments as they are exactly when only values are spelled like global flags before a "--" |
| `Dispatch.CommandPathAgrees` | internal/cli/dispatch.go:410-414 | Whatever the blind arguments resolve to or fail on, the aware ones do too, with the same leaf and path |
| `Dispatch.Execute` | internal/cli/dispatch.go:61-195 | One outcome per argument list; the second resolution never fails |
| `Dispatch.OutcomeOfSpellings` | internal/cli/dispatch.go:61-195 | What the tokens before a "--" bring about: quiet with verbose is refused, the version alias gives way to help, and a command without value flags runs with exactly the flags spelled |
| `Dispatch.IntendedIff` | internal/cli/dispatch.go:61-180 | For every invocation that names a command without colliding flags: its outcome is the one called for when values are left to their own flags exactly when the early checks decide alike on both sets of flags and, if it runs, the sets differ or no value was mistaken |
| `Dispatch.RunsWithAwareArgumentsIff` | internal/cli/dispatch.go:149-180 | A command that does run does so with the aware arguments exactly when the flags found differ or no value was mistaken for a global flag or for the end of the flags |
| `Dispatch.VersionShownInstead` | internal/cli/dispatch.go:83-91 | An invocation whose value is taken for the version flag, so that the command never runs |
| `Dispatch.ValueLost` | internal/cli/dispatch.go:149-180 | An invocation whose command loses the value of its flag |
| `Dispatch.FlagKeptBehindDashes` | internal/cli/dispatch.go:149-180 | An invocation whose command receives a global flag behind a value "--" as an argument |
| `Forwarded.NewPolicy` | runtime/forwarded/policy.go:68-84 | A policy is accepted exactly with 0 to 8 hops and usable networks, which need a hop |
| `Forwarded.NthFromRightOf` | runtime/forwarded/policy.go:203-222 | The flattened entry that many places from the right, or nothing past a limit |
| `Forwarded.ReadWithinLimits` | runtime/forwarded/policy.go:203-222 | A list is read exactly within 4096 bytes a line and 64 entries in all, when it is long enough |
| `Forwarded.EntriesOfLine` | runtime/forwarded/policy.go:205-216 | Commas part the entries of a line, and the blank space around one is not part of it |
| `Forwarded.Resolve` | runtime/forwarded/policy.go:151-176 | The edge view is direct unless a permitted peer and a long enough header say otherwise |
| `Forwarded.NewLineAppends` | runtime/forwarded/policy.go:195-202 | A proxy that adds a header line appends one entry |
| `Forwarded.SameLineAppends` | runtime/forwarded/policy.go:195-202 | A proxy that continues the last line after a comma appends one entry |
| `Forwarded.NthAlongTrail` | runtime/forwarded/policy.go:197-222 | Counting from the right finds what the proxy that many from the last wrote, and with more hops than proxies an entry the client sent or nothing |
| `Forwarded.NthIsOutermost` | runtime/forwarded/policy.go:197-222 | Counting from the right by the number of proxies finds what the outermost wrote, whatever the client sent |
| `Forwarded.ClientIsPeerOfOutermostProxy` | runtime/forwarded/policy.go:151-222 | The client address is the peer the outermost proxy saw, trusted, exactly when the peer is permitted and the limits hold; otherwise the direct peer, untrusted |
| `Forwarded.ClientAlongProxies` | runtime/forwarded/policy.go:151-222 | For any number of proxies and declared hops, which peer the client address is, when it comes from the client's own text, and when it is the direct peer |
| `Forwarded.TrustedIff` | runtime/forwarded/policy.go:151-195 | Headers are believed exactly with declared hops, a peer inside a declared network if there are any, and a chain long enough; otherwise the answer is the connection's own |
| `Forwarded.SchemeAndHostOfOutermostProxy` | runtime/forwarded/policy.go:168-175 | A trusted answer has the scheme and host the outermost proxy wrote, where they can be read |
| `Forwarded.SchemeMeans` | runtime/forwarded/policy.go:262-271 | A scheme is its name in either case, and nothing else |
| `Forwarded.HostMeans` | runtime/forwarded/policy.go:273-289 | A host of at most 255 bytes is taken if it holds only letters, digits and ".-:[]" |
| `Forwarded.AddressMeans` | runtime/forwarded/policy.go:234-257 | An entry is read as an address, an address with a port, or a host with a port, in that order; the peer address with its port first |
| `Base32.DecodeEncoded` | modules/totp/totp.go:119-124 | Every byte string reads back from its unpadded base32 form (section 6 of RFC 4648) |
| `Base32.AlphabetOrder` | modules/totp/totp.go:119-124 | The letters are those of the standard alphabet in its order |
| `Base32.BlockIsBits` | modules/totp/totp.go:119-124 | Eight letters are the same forty bits as their five bytes |
| `Base32.ReadableIff` | modules/totp/totp.go:83-92 | Exactly the texts of letters and line breaks are read |
| `Base32.BreaksSkipped` | modules/totp/totp.go:83-92 | A line break anywhere changes nothing in what is read |
| `Totp.ParseSecretOfPrinted` | modules/totp/totp.go:83-124 | A secret is read back from its printed form and from any retyping of it in either case with separators |
| `Totp.RetypingMeans` | modules/totp/totp.go:84 | Letters are read in either case; blanks, hyphens and padding are passed over |
| `Totp.ComputeCode` | modules/totp/totp.go:176-202 | The code of a step, refused for an empty secret or a step before the epoch |
| `Totp.CodeIsTruncatedValue` | modules/totp/totp.go:190-201 | The truncation (section 5.3 of RFC 4226) is in bounds and the six digits read back as its value modulo a million |
| `Totp.CodeOfHash` | modules/totp/totp.go:176-202 | The code is the four bytes that the hash of the big-endian counter points at, without their top bit, modulo a million |
| `Totp.PowerOfTen` | modules/totp/totp.go:205-211 | Ten to the n is exact in 32 bits |
| `Totp.NormalizeShown` | modules/totp/totp.go:219-230 | A code is read through blanks around it and a gap inside it |
| `Totp.Verify` | modules/totp/totp.go:243-271 | Accepts exactly when the window lies after the epoch and some step in it shows the code, and returns the latest such step |
| `Totp.StepSpans` | modules/totp/totp.go:252-256 | A step is thirty seconds long |
| `Totp.OwnCodeAccepted` | modules/totp/totp.go:232-271 | A step's code is accepted throughout the window around it exactly when the window lies after the epoch |
| `Totp.NearEpochRefused` | modules/totp/totp.go:252-263 | A moment at which the current code is refused |
| `RecoveryCodes.NewRecoveryCode` | modules/totp/recovery.go:64-81 | Ten alphabet characters in two groups of five |
| `RecoveryCodes.CodesAgreeIff` | modules/totp/recovery.go:64-81 | Two codes agree exactly when their random bytes agree modulo 32 |
| `RecoveryCodes.ParseRecoveryCode` | modules/totp/recovery.go:90-122 | The cleaned characters, checked and grouped again |
| `RecoveryCodes.FoldMeans` | modules/totp/recovery.go:90-106 | I and L are read as 1, O as 0, every other letter in upper case; hyphens and blanks are passed over |
| `RecoveryCodes.GroupedTen` | modules/totp/recovery.go:72-80 | Two groups of five with a hyphen between |
| `RecoveryCodes.ParsedIff` | modules/totp/recovery.go:83-122 | A submission is read as a code exactly when, trimmed, it transcribes its ten characters |
| `RecoveryCodes.ParseInvertsPrinting` | modules/totp/recovery.go:64-122 | Reading a printed code gives it back |
| `RecoveryCodes.TranscriptionKeepsDigest` | modules/totp/recovery.go:127-144 | Every transcription that is read has the digest of the code itself |

## Left out

- Processes, signals, files, sockets, timers and clocks: a child obeys the Process contract, a project is a map from path to content, and time is a number that does not decrease.
- HMAC, SHA-1, SHA-256 and JSON: parameters, with only the laws named where they are used; no cryptographic claim is made, and tokens are not claimed to have a unique spelling.
- Liveness: progress and bounds on the number of steps are stated, not fairness or time; a loop that ignores its context, or a build that hangs, is not ruled out.
- Lifecycle: Run is called once per Worker, as the code demands of its callers, and every component of a Group is modelled as a Worker, so the HTTP server's own Run and Shutdown are not part of this model.
- Weak memory: each locked section, channel operation and atomic load, store or swap is one step, in the order Go's memory model gives them.
- DevLoop.NoDetectedChangeLost: covers changes the watcher detects, so not edits before its first sweep; what a sweep reads from disk is not modelled.
- Supervisor timers: a fired timer whose tick was not received may report either answer to Stop, so both are modelled.
- Histograms.QuiescentHistogram: says nothing about a scrape in the middle of an Observe, when one bucket may be updated and a later one not.
- Histogram sums: exact real numbers; the accumulator is stated for any addition, so it covers floating point as it is, and the metrics text is stated for any injective number format.
- Registry, HTTP handlers, gauges sampled at scrape time: only what is written is modelled, not when it is read or a value is sampled.
- MetricsText.TextsAgreeIff: requires metric and label names a reader can tell from what is around them, which registration does not check; the writer itself is stated for all names.
- ParsePage, ParseKey and GenerateKey: branch-by-branch parsing around the parts that are modelled.
- Key and Secret redaction, logging and error wording: results name the sentinel error, not its text.
- UpgradeApply.Project.PlanFileChanges: a file is present with its content or absent; one that cannot be read, which the code reports as an update, is not modelled.
- UpgradeApply.Project.PlanCodemods: read failures are not modelled, and of matches in one file under one description, which the sort may leave in any order, the order found is kept.
- UpgradeApply.Project.Plan: the report's next steps and failing reads of the manifests are not modelled.
- UpgradeApply.Project.Apply: failing writes, directories, file modes, symbolic links and the path confinement of os.Root are not modelled; so a declared removal of "..", which planning accepts and os.Root would refuse, removes nothing here.
- Generator and recipe packages: rendering and encoding are parameters; their laws are that a plan names each path once, that planning succeeds for every project or for none, that Nise-owned files do not depend on the project's name or module path, that the planned recipe is the encoded one, and that decoding inverts encoding.
- Recipe written last: the recipe is itself a Nise-owned planned file, so the first step already writes it; no order between it and the rest is claimed. Nor is a project claimed to be up to date after Apply, since notes about pins that are ahead remain.
- UpgradeTheorems.ChangesAreAccountedFor: declared removals are checked by the code against Nise-owned plans only, so a removal may name an application file; the statement then accounts for it as the removal.
- Help rendering, terminal output, the flag package's own parsing and the leaf's Run: dispatch ends with the command and the arguments it is given.
- Forwarded: netip parsing, ParseNetworks and Unicode white space are parameters or left out; a header entry is only ever trimmed of ASCII blanks here.
- Totp: random secrets, provisioning URIs, constant-time comparison and upper-casing of letters outside ASCII.
- internal/check, internal/doctor, cmd, runtime/authz, runtime/config, runtime/health and the HTTP server's drain order: reporting, input and output, or properties one branch settles.
