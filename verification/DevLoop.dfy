/**
 The dev loop as a transition system: the polling watcher and its one-slot channel
 (internal/dev/watch.go), the debouncing supervisor (internal/dev/supervisor.go), the settle
 timer, the build, and the child processes, interleaved step by step. A child obeys the
 Process contract: Stop returns only after it is gone, and its exit is reported once on the
 channel made for it (internal/dev/process.go).
 */
module DevLoop {
  import opened Wrappers
  import opened SupervisorState
  import opened Watch

  /** Whether the child's exit value has been put in its channel, and taken from it. */
  datatype Notice = Absent | Pending | Taken

  datatype Child = Child(alive: bool, notice: Notice)

  /** Where Supervisor.Run stands; restart tells the first build from the later ones. */
  datatype At =
    | Booting
    | InBuild(restart: bool)
    | Built(restart: bool)
    | Spawning
    | Selecting
    | TookChange
    | TookSettle
    | Leaving
    | Gone

  /**
   previous is the watcher's last snapshot, token whether the channel holds a value. owed
   records that the watcher has detected a change since the last build began; the code has no
   such variable, the safety statement is about it.
   */
  datatype State = State(
    hasBuild: bool,
    previous: Option<Snapshot>,
    token: bool,
    owed: bool,
    canceled: bool,
    at: At,
    locals: Locals,
    children: seq<Child>)

  datatype Step =
    | Sweep(next: Snapshot)
    | Cancel
    | TimerFires
    | ChildExits(k: nat)
    | WaitReturns(k: nat)
    | BeginBuild
    | BuildSucceeds
    | BuildFails
    | StopOld
    | StartSucceeds
    | StartFails
    | TakeChange
    | HandleChange(stopCaught: bool)
    | TakeSettle
    | TakeExit
    | TakeDone
    | FinalStop

  function Initial(hasBuild: bool): State {
    State(hasBuild, None, false, false, false, Booting, NoChild, [])
  }

  predicate Enabled(s: State, step: Step) {
    match step
    case Sweep(_) => true
    case Cancel => true
    case TimerFires => s.locals.timer == Armed
    case ChildExits(k) => k < |s.children| && s.children[k].alive
    case WaitReturns(k) => k < |s.children| && !s.children[k].alive && s.children[k].notice == Absent
    case BeginBuild => s.at == Booting || s.at == TookSettle
    case BuildSucceeds => s.at.InBuild?
    case BuildFails => s.at.InBuild? && s.hasBuild
    case StopOld => s.at.Built?
    case StartSucceeds => s.at == Spawning
    case StartFails => s.at == Spawning
    case TakeChange => s.at == Selecting && s.token
    case HandleChange(stopCaught) => s.at == TookChange && (s.locals.timer == Armed ==> stopCaught)
    case TakeSettle => s.at == Selecting && s.locals.timer == Fired
    case TakeExit => s.at == Selecting && s.locals.exited.Some? && s.locals.exited.value < |s.children|
      && s.children[s.locals.exited.value].notice == Pending
    case TakeDone => s.at == Selecting && s.canceled
    case FinalStop => s.at == Leaving
  }

  /** One sweep: the first only remembers; a later one that differs offers the channel a token. */
  function Swept(s: State, next: Snapshot): State {
    if s.previous == None || s.previous == Some(next) then s.(previous := Some(next))
    else s.(previous := Some(next), token := true, owed := true)
  }

  function BuildBegun(s: State): State {
    var l := if s.at == TookSettle then s.locals.Disarm().Emit(Restarting) else s.locals;
    s.(owed := false, at := InBuild(s.at == TookSettle), locals := if s.hasBuild then l.Emit(Building) else l)
  }

  /** Process.Stop's contract: whatever it reports, the child is gone when it returns. */
  function ChildStopped(s: State): State {
    var gone := match s.locals.current
      case Some(k) => if k < |s.children| then s.children[k := s.children[k].(alive := false)] else s.children
      case None => s.children;
    s.(children := gone, locals := s.locals.Stop())
  }

  function Do(s: State, step: Step): State
    requires Enabled(s, step)
  {
    match step
    case Sweep(next) => Swept(s, next)
    case Cancel => s.(canceled := true)
    case TimerFires => s.(locals := s.locals.(timer := Fired))
    case ChildExits(k) => s.(children := s.children[k := s.children[k].(alive := false)])
    case WaitReturns(k) => s.(children := s.children[k := s.children[k].(notice := Pending)])
    case BeginBuild => BuildBegun(s)
    case BuildSucceeds => s.(at := Built(s.at.restart))
    case BuildFails => s.(at := Selecting, locals := s.locals.Emit(BuildFailed))
    case StopOld => if s.at.restart then ChildStopped(s).(at := Spawning) else s.(at := Spawning)
    case StartSucceeds =>
      s.(at := Selecting, locals := s.locals.Spawn(|s.children|), children := s.children + [Child(true, Absent)])
    case StartFails => s.(at := Leaving)
    case TakeChange => s.(at := TookChange, token := false)
    case HandleChange(stopCaught) => s.(at := Selecting, locals := s.locals.OnChange(stopCaught))
    case TakeSettle => s.(at := TookSettle)
    case TakeExit =>
      var k := s.locals.exited.value;
      s.(children := s.children[k := s.children[k].(notice := Taken)], locals := s.locals.OnExit(k))
    case TakeDone => s.(at := Leaving)
    case FinalStop => ChildStopped(s.(locals := s.locals.Disarm())).(at := Gone)
  }

  // ----- the invariant -----

  /** Every detected change is still on its way to a build. */
  predicate NothingLost(s: State) {
    s.owed && s.at != Leaving && s.at != Gone ==>
      s.token || s.at == TookChange || s.locals.timer != Unarmed
  }

  /** The held child's exit channel is the one listened to, and nothing else is. */
  predicate OneHeld(s: State) {
    && s.locals.current == s.locals.exited
    && (s.locals.current.Some? ==> s.locals.current.value < |s.children|)
  }

  /** Only the child the supervisor holds can be alive. */
  predicate OneAlive(s: State) {
    forall k :: 0 <= k < |s.children| && s.children[k].alive ==> s.locals.current == Some(k)
  }

  /** An exit is reported only after it happened. */
  predicate ExitsInOrder(s: State) {
    forall k :: 0 <= k < |s.children| && s.children[k].notice != Absent ==> !s.children[k].alive
  }

  /** The exit of the held child has not been taken yet. */
  predicate ExitToCome(s: State) {
    s.locals.exited.Some? && s.locals.exited.value < |s.children| ==>
      s.children[s.locals.exited.value].notice != Taken
  }

  predicate HoldsNone(at: At) {
    match at
    case InBuild(restart) => !restart
    case Built(restart) => !restart
    case _ => at == Booting || at == Spawning || at == Gone
  }

  /** Before the first child, just before starting one, and at the end, none is held. */
  predicate Empty(s: State) {
    HoldsNone(s.at) ==> s.locals.current == None
  }

  predicate TimerUse(s: State) {
    && (s.at == TookSettle ==> s.locals.timer == Fired)
    && (s.at == Booting || s.at.InBuild? || s.at.Built? || s.at == Spawning || s.at == Gone ==>
        s.locals.timer == Unarmed)
  }

  predicate Inv(s: State) {
    && NothingLost(s) && TimerUse(s)
    && OneHeld(s) && OneAlive(s) && ExitsInOrder(s) && ExitToCome(s) && Empty(s)
    && Owned(s.locals)
  }

  lemma StepKeepsPending(s: State, step: Step)
    requires NothingLost(s) && TimerUse(s) && Enabled(s, step)
    ensures NothingLost(Do(s, step))
  {
  }

  lemma StepKeepsTimer(s: State, step: Step)
    requires TimerUse(s) && Enabled(s, step)
    ensures TimerUse(Do(s, step))
  {
  }

  lemma StepKeepsEmpty(s: State, step: Step)
    requires Empty(s) && Enabled(s, step)
    ensures Empty(Do(s, step))
  {
  }

  lemma StepKeepsHeld(s: State, step: Step)
    requires OneHeld(s) && Enabled(s, step)
    ensures OneHeld(Do(s, step))
  {
  }

  lemma StoppingLeavesNone(s: State)
    requires OneHeld(s) && OneAlive(s)
    ensures forall k :: 0 <= k < |ChildStopped(s).children| ==> !ChildStopped(s).children[k].alive
  {
  }

  lemma StepKeepsAlive(s: State, step: Step)
    requires OneHeld(s) && OneAlive(s) && ExitsInOrder(s) && Empty(s) && Enabled(s, step)
    ensures OneAlive(Do(s, step))
  {
    if step.StopOld? || step.FinalStop? {
      StoppingLeavesNone(s);
      StoppingLeavesNone(s.(locals := s.locals.Disarm()));
    }
  }

  lemma StepKeepsOrder(s: State, step: Step)
    requires ExitsInOrder(s) && Enabled(s, step)
    ensures ExitsInOrder(Do(s, step))
  {
  }

  lemma StepKeepsExitToCome(s: State, step: Step)
    requires OneHeld(s) && ExitToCome(s) && Enabled(s, step)
    ensures ExitToCome(Do(s, step))
  {
  }

  /** What beginning a build logs: the restart, if it is one, and the build, if there is one. */
  lemma BeginBuildLogs(s: State)
    requires Enabled(s, BeginBuild)
    ensures var l := if s.at == TookSettle then s.locals.Disarm().Emit(Restarting) else s.locals;
            Do(s, BeginBuild).locals == if s.hasBuild then l.Emit(Building) else l
  {
  }

  lemma BuildFailsOwned(s: State)
    requires Enabled(s, BuildFails) && Owned(s.locals)
    ensures Owned(Do(s, BuildFails).locals)
  {
    EmitKeepsOwner(s.locals, BuildFailed);
  }

  lemma StartOwned(s: State)
    requires Enabled(s, StartSucceeds) && Owned(s.locals) && Empty(s)
    ensures Owned(Do(s, StartSucceeds).locals)
  {
    SpawnKeepsOwner(s.locals, |s.children|);
  }

  lemma ExitOwned(s: State)
    requires Enabled(s, TakeExit) && Owned(s.locals) && OneHeld(s)
    ensures Owned(Do(s, TakeExit).locals)
  {
    ExitKeepsOwner(s.locals);
  }

  lemma StopOwned(s: State)
    requires Owned(s.locals)
    ensures Enabled(s, StopOld) ==> Owned(Do(s, StopOld).locals)
    ensures Enabled(s, FinalStop) ==> Owned(Do(s, FinalStop).locals)
  {
    StopKeepsOwner(s.locals);
    StopKeepsOwner(s.locals.Disarm());
  }

  /** The steps that log nothing and change no child held. */
  predicate LogsNothing(step: Step) {
    !(step.BeginBuild? || step.BuildFails? || step.StartSucceeds? || step.TakeExit? || step.StopOld? || step.FinalStop?)
  }

  lemma SilentOwned(s: State, step: Step)
    requires Enabled(s, step) && LogsNothing(step)
    ensures Do(s, step).locals.log == s.locals.log && Do(s, step).locals.current == s.locals.current
  {
  }

  lemma InitialInv(hasBuild: bool)
    ensures Inv(Initial(hasBuild))
  {
  }

  /** Every step, from any state satisfying the invariant, keeps it. */
  lemma StepKeepsInv(s: State, step: Step)
    requires Inv(s) && Enabled(s, step)
    ensures Inv(Do(s, step))
  {
    hide Do, Enabled, NothingLost, TimerUse, OneHeld, OneAlive, ExitsInOrder, ExitToCome, Empty, Owner;
    StepKeepsPending(s, step);
    StepKeepsTimer(s, step);
    StepKeepsHeld(s, step);
    StepKeepsAlive(s, step);
    StepKeepsOrder(s, step);
    StepKeepsExitToCome(s, step);
    StepKeepsEmpty(s, step);
    match step {
      case BeginBuild =>
        BeginBuildLogs(s);
        EmitKeepsOwner(s.locals, Building);
        EmitKeepsOwner(s.locals.Disarm(), Restarting);
        EmitKeepsOwner(s.locals.Disarm().Emit(Restarting), Building);
      case BuildFails => BuildFailsOwned(s);
      case StartSucceeds => StartOwned(s);
      case TakeExit => ExitOwned(s);
      case StopOld => StopOwned(s);
      case FinalStop => StopOwned(s);
      case _ => SilentOwned(s, step);
    }
  }

  // ----- runs -----

  ghost predicate Follows(s: State, s': State) {
    exists step :: Enabled(s, step) && s' == Do(s, step)
  }

  ghost predicate IsRun(run: seq<State>, hasBuild: bool) {
    && run != [] && run[0] == Initial(hasBuild)
    && forall i :: 0 <= i < |run| - 1 ==> Follows(run[i], run[i + 1])
  }

  lemma {:induction false} RunKeepsInv(run: seq<State>, hasBuild: bool, i: nat)
    requires IsRun(run, hasBuild) && i < |run|
    ensures Inv(run[i])
  {
    hide Do, Enabled, Inv, Initial;
    if i == 0 {
      InitialInv(hasBuild);
    } else {
      RunKeepsInv(run, hasBuild, i - 1);
      assert Follows(run[i - 1], run[i]);
      var step :| Enabled(run[i - 1], step) && run[i] == Do(run[i - 1], step);
      StepKeepsInv(run[i - 1], step);
    }
  }

  /** The child held and the exit channel listened to belong together in every state. */
  lemma HeldIsListenedTo(run: seq<State>, hasBuild: bool, i: nat)
    requires IsRun(run, hasBuild) && i < |run|
    ensures run[i].locals.current == run[i].locals.exited
    ensures run[i].locals.exited.Some? ==>
              && run[i].locals.exited.value < |run[i].children|
              && run[i].children[run[i].locals.exited.value].notice != Taken
  {
    RunKeepsInv(run, hasBuild, i);
  }

  /**
   No detected change is lost: before the supervisor leaves, a change detected since the last
   build began is still in the channel, just taken from it, or behind a timer that is armed or
   has fired and not been handled.
   */
  lemma NoDetectedChangeLost(run: seq<State>, hasBuild: bool, i: nat)
    requires IsRun(run, hasBuild) && i < |run| && run[i].at != Leaving && run[i].at != Gone
    requires run[i].owed
    ensures run[i].token || run[i].at == TookChange || run[i].locals.timer != Unarmed
  {
    RunKeepsInv(run, hasBuild, i);
  }

  /** At most one child is ever alive, and it is the one the supervisor holds. */
  lemma AtMostOneAlive(run: seq<State>, hasBuild: bool, i: nat, j: nat, k: nat)
    requires IsRun(run, hasBuild) && i < |run| && j < |run[i].children| && k < |run[i].children|
    requires run[i].children[j].alive && run[i].children[k].alive
    ensures j == k && run[i].locals.current == run[i].locals.exited == Some(j)
  {
    RunKeepsInv(run, hasBuild, i);
  }

  /** Once Run has returned, whichever way it left, no child is alive. */
  lemma NoneSurvives(run: seq<State>, hasBuild: bool, i: nat, k: nat)
    requires IsRun(run, hasBuild) && i < |run| && run[i].at == Gone && k < |run[i].children|
    ensures !run[i].children[k].alive
  {
    RunKeepsInv(run, hasBuild, i);
  }

  /**
   In the log of any run, between two consecutive Started events there is exactly one Stopped
   or Exited; it names the child the first one started, and an exit is charged to that child.
   */
  lemma EventsAlternate(run: seq<State>, hasBuild: bool, i: nat, a: nat, b: nat)
    requires IsRun(run, hasBuild) && i < |run|
    requires var log := run[i].locals.log;
             a < b < |log| && log[a].Started? && log[b].Started? && forall k :: a < k < b ==> !log[k].Started?
    ensures var log := run[i].locals.log;
            exists end :: a < end < b && EndsChild(log[end], log[a].child)
                          && forall k :: a < k < b && k != end ==> !Ends(log[k])
  {
    RunKeepsInv(run, hasBuild, i);
    OneEndBetweenStarts(run[i].locals.log, a, b);
  }

  /** Once Run has returned, every child started is ended in the log. */
  lemma EveryChildAccountedFor(run: seq<State>, hasBuild: bool, i: nat, a: nat)
    requires IsRun(run, hasBuild) && i < |run| && run[i].at == Gone
    requires a < |run[i].locals.log| && run[i].locals.log[a].Started?
    ensures var log := run[i].locals.log;
            exists end :: a < end < |log| && EndsChild(log[end], log[a].child)
  {
    RunKeepsInv(run, hasBuild, i);
    EveryStartEnded(run[i].locals.log, a);
  }

  /** From taking the settled change to a failed build's return to the loop. */
  predicate Rebuilding(at: At) {
    at == TookSettle || at == InBuild(true)
  }

  /** s' holds the child s holds, and has emitted nothing since that ends one. */
  predicate Holds(s: State, s': State) {
    && s'.locals.current == s.locals.current && s'.locals.exited == s.locals.exited
    && |s'.children| == |s.children|
    && SparesChild(s.locals.log, s'.locals.log)
  }

  lemma QuietStep(s: State, step: Step)
    requires Enabled(s, step) && Rebuilding(s.at) && !step.BeginBuild? && !step.BuildFails?
    ensures var s' := Do(s, step);
            s'.locals.(timer := s.locals.timer) == s.locals && |s'.children| == |s.children|
  {
  }

  lemma BuildBegunHolds(s: State)
    ensures Holds(s, BuildBegun(s))
  {
  }

  lemma RebuildStepHolds(s: State, s': State)
    requires Follows(s, s') && Rebuilding(s.at) && (Rebuilding(s'.at) || s'.at == Selecting)
    ensures Holds(s, s')
  {
    var step :| Enabled(s, step) && s' == Do(s, step);
    if step.BeginBuild? {
      BuildBegunHolds(s);
    } else if step.BuildFails? {
    } else {
      QuietStep(s, step);
    }
  }

  lemma HoldsTransitive(a: State, b: State, c: State)
    requires Holds(a, b) && Holds(b, c)
    ensures Holds(a, c)
  {
    forall k | |a.locals.log| <= k < |c.locals.log| ensures !Ends(c.locals.log[k]) {
      if k < |b.locals.log| {
        assert c.locals.log[k] == b.locals.log[k];
      }
    }
  }

  lemma {:induction false} HoldsAlong(run: seq<State>, i: nat, j: nat)
    requires i <= j < |run| && forall k :: i <= k < j ==> Holds(run[k], run[k + 1])
    ensures Holds(run[i], run[j])
    decreases j
  {
    if i < j {
      HoldsAlong(run, i, j - 1);
      HoldsTransitive(run[i], run[j - 1], run[j]);
    }
  }

  /**
   A rebuild that fails leaves the previous child in place: through the whole of it the
   supervisor holds the same child and emits nothing that ends it.
   */
  lemma {:induction false} FailedRebuildKeepsChild(run: seq<State>, hasBuild: bool, i: nat, j: nat)
    requires IsRun(run, hasBuild) && i <= j < |run|
    requires forall k :: i <= k < j ==> Rebuilding(run[k].at)
    requires Rebuilding(run[j].at) || run[j].at == Selecting
    ensures Holds(run[i], run[j])
  {
    forall k | i <= k < j ensures Holds(run[k], run[k + 1]) {
      RebuildStepHolds(run[k], run[k + 1]);
    }
    HoldsAlong(run, i, j);
  }

  /** The only step of a rebuild that ends a child is the child exiting by itself. */
  lemma RebuildStepsSpareChildren(s: State, step: Step, k: nat)
    requires Inv(s) && Enabled(s, step) && Rebuilding(s.at) && k < |s.children| && s.children[k].alive
    ensures |Do(s, step).children| == |s.children|
    ensures !Do(s, step).children[k].alive ==> step == ChildExits(k)
  {
  }

  /** A build that fails ends nothing: the supervisor is back in its select with the child it had. */
  lemma FailedBuildReturns(s: State)
    requires Enabled(s, BuildFails)
    ensures var s' := Do(s, BuildFails);
            && s'.at == Selecting && s'.children == s.children
            && s'.locals.current == s.locals.current && s'.locals.exited == s.locals.exited
            && s'.locals.log == s.locals.log + [BuildFailed]
  {
  }

  /**
   What is owed is a change: it becomes owed exactly when a sweep differs from the one before, which also fills
   the channel, and stays owed until a build begins.
   */
  lemma OwedMeans(s: State, step: Step)
    requires Enabled(s, step)
    ensures var s' := Do(s, step);
            var detected := step.Sweep? && s.previous.Some? && s.previous.value != step.next;
            && (s'.owed <==> detected || (s.owed && step != BeginBuild))
            && (detected ==> s'.token)
            && (step.Sweep? ==> s'.previous == Some(step.next))
            && (s.token && !s'.token ==> step == TakeChange && s'.at == TookChange)
  {
  }

  // ----- progress -----

  /** The steps of the supervisor itself, and of the build it waits for. */
  predicate Own(step: Step) {
    !(step.Sweep? || step.Cancel? || step.TimerFires? || step.ChildExits? || step.WaitReturns?)
  }

  /** The supervisor waits in its select, with no change, tick, exit or cancellation to receive. */
  predicate Waiting(s: State) {
    && s.at == Selecting && !s.token && !s.canceled && s.locals.timer != Fired
    && (s.locals.exited.Some? && s.locals.exited.value < |s.children| ==>
          s.children[s.locals.exited.value].notice == Absent)
  }

  function NextOf(s: State): Step {
    match s.at
    case Booting => BeginBuild
    case InBuild(_) => BuildSucceeds
    case Built(_) => StopOld
    case Spawning => StartSucceeds
    case Selecting =>
      if s.canceled then TakeDone
      else if s.token then TakeChange
      else if s.locals.timer == Fired then TakeSettle
      else TakeExit
    case TookChange => HandleChange(true)
    case TookSettle => BeginBuild
    case Leaving => FinalStop
    case Gone => FinalStop
  }

  /**
   The supervisor is never stuck: until it has returned it can take a step of its own or is
   waiting for something to happen, and it waits while a change is owed only with the settle
   timer running.
   */
  lemma NeverStuck(run: seq<State>, hasBuild: bool, i: nat)
    requires IsRun(run, hasBuild) && i < |run| && run[i].at != Gone
    ensures if Waiting(run[i]) then run[i].owed ==> run[i].locals.timer == Armed
            else Own(NextOf(run[i])) && Enabled(run[i], NextOf(run[i]))
  {
    RunKeepsInv(run, hasBuild, i);
  }

  /** The shortest way from a state in which a change is owed to the build that includes it. */
  function TowardsBuild(s: State): Step {
    if s.at != Selecting then NextOf(s)
    else match s.locals.timer
      case Unarmed => TakeChange
      case Armed => TimerFires
      case Fired => TakeSettle
  }

  function StepsToBuild(s: State): nat {
    match s.at
    case Booting => 1
    case TookSettle => 1
    case Selecting => (match s.locals.timer case Fired => 2 case Armed => 3 case Unarmed => 5)
    case TookChange => 4
    case Spawning => 6
    case Built(_) => 7
    case InBuild(_) => 8
    case Leaving => 0
    case Gone => 0
  }

  lemma OneStepCloser(s: State)
    requires NothingLost(s) && s.owed && s.at != Leaving && s.at != Gone
    requires TimerUse(s)
    ensures Enabled(s, TowardsBuild(s))
    ensures var s' := Do(s, TowardsBuild(s));
            if TowardsBuild(s) == BeginBuild then s'.at.InBuild? && !s'.owed
            else s'.owed && s'.at != Leaving && s'.at != Gone && StepsToBuild(s') < StepsToBuild(s)
  {
  }

  /** The states are reached from s one step after the other. */
  ghost predicate GoesOn(s: State, more: seq<State>) {
    && (more != [] ==> Follows(s, more[0]))
    && forall k :: 0 <= k < |more| - 1 ==> Follows(more[k], more[k + 1])
  }

  lemma RunContinued(run: seq<State>, hasBuild: bool, i: nat, more: seq<State>)
    requires IsRun(run, hasBuild) && i < |run| && GoesOn(run[i], more)
    ensures IsRun(run[..i + 1] + more, hasBuild)
  {
    hide Follows;
    var longer := run[..i + 1] + more;
    forall k | 0 <= k < |longer| - 1 ensures Follows(longer[k], longer[k + 1]) {
      if k < i {
        assert Follows(run[k], run[k + 1]);
      } else if k > i {
        assert Follows(more[k - i - 1], more[k - i]);
      }
    }
  }

  /** The states are steps from s to the next build. */
  ghost predicate LeadsToBuild(s: State, more: seq<State>) {
    more != [] && GoesOn(s, more) && more[|more| - 1].at.InBuild? && !more[|more| - 1].owed
  }

  lemma StepsAtMostEight(s: State)
    ensures StepsToBuild(s) <= 8
    ensures s.at != Leaving && s.at != Gone ==> StepsToBuild(s) >= 1
  {
  }

  /** From any state in which a change is owed, the build that includes it can begin within eight steps. */
  lemma {:induction false} BuildCanFollow(s: State) returns (more: seq<State>)
    requires Inv(s) && s.owed && s.at != Leaving && s.at != Gone
    ensures LeadsToBuild(s, more) && |more| <= StepsToBuild(s) <= 8
    decreases StepsToBuild(s)
  {
    hide Do, Enabled, TowardsBuild, StepsToBuild, NothingLost, TimerUse, OneHeld, OneAlive, ExitsInOrder, ExitToCome,
         Empty, Owned;
    OneStepCloser(s);
    StepsAtMostEight(s);
    var step := TowardsBuild(s);
    var s' := Do(s, step);
    assert Follows(s, s');
    if step == BeginBuild {
      more := [s'];
    } else {
      StepKeepsInv(s, step);
      var rest := BuildCanFollow(s');
      more := [s'] + rest;
    }
  }

  /** In every run an owed change can still reach a build, until the supervisor leaves. */
  lemma OwedChangeReachesBuild(run: seq<State>, hasBuild: bool, i: nat) returns (more: seq<State>)
    requires IsRun(run, hasBuild) && i < |run| && run[i].owed && run[i].at != Leaving && run[i].at != Gone
    ensures LeadsToBuild(run[i], more) && |more| <= 8
    ensures IsRun(run[..i + 1] + more, hasBuild)
  {
    RunKeepsInv(run, hasBuild, i);
    more := BuildCanFollow(run[i]);
    RunContinued(run, hasBuild, i, more);
  }

  // ----- leaving -----

  /** The states are steps from s to Run's return. */
  ghost predicate LeadsToReturn(s: State, more: seq<State>) {
    more != [] && GoesOn(s, more) && more[|more| - 1].at == Gone
  }

  function StepsToReturn(s: State): nat {
    match s.at
    case Booting => 6
    case TookSettle => 6
    case InBuild(_) => 5
    case Built(_) => 4
    case Spawning => 3
    case TookChange => 3
    case Selecting => 2
    case Leaving => 1
    case Gone => 0
  }

  lemma OneStepToReturn(s: State)
    requires s.canceled && s.at != Gone
    ensures Enabled(s, NextOf(s))
    ensures var s' := Do(s, NextOf(s)); s'.canceled && StepsToReturn(s') < StepsToReturn(s) <= 6
  {
  }

  lemma {:induction false} ReturnCanFollow(s: State) returns (more: seq<State>)
    requires s.canceled && s.at != Gone
    ensures LeadsToReturn(s, more) && |more| <= StepsToReturn(s) <= 6
    decreases StepsToReturn(s)
  {
    hide Do, Enabled, NextOf, StepsToReturn;
    OneStepToReturn(s);
    var s' := Do(s, NextOf(s));
    assert Follows(s, s');
    if s'.at == Gone {
      more := [s'];
    } else {
      var rest := ReturnCanFollow(s');
      more := [s'] + rest;
    }
  }

  lemma {:induction false} CanceledStays(run: seq<State>, hasBuild: bool, i: nat, j: nat)
    requires IsRun(run, hasBuild) && i <= j < |run| && run[i].canceled
    ensures run[j].canceled
    decreases j - i
  {
    if i < j {
      assert Follows(run[i], run[i + 1]);
      CanceledStays(run, hasBuild, i + 1, j);
    }
  }

  /** In every run, at any time after the context was canceled, Run is at most six steps from its return. */
  lemma CanceledRunReturns(run: seq<State>, hasBuild: bool, i: nat, j: nat) returns (more: seq<State>)
    requires IsRun(run, hasBuild) && i < j < |run| && run[i + 1] == Do(run[i], Cancel) && run[j].at != Gone
    ensures LeadsToReturn(run[j], more) && |more| <= 6
    ensures IsRun(run[..j + 1] + more, hasBuild)
  {
    CanceledStays(run, hasBuild, i + 1, j);
    more := ReturnCanFollow(run[j]);
    RunContinued(run, hasBuild, j, more);
  }
}
