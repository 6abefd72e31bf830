/**
 The variables Supervisor.Run's closures share (internal/dev/supervisor.go) and what each
 closure does to them, once as functions and once as an object updated in place.
 */
module SupervisorState {
  import opened Wrappers

  /** The settle timer: none, running, or fired with its tick not yet handled. */
  datatype Timer = Unarmed | Armed | Fired

  /** The events, in the order emitted; a child is named by the order it was started in. */
  datatype Event =
    | Building
    | BuildFailed
    | Restarting
    | Started(child: nat)
    | Stopped(child: nat)
    | Exited(pid: Option<nat>, of: nat)

  datatype Locals = Locals(current: Option<nat>, exited: Option<nat>, timer: Timer, log: seq<Event>) {

    function Emit(e: Event): Locals {
      this.(log := log + [e])
    }

    /** The stop closure: nothing without a child, otherwise stop it and forget it. */
    function Stop(): Locals {
      if current == None then this
      else Emit(Event.Stopped(current.value)).(current := None, exited := None)
    }

    /** The spawn closure once Runner.Start has succeeded. */
    function Spawn(child: nat): Locals {
      this.(current := Some(child), exited := Some(child)).Emit(Started(child))
    }

    function Disarm(): Locals {
      this.(timer := Unarmed)
    }

    /**
     The arm that receives a change. A fired timer whose tick has not been received may or may
     not report that Stop caught it, so the answer is a parameter.
     */
    function OnChange(stopCaught: bool): Locals {
      if timer == Unarmed || stopCaught then this.(timer := Armed) else this
    }

    /** The arm that receives an exit from the channel of child `of`. */
    function OnExit(of: nat): Locals {
      Emit(Exited(current, of)).(current := None, exited := None)
    }
  }

  const NoChild := Locals(None, None, Unarmed, [])

  // ----- what the event log says about the child -----

  /** The child the log leaves running; no answer once an event contradicts the ones before it. */
  function Owner(log: seq<Event>): Option<Option<nat>> {
    if log == [] then Some(None)
    else
      var before := Owner(log[..|log| - 1]);
      if before == None then None
      else match log[|log| - 1]
        case Started(k) => if before.value == None then Some(Some(k)) else None
        case Stopped(k) => if before.value == Some(k) then Some(None) else None
        case Exited(pid, of) => if before.value == Some(of) && pid == Some(of) then Some(None) else None
        case _ => before
  }

  lemma OwnerEmit(log: seq<Event>, e: Event)
    ensures Owner(log + [e]) ==
            var before := Owner(log);
            if before == None then None
            else match e
              case Started(k) => if before.value == None then Some(Some(k)) else None
              case Stopped(k) => if before.value == Some(k) then Some(None) else None
              case Exited(pid, of) => if before.value == Some(of) && pid == Some(of) then Some(None) else None
              case _ => before
  {
    assert (log + [e])[..|log|] == log;
  }

  /** The log agrees with the variables about which child is held. */
  predicate Owned(l: Locals) {
    Owner(l.log) == Some(l.current)
  }

  lemma EmitKeepsOwner(l: Locals, e: Event)
    requires Owned(l) && (e == Building || e == BuildFailed || e == Restarting)
    ensures Owned(l.Emit(e))
  {
    OwnerEmit(l.log, e);
  }

  lemma SpawnKeepsOwner(l: Locals, child: nat)
    requires Owned(l) && l.current == None
    ensures Owned(l.Spawn(child))
  {
    OwnerEmit(l.log, Started(child));
  }

  lemma StopKeepsOwner(l: Locals)
    requires Owned(l)
    ensures Owned(l.Stop())
  {
    if l.current.Some? {
      OwnerEmit(l.log, Event.Stopped(l.current.value));
    }
  }

  lemma ExitKeepsOwner(l: Locals)
    requires Owned(l) && l.exited.Some? && l.current == l.exited
    ensures Owned(l.OnExit(l.exited.value))
  {
    OwnerEmit(l.log, Exited(l.current, l.exited.value));
  }

  predicate Ends(e: Event) {
    e.Stopped? || e.Exited?
  }

  /** The event ends child a, and an exit is charged to the child it came from. */
  predicate EndsChild(e: Event, a: nat) {
    e == Event.Stopped(a) || e == Exited(Some(a), a)
  }

  lemma {:induction false} PrefixOwned(log: seq<Event>, n: nat)
    requires Owner(log).Some? && n <= |log|
    ensures Owner(log[..n]).Some?
    decreases |log| - n
  {
    if n < |log| {
      PrefixOwned(log, n + 1);
      OwnerEmit(log[..n], log[n]);
      assert log[..n + 1] == log[..n] + [log[n]];
    } else {
      assert log[..n] == log;
    }
  }

  /** From one start to the next, the child is ended exactly once. */
  lemma {:induction false} EndedOnce(log: seq<Event>, i: nat, j: nat) returns (end: int)
    requires Owner(log).Some? && i < j <= |log| && log[i].Started?
    requires forall k :: i < k < j ==> !log[k].Started?
    ensures end == -1 || i < end < j
    ensures forall k :: i < k < j && k != end ==> !Ends(log[k])
    ensures end != -1 ==> EndsChild(log[end], log[i].child)
    ensures Owner(log[..j]) == Some(if end == -1 then Some(log[i].child) else None)
  {
    PrefixOwned(log, j);
    PrefixOwned(log, j - 1);
    OwnerEmit(log[..j - 1], log[j - 1]);
    assert log[..j] == log[..j - 1] + [log[j - 1]];
    if j == i + 1 {
      end := -1;
    } else {
      end := EndedOnce(log, i, j - 1);
      if Ends(log[j - 1]) {
        end := j - 1;
      }
    }
  }

  /** Between two Started events there is exactly one Stopped or Exited, and it is that child's. */
  lemma OneEndBetweenStarts(log: seq<Event>, i: nat, j: nat)
    requires Owner(log).Some? && i < j < |log| && log[i].Started? && log[j].Started?
    requires forall k :: i < k < j ==> !log[k].Started?
    ensures exists end :: i < end < j && EndsChild(log[end], log[i].child)
                          && forall k :: i < k < j && k != end ==> !Ends(log[k])
  {
    var end := EndedOnce(log, i, j);
    PrefixOwned(log, j + 1);
    OwnerEmit(log[..j], log[j]);
    assert log[..j + 1] == log[..j] + [log[j]];
  }

  lemma {:induction false} NextStart(log: seq<Event>, i: nat) returns (j: nat)
    requires i < |log|
    ensures i < j <= |log| && (j < |log| ==> log[j].Started?) && forall k :: i < k < j ==> !log[k].Started?
  {
    j := i + 1;
    while j < |log| && !log[j].Started?
      invariant i < j <= |log| && forall k :: i < k < j ==> !log[k].Started?
    {
      j := j + 1;
    }
  }

  /** Once no child is owned, every child that was started has ended. */
  lemma EveryStartEnded(log: seq<Event>, i: nat)
    requires Owner(log) == Some(None) && i < |log| && log[i].Started?
    ensures exists end :: i < end < |log| && EndsChild(log[end], log[i].child)
  {
    var j := NextStart(log, i);
    if j < |log| {
      OneEndBetweenStarts(log, i, j);
    } else {
      var end := EndedOnce(log, i, j);
      assert log[..j] == log;
    }
  }

  /** log' goes on from log without ending a child. */
  predicate SparesChild(log: seq<Event>, log': seq<Event>) {
    log <= log' && forall k :: |log| <= k < |log'| ==> !Ends(log'[k])
  }

  // ----- the closures, in place -----

  /**
   What one turn of Run's select receives, and how what it then does turns out; started is the child, if it
   started.
   */
  datatype Arm = Change(stopCaught: bool) | Tick(builds: bool, started: Option<nat>) | Exit | Done

  function Built(l: Locals, hasBuild: bool, builds: bool): Locals {
    if !hasBuild then l else if builds then l.Emit(Building) else l.Emit(Building).Emit(BuildFailed)
  }

  /** A settled tick: restart, build, and unless that fails stop the old child and start the new one. */
  function Ticked(l: Locals, hasBuild: bool, builds: bool, started: Option<nat>): (Locals, bool) {
    var built := Built(l.Disarm().Emit(Restarting), hasBuild, builds);
    if hasBuild && !builds then (built, false)
    else match started case None => (built.Stop(), true) case Some(k) => (built.Stop().Spawn(k), false)
  }

  lemma BuiltMeans(l: Locals, hasBuild: bool, builds: bool)
    ensures var l' := Built(l, hasBuild, builds);
            SparesChild(l.log, l'.log) && l'.(log := l.log) == l
  {
  }

  lemma TickedMeans(l: Locals, hasBuild: bool, builds: bool, started: Option<nat>)
    ensures var (l', failed) := Ticked(l, hasBuild, builds, started);
            && l.log <= l'.log && l'.timer == Unarmed
            && (hasBuild && !builds ==> !failed && l'.current == l.current && SparesChild(l.log, l'.log))
            && ((hasBuild ==> builds) ==> (failed <==> started == None) && l'.current == started)
  {
    var restarting := l.Disarm().Emit(Restarting);
    BuiltMeans(restarting, hasBuild, builds);
    hide Built;
    var built := Built(restarting, hasBuild, builds);
    assert !Ends(built.log[|l.log|]);
  }

  /** One turn of the select, and whether a start failed in it. A channel that is nil is never received from. */
  function Handled(l: Locals, hasBuild: bool, arm: Arm): (Locals, bool) {
    match arm
    case Change(stopCaught) => (l.OnChange(stopCaught), false)
    case Tick(builds, started) => if l.timer == Unarmed then (l, false) else Ticked(l, hasBuild, builds, started)
    case Exit => if l.exited == None then (l, false) else (l.OnExit(l.exited.value), false)
    case Done => (l, false)
  }

  /** The turns until the context is done or a start fails. */
  function Received(l: Locals, hasBuild: bool, arms: seq<Arm>): (Locals, bool)
    decreases |arms|
  {
    if arms == [] || arms[0] == Done then (l, false)
    else
      var (l', failed) := Handled(l, hasBuild, arms[0]);
      if failed then (l', true) else Received(l', hasBuild, arms[1..])
  }

  /** Before the loop: the first build and, if it succeeds, the first start. */
  function Begun(hasBuild: bool, builds: bool, first: Option<nat>): (Locals, bool) {
    var l := Built(NoChild, hasBuild, builds);
    if hasBuild && !builds then (l, false) else match first case None => (l, true) case Some(k) => (l.Spawn(k), false)
  }

  /** What has been emitted and is held after these turns, and whether Run left over a failed start. */
  function After(hasBuild: bool, builds: bool, first: Option<nat>, arms: seq<Arm>): (Locals, bool) {
    var (l, failed) := Begun(hasBuild, builds, first);
    if failed then (l, true) else Received(l, hasBuild, arms)
  }

  /** With the deferred calls, last first. */
  function Ran(hasBuild: bool, builds: bool, first: Option<nat>, arms: seq<Arm>): Locals {
    After(hasBuild, builds, first, arms).0.Disarm().Stop()
  }

  lemma NoChildHeld()
    ensures Owned(NoChild)
  {
  }

  lemma ReceivedStart(arms: seq<Arm>)
    ensures arms[0..] == arms
  {
  }

  lemma ReceivedStep(l: Locals, hasBuild: bool, arms: seq<Arm>, i: nat)
    requires i < |arms| && arms[i] != Done
    ensures Received(l, hasBuild, arms[i..])
            == var (l', failed) := Handled(l, hasBuild, arms[i]);
               if failed then (l', true) else Received(l', hasBuild, arms[i + 1..])
  {
    hide Handled;
    assert arms[i..][1..] == arms[i + 1..];
  }

  lemma ReceivedEnd(l: Locals, hasBuild: bool, arms: seq<Arm>, i: nat)
    requires i <= |arms|
    ensures i == |arms| || arms[i] == Done ==> Received(l, hasBuild, arms[i..]) == (l, false)
  {
  }

  // ----- what becomes of a change -----

  lemma {:induction false} ReceivedOn(l: Locals, hasBuild: bool, arms: seq<Arm>, arm: Arm)
    requires Done !in arms && !Received(l, hasBuild, arms).1
    ensures Received(l, hasBuild, arms + [arm])
            == if arm == Done then Received(l, hasBuild, arms)
              else Handled(Received(l, hasBuild, arms).0, hasBuild, arm)
    decreases |arms|
  {
    hide Handled;
    if arms == [] {
      assert [] + [arm] == [arm] && [arm][1..] == [];
    } else {
      assert arms[0] in arms && (arms + [arm])[1..] == arms[1..] + [arm];
      ReceivedOn(Handled(l, hasBuild, arms[0]).0, hasBuild, arms[1..], arm);
    }
  }

  /** Run is still in its loop after the first j turns. */
  predicate StillRunning(hasBuild: bool, builds: bool, first: Option<nat>, arms: seq<Arm>, j: nat)
    requires j <= |arms|
  {
    Done !in arms[..j] && !After(hasBuild, builds, first, arms[..j]).1
  }

  lemma AfterOne(hasBuild: bool, builds: bool, first: Option<nat>, arms: seq<Arm>, j: nat)
    requires j < |arms| && StillRunning(hasBuild, builds, first, arms, j) && arms[j] != Done
    ensures After(hasBuild, builds, first, arms[..j + 1])
            == Handled(After(hasBuild, builds, first, arms[..j]).0, hasBuild, arms[j])
  {
    hide Received, Handled, Begun;
    var (l, failed) := Begun(hasBuild, builds, first);
    assert arms[..j + 1] == arms[..j] + [arms[j]];
    if !failed {
      ReceivedOn(l, hasBuild, arms[..j], arms[j]);
    }
  }

  lemma HandledLonger(l: Locals, hasBuild: bool, arm: Arm)
    ensures l.log <= Handled(l, hasBuild, arm).0.log
  {
  }

  lemma {:induction false} ReceivedLonger(l: Locals, hasBuild: bool, arms: seq<Arm>)
    ensures l.log <= Received(l, hasBuild, arms).0.log
    decreases |arms|
  {
    if arms != [] {
      HandledLonger(l, hasBuild, arms[0]);
      hide Handled;
      ReceivedLonger(Handled(l, hasBuild, arms[0]).0, hasBuild, arms[1..]);
    }
  }

  lemma {:induction false} ReceivedPrefix(l: Locals, hasBuild: bool, a: seq<Arm>, b: seq<Arm>)
    ensures Received(l, hasBuild, a).1 ==> Received(l, hasBuild, a + b) == Received(l, hasBuild, a)
    ensures l.log <= Received(l, hasBuild, a).0.log <= Received(l, hasBuild, a + b).0.log
    decreases |a|
  {
    if a == [] {
      assert a + b == b;
      ReceivedLonger(l, hasBuild, b);
    } else {
      assert (a + b)[1..] == a[1..] + b && (a + b)[0] == a[0];
      HandledLonger(l, hasBuild, a[0]);
      hide Handled;
      ReceivedPrefix(Handled(l, hasBuild, a[0]).0, hasBuild, a[1..], b);
    }
  }

  lemma NotRunOn(hasBuild: bool, builds: bool, first: Option<nat>, arms: seq<Arm>, j: nat)
    requires 0 < j <= |arms| && StillRunning(hasBuild, builds, first, arms, j)
    ensures StillRunning(hasBuild, builds, first, arms, j - 1) && arms[j - 1] != Done
  {
    hide Received, Begun;
    var (l, failed) := Begun(hasBuild, builds, first);
    assert arms[..j] == arms[..j - 1] + [arms[j - 1]];
    assert arms[j - 1] in arms[..j];
    assert forall arm :: arm in arms[..j - 1] ==> arm in arms[..j];
    if !failed {
      ReceivedPrefix(l, hasBuild, arms[..j - 1], [arms[j - 1]]);
    }
  }

  lemma HandledTimer(l: Locals, hasBuild: bool, arm: Arm)
    ensures arm.Change? ==> Handled(l, hasBuild, arm).0.timer != Unarmed
    ensures arm.Exit? ==> Handled(l, hasBuild, arm).0.timer == l.timer
    ensures arm.Tick? ==> Handled(l, hasBuild, arm).0.timer == Unarmed
  {
  }

  /** The last change or tick among the first j turns, if any. */
  predicate LastOfTimer(arms: seq<Arm>, i: nat, j: nat) {
    i < j <= |arms| && (arms[i].Change? || arms[i].Tick?) && forall k :: i < k < j ==> arms[k].Exit?
  }

  lemma {:induction false} TimerAfter(hasBuild: bool, builds: bool, first: Option<nat>, arms: seq<Arm>, i: nat, j: nat)
    requires LastOfTimer(arms, i, j) && StillRunning(hasBuild, builds, first, arms, j)
    ensures After(hasBuild, builds, first, arms[..j]).0.timer != Unarmed <==> arms[i].Change?
    decreases j
  {
    hide After, Handled, Received;
    NotRunOn(hasBuild, builds, first, arms, j);
    AfterOne(hasBuild, builds, first, arms, j - 1);
    HandledTimer(After(hasBuild, builds, first, arms[..j - 1]).0, hasBuild, arms[j - 1]);
    if i < j - 1 {
      TimerAfter(hasBuild, builds, first, arms, i, j - 1);
    }
  }

  lemma {:induction false} NoTimerYet(hasBuild: bool, builds: bool, first: Option<nat>, arms: seq<Arm>, j: nat)
    requires j <= |arms| && StillRunning(hasBuild, builds, first, arms, j) && forall k :: 0 <= k < j ==> arms[k].Exit?
    ensures After(hasBuild, builds, first, arms[..j]).0.timer == Unarmed
  {
    if j > 0 {
      hide After, Handled, Received;
      NotRunOn(hasBuild, builds, first, arms, j);
      AfterOne(hasBuild, builds, first, arms, j - 1);
      HandledTimer(After(hasBuild, builds, first, arms[..j - 1]).0, hasBuild, arms[j - 1]);
      NoTimerYet(hasBuild, builds, first, arms, j - 1);
    }
  }

  lemma DoneNotAmong(hasBuild: bool, builds: bool, first: Option<nat>, arms: seq<Arm>, j: nat)
    requires j <= |arms| && StillRunning(hasBuild, builds, first, arms, j)
    ensures forall k :: 0 <= k < j ==> arms[k] != Done
  {
    assert forall k :: 0 <= k < j ==> arms[k] in arms[..j];
  }

  lemma LastTimer(arms: seq<Arm>, i: nat, j: nat) returns (last: nat)
    requires i < j <= |arms| && (arms[i].Change? || arms[i].Tick?)
    requires forall k :: 0 <= k < j ==> arms[k] != Done
    ensures i <= last && LastOfTimer(arms, last, j)
  {
    last := j - 1;
    while arms[last].Exit?
      invariant i <= last < j && forall k :: last < k < j ==> arms[k].Exit?
      decreases last
    {
      last := last - 1;
    }
  }

  lemma TickLogs(l: Locals, hasBuild: bool, arm: Arm)
    requires arm.Tick? && l.timer != Unarmed
    ensures var (after, failed) := Handled(l, hasBuild, arm);
            var building := [Restarting] + (if hasBuild then [Building] else []);
            var ending := match l.current case None => [] case Some(c) => [Event.Stopped(c)];
            if hasBuild && !arm.builds then after.log == l.log + building + [BuildFailed] && !failed
            else match arm.started
              case None => after.log == l.log + building + ending && failed
              case Some(k) => after.log == l.log + building + ending + [Started(k)] && !failed
  {
  }

  /**
   A change leads to a rebuild: the first tick that follows it, however many other changes and exits come
   between, logs the restart and the build; if that succeeds and the child starts, the old child's end, if one
   is held, and the start.
   */
  lemma ChangeIsRebuilt(hasBuild: bool, builds: bool, first: Option<nat>, arms: seq<Arm>, i: nat, j: nat)
    requires i < j < |arms| && arms[i].Change? && arms[j].Tick? && forall k :: i < k < j ==> !arms[k].Tick?
    requires StillRunning(hasBuild, builds, first, arms, j)
    ensures var before, after := After(hasBuild, builds, first, arms[..j]).0,
            After(hasBuild, builds, first, arms[..j + 1]);
            var (again, started) := (arms[j].builds, arms[j].started);
            var building := [Restarting] + (if hasBuild then [Building] else []);
            var ending := match before.current case None => [] case Some(c) => [Event.Stopped(c)];
            if hasBuild && !again then after.0.log == before.log + building + [BuildFailed] && !after.1
            else match started
              case None => after.0.log == before.log + building + ending && after.1
              case Some(k) => after.0.log == before.log + building + ending + [Started(k)] && !after.1
  {
    hide After, Received;
    var last := LastTimer(arms, i, j);
    assert arms[last].Change? by {
      DoneNotAmong(hasBuild, builds, first, arms, j);
    }
    TimerAfter(hasBuild, builds, first, arms, last, j);
    AfterOne(hasBuild, builds, first, arms, j);
    TickLogs(After(hasBuild, builds, first, arms[..j]).0, hasBuild, arms[j]);
  }

  /** A tick without a change since the last one, or at all, is none of this timer's: it logs nothing. */
  lemma TickWithoutChange(hasBuild: bool, builds: bool, first: Option<nat>, arms: seq<Arm>, i: nat, j: nat)
    requires i <= j < |arms| && arms[j].Tick? && (i == 0 || arms[i - 1].Tick?)
    requires forall k :: i <= k < j ==> !arms[k].Change?
    requires StillRunning(hasBuild, builds, first, arms, j)
    ensures var before, after := After(hasBuild, builds, first, arms[..j]).0,
            After(hasBuild, builds, first, arms[..j + 1]);
            after.0.log == before.log && after.0.current == before.current && !after.1
  {
    hide After, Received;
    DoneNotAmong(hasBuild, builds, first, arms, j);
    if exists k :: 0 <= k < j && arms[k].Tick? && i - 1 <= k {
      var k :| 0 <= k < j && arms[k].Tick? && i - 1 <= k;
      var last := LastTimer(arms, k, j);
      TimerAfter(hasBuild, builds, first, arms, last, j);
    } else {
      NoTimerYet(hasBuild, builds, first, arms, j);
    }
    AfterOne(hasBuild, builds, first, arms, j);
  }

  lemma AfterIsEmitted(hasBuild: bool, builds: bool, first: Option<nat>, arms: seq<Arm>, j: nat)
    requires j <= |arms|
    ensures After(hasBuild, builds, first, arms[..j]).0.log <= Ran(hasBuild, builds, first, arms).log
  {
    var (l, failed) := Begun(hasBuild, builds, first);
    hide Begun, Received;
    if !failed {
      assert arms == arms[..j] + arms[j..];
      ReceivedPrefix(l, hasBuild, arms[..j], arms[j..]);
    }
  }

  lemma BuiltHolds(l: Locals, hasBuild: bool, builds: bool)
    requires l.current == l.exited && Owned(l)
    ensures var l' := Built(l, hasBuild, builds);
            l'.current == l'.exited == l.current && Owned(l') && SparesChild(l.log, l'.log)
  {
    EmitKeepsOwner(l, Building);
    EmitKeepsOwner(l.Emit(Building), BuildFailed);
  }

  lemma TickHolds(l: Locals, hasBuild: bool, builds: bool, started: Option<nat>)
    requires l.current == l.exited && Owned(l)
    ensures var l' := Ticked(l, hasBuild, builds, started).0; l'.current == l'.exited && Owned(l')
  {
    hide Built;
    EmitKeepsOwner(l.Disarm(), Restarting);
    BuiltHolds(l.Disarm().Emit(Restarting), hasBuild, builds);
    var built := Built(l.Disarm().Emit(Restarting), hasBuild, builds);
    StopKeepsOwner(built);
    if started.Some? { SpawnKeepsOwner(built.Stop(), started.value); }
  }

  lemma HandledHolds(l: Locals, hasBuild: bool, arm: Arm)
    requires l.current == l.exited && Owned(l)
    ensures var l' := Handled(l, hasBuild, arm).0; l'.current == l'.exited && Owned(l')
  {
    match arm {
      case Change(_) =>
      case Tick(builds, started) =>
        TickHolds(l, hasBuild, builds, started);
      case Exit => if l.exited.Some? { ExitKeepsOwner(l); }
      case Done =>
    }
  }

  lemma {:induction false} AfterHolds(hasBuild: bool, builds: bool, first: Option<nat>, arms: seq<Arm>, j: nat)
    requires j <= |arms| && StillRunning(hasBuild, builds, first, arms, j)
    ensures var l := After(hasBuild, builds, first, arms[..j]).0; l.current == l.exited && Owned(l)
  {
    if j == 0 {
      BuiltHolds(NoChild, hasBuild, builds);
      if first.Some? { SpawnKeepsOwner(Built(NoChild, hasBuild, builds), first.value); }
      assert arms[..0] == [];
    } else {
      hide After, Handled, Owned;
      NotRunOn(hasBuild, builds, first, arms, j);
      AfterOne(hasBuild, builds, first, arms, j - 1);
      AfterHolds(hasBuild, builds, first, arms, j - 1);
      HandledHolds(After(hasBuild, builds, first, arms[..j - 1]).0, hasBuild, arms[j - 1]);
    }
  }

  /** An exit while a child is held is logged, charged to that child; without one there is no exit to receive. */
  lemma ExitIsLogged(hasBuild: bool, builds: bool, first: Option<nat>, arms: seq<Arm>, j: nat)
    requires j < |arms| && arms[j].Exit? && StillRunning(hasBuild, builds, first, arms, j)
    ensures var before, after := After(hasBuild, builds, first, arms[..j]).0,
            After(hasBuild, builds, first, arms[..j + 1]);
            && before.current == before.exited && after.0.current == None && !after.1
            && after.0.log == before.log + (match before.current case None => [] case Some(c) => [Exited(Some(c), c)])
  {
    hide After, Received;
    AfterHolds(hasBuild, builds, first, arms, j);
    AfterOne(hasBuild, builds, first, arms, j);
  }

  /** A change logs nothing by itself and leaves the child running. */
  lemma ChangeIsQuiet(hasBuild: bool, builds: bool, first: Option<nat>, arms: seq<Arm>, j: nat)
    requires j < |arms| && arms[j].Change? && StillRunning(hasBuild, builds, first, arms, j)
    ensures var before, after := After(hasBuild, builds, first, arms[..j]).0,
            After(hasBuild, builds, first, arms[..j + 1]);
            after.0.log == before.log && after.0.current == before.current && !after.1
  {
    hide After, Received;
    AfterOne(hasBuild, builds, first, arms, j);
  }

  /**
   Where the log begins and ends: with the first build and, if that succeeds, the first start; and, whatever made Run
   leave, with the end of the child it then holds.
   */
  lemma BeginningAndEnd(hasBuild: bool, builds: bool, first: Option<nat>, arms: seq<Arm>)
    ensures var begun := After(hasBuild, builds, first, []);
            var building := if hasBuild then [Building] else [];
            if hasBuild && !builds then begun.0.log == building + [BuildFailed] && !begun.1
            else match first
              case None => begun.0.log == building && begun.1
              case Some(k) => begun.0.log == building + [Started(k)] && begun.0.current == Some(k) && !begun.1
    ensures var last := After(hasBuild, builds, first, arms).0;
            Ran(hasBuild, builds, first, arms).log
            == last.log + (match last.current case None => [] case Some(c) => [Event.Stopped(c)])
  {
    hide Received;
    var none: seq<Arm> := [];
    ReceivedEnd(Begun(hasBuild, builds, first).0, hasBuild, none, 0);
    assert none[0..] == none;
  }

  class Supervisor {
    var current: Option<nat>
    var exited: Option<nat>
    var timer: Timer
    var log: seq<Event>

    function View(): Locals
      reads this
    {
      Locals(current, exited, timer, log)
    }

    /** The channel listened to is the held child's, and the events emitted account for that child. */
    predicate Valid()
      reads this
    {
      current == exited && Owned(View())
    }

    constructor ()
      ensures View() == NoChild && Valid()
    {
      current, exited, timer, log := None, None, Unarmed, [];
    }

    method Stop()
      requires Valid()
      modifies this
      ensures Valid() && View() == old(View()).Stop()
      ensures current == None && Owner(log) == Some(None)
    {
      StopKeepsOwner(View());
      if current == None {
        return;
      }
      log := log + [Event.Stopped(current.value)];
      current, exited := None, None;
    }

    /** A second child is never started beside the first. */
    method Spawn(child: nat)
      requires Valid() && current == None
      modifies this
      ensures Valid() && View() == old(View()).Spawn(child)
      ensures Owner(log) == Some(Some(child))
    {
      SpawnKeepsOwner(View(), child);
      current := Some(child);
      exited := Some(child);
      log := log + [Started(child)];
    }

    method Disarm()
      requires Valid()
      modifies this`timer
      ensures Valid() && View() == old(View()).Disarm()
      ensures timer == Unarmed
    {
      if timer != Unarmed {
        timer := Unarmed;
      }
    }

    method OnChange(stopCaught: bool)
      requires Valid()
      modifies this`timer
      ensures Valid() && View() == old(View()).OnChange(stopCaught)
      ensures timer != Unarmed
    {
      if timer == Unarmed {
        timer := Armed;
        return;
      }
      if stopCaught {
        timer := Armed;
      }
    }

    /** The process the exit is charged to is the one it came from. */
    method OnExit(of: nat)
      requires Valid() && exited == Some(of)
      modifies this
      ensures Valid() && View() == old(View()).OnExit(of)
      ensures log == old(log) + [Exited(Some(of), of)] && Owner(log) == Some(None)
    {
      ExitKeepsOwner(View());
      log := log + [Exited(current, of)];
      current, exited := None, None;
    }

    /** The build closure: true without a build step, and no child is ended either way. */
    method Build(hasBuild: bool, builds: bool) returns (ok: bool)
      requires Valid()
      modifies this`log
      ensures Valid() && SparesChild(old(log), log)
      ensures View() == Built(old(View()), hasBuild, builds)
      ensures ok <==> hasBuild ==> builds
    {
      hide Owner, SparesChild;
      BuiltMeans(View(), hasBuild, builds);
      if !hasBuild {
        return true;
      }
      EmitKeepsOwner(View(), Building);
      log := log + [Building];
      if !builds {
        EmitKeepsOwner(View(), BuildFailed);
        log := log + [BuildFailed];
      }
      return builds;
    }

    /**
     The arm of the settled tick. A build that fails leaves the child serving; otherwise the
     child, if there is one, is ended before the next is started.
     */
    method OnTick(hasBuild: bool, builds: bool, started: Option<nat>) returns (ok: bool)
      requires Valid()
      modifies this
      ensures Valid() && timer == Unarmed && old(log) <= log
      ensures (View(), !ok) == Ticked(old(View()), hasBuild, builds, started)
      ensures hasBuild && !builds ==> ok && current == old(current) && SparesChild(old(log), log)
      ensures (hasBuild ==> builds) ==> (ok <==> started.Some?) && current == started
    {
      hide Owner, SparesChild, Built;
      ghost var l := View();
      Disarm();
      EmitKeepsOwner(View(), Restarting);
      log := log + [Restarting];
      assert View() == l.Disarm().Emit(Restarting);
      var built := Build(hasBuild, builds);
      TickedMeans(l, hasBuild, builds, started);
      if !built {
        return true;
      }
      Stop();
      if started == None {
        return false;
      }
      Spawn(started.value);
      return true;
    }

    /** One turn of the select. */
    method Turn(hasBuild: bool, arm: Arm) returns (failed: bool)
      requires Valid()
      modifies this
      ensures Valid() && (View(), failed) == Handled(old(View()), hasBuild, arm)
      ensures failed ==> arm.Tick? && arm.started == None
    {
      hide Owner, SparesChild, Ticked;
      match arm {
        case Change(stopCaught) => OnChange(stopCaught);
        case Tick(builds, started) =>
          // Without an armed timer the channel is nil and never received from.
          if timer != Unarmed {
            TickedMeans(View(), hasBuild, builds, started);
            var ok := OnTick(hasBuild, builds, started);
            return !ok;
          }
        case Exit =>
          if exited.Some? {
            OnExit(exited.value);
          }
        case Done =>
      }
      return false;
    }

    /**
     Run, as the first build and start turn out and the selects receive; Run leaves with an
     error only after a start failed. However it leaves, no child is held and every child
     started has been ended.
     */
    method Run(hasBuild: bool, builds: bool, first: Option<nat>, arms: seq<Arm>) returns (failed: bool)
      requires View() == NoChild
      modifies this
      ensures Valid() && current == None && timer == Unarmed && Owner(log) == Some(None)
      ensures View() == Ran(hasBuild, builds, first, arms) && failed == After(hasBuild, builds, first, arms).1
      ensures (hasBuild ==> builds) && first == None ==> failed
      ensures failed ==> first == None || exists k :: 0 <= k < |arms| && arms[k].Tick? && arms[k].started == None
    {
      hide Owner, SparesChild, Handled, Received, Built;
      failed := false;
      NoChildHeld();
      var built := Build(hasBuild, builds);
      if built {
        if first == None {
          return true;
        }
        Spawn(first.value);
      }
      ghost var start := View();
      ReceivedStart(arms);
      var i := 0;
      while i < |arms| && arms[i] != Done && !failed
        invariant Valid() && 0 <= i <= |arms|
        invariant failed ==> exists k :: 0 <= k < i && arms[k].Tick? && arms[k].started == None
        invariant Received(start, hasBuild, arms)
                  == if failed then (View(), true) else Received(View(), hasBuild, arms[i..])
      {
        ReceivedStep(View(), hasBuild, arms, i);
        failed := Turn(hasBuild, arms[i]);
        i := i + 1;
      }
      ReceivedEnd(View(), hasBuild, arms, i);
      // The deferred calls, last first.
      Disarm();
      Stop();
    }
  }
}
