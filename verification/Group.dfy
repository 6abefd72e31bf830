/**
 runtime/lifecycle/group.go over runtime/lifecycle/worker.go, as a transition system: the
 group's receive loop, one Run goroutine per component, and any number of concurrent
 Shutdown calls, interleaved at every lock-protected section, channel operation and context
 cancellation.
 */
module GroupProtocol {
  import opened Wrappers
  import opened WorkerMachine
  import opened Pigeonhole

  /** What a loop returned: an error, or nil. */
  datatype Outcome = Clean | Failed(error: int)

  /** Where one component's single Run call stands. */
  datatype RunAt =
    | NotStarted
    | InLoop
    | LoopReturned(result: Outcome)
    | MarkedStopped(result: Outcome)
    | DoneClosed(result: Outcome)
    | Returned(result: Outcome)

  /** One component: the Worker's fields, its Run call, and how often its loop was invoked. */
  datatype Member = Member(fields: Fields, run: RunAt, starts: nat)

  /** Where one Shutdown call stands. */
  datatype CallAt = Entered | HoldsCancel | Waiting | ReturnedNil | TimedOut

  datatype Call = Call(member: nat, at: CallAt, fromGroup: bool)

  /**
   One Group.Shutdown: the first of its calls, which are one per component in the components'
   order, and the components whose errors it returned joined, once it has returned.
   */
  datatype GroupShutdown = GroupShutdown(first: nat, joined: Option<set<nat>>)

  datatype GroupAt = NotRunning | Receiving | TearingDown | Finished

  /**
   The whole system. sends logs the results channel: the members in the order their outcome
   was sent, of which the loop has taken the first `taken`.
   */
  datatype State = State(
    members: seq<Member>,
    orphaned: bool,
    calls: seq<Call>,
    shutdowns: seq<GroupShutdown>,
    at: GroupAt,
    sends: seq<nat>,
    taken: nat,
    remaining: int,
    stoppedOthers: bool,
    firstError: Option<(nat, int)>)

  datatype Step =
    | StartGroup
    | BeginRun(m: nat)
    | LoopReturns(m: nat, outcome: Outcome)
    | FinishRun(m: nat)
    | CloseDone(m: nat)
    | ReturnRun(m: nat)
    | ParentCanceled
    | Send(m: nat)
    | Receive
    | TornDown
    | ReturnGroup
    | CallShutdown(m: nat)
    | CallGroupShutdown
    | ReturnGroupShutdown(g: nat)
    | LockedSection(c: nat)
    | CancelLoop(c: nat)
    | SeeDone(c: nat)
    | TimeOut(c: nat)

  function Initial(n: nat): State {
    State(seq(n, i => Member(Fresh, NotStarted, 0)), false, [], [], NotRunning, [], 0, 0, false, None)
  }

  /** The Shutdown call has returned. */
  predicate Settled(c: Call) {
    c.at == ReturnedNil || c.at == TimedOut
  }

  /** The call that the g-th Group.Shutdown makes to component m; a mere default where there is none. */
  function CallFor(s: State, g: nat, m: nat): Call
    requires g < |s.shutdowns|
  {
    var c := s.shutdowns[g].first + m;
    if c < |s.calls| then s.calls[c] else Call(m, Entered, false)
  }

  predicate Enabled(s: State, step: Step) {
    match step
    case StartGroup => s.at == NotRunning
    case BeginRun(m) => m < |s.members| && s.members[m].run == NotStarted && s.at != NotRunning
    case LoopReturns(m, _) => m < |s.members| && s.members[m].run == InLoop
    case FinishRun(m) => m < |s.members| && s.members[m].run.LoopReturned?
    case CloseDone(m) => m < |s.members| && s.members[m].run.MarkedStopped?
    case ReturnRun(m) => m < |s.members| && s.members[m].run.DoneClosed?
    case ParentCanceled => true
    case Send(m) => m < |s.members| && s.members[m].run.Returned? && m !in s.sends
    case Receive => s.at == Receiving && s.taken < |s.sends| && s.remaining > 0
    case TornDown => s.at == TearingDown && forall c :: c in s.calls && c.fromGroup ==> Settled(c)
    case ReturnGroup => s.at == Receiving && s.remaining <= 0
    case CallShutdown(m) => m < |s.members|
    case CallGroupShutdown => true
    case ReturnGroupShutdown(g) => g < |s.shutdowns| && s.shutdowns[g].joined == None
      && forall m :: 0 <= m < |s.members| ==> Settled(CallFor(s, g, m))
    case LockedSection(c) => c < |s.calls| && s.calls[c].member < |s.members| && s.calls[c].at == Entered
    case CancelLoop(c) => c < |s.calls| && s.calls[c].member < |s.members| && s.calls[c].at == HoldsCancel
    case SeeDone(c) => c < |s.calls| && s.calls[c].member < |s.members| && s.calls[c].at == Waiting
      && s.members[s.calls[c].member].fields.closes > 0
    case TimeOut(c) => c < |s.calls| && s.calls[c].at == Waiting
  }

  function WithMember(s: State, m: nat, w: Member): State
    requires m < |s.members|
  {
    s.(members := s.members[m := w])
  }

  function WithCall(s: State, c: nat, at: CallAt): State
    requires c < |s.calls|
  {
    s.(calls := s.calls[c := s.calls[c].(at := at)])
  }

  /** The parent context being done cancels the loop's own context, where there is one. */
  function Orphaned(w: Member): Member {
    if w.fields.cancelable then w.(fields := w.fields.Cancel()) else w
  }

  /**
   Run's first section; when Shutdown barred it, Run returns nil without a loop. A loop begun under a parent
   context that is done has a context that is.
   */
  function Began(w: Member, orphaned: bool): Member {
    var (fields, enters) := w.fields.BeginRun();
    if enters then
      var begun := Member(fields, InLoop, w.starts + 1);
      if orphaned then Orphaned(begun) else begun
    else w.(run := Returned(Clean))
  }

  function Locked(s: State, c: nat): State
    requires Enabled(s, LockedSection(c))
  {
    var m := s.calls[c].member;
    var (fields, verdict) := s.members[m].fields.BeginShutdown();
    WithCall(WithMember(s, m, s.members[m].(fields := fields)), c,
             if verdict == NothingToWaitFor then ReturnedNil else HoldsCancel)
  }

  function ErrorOf(s: State, m: nat): Option<(nat, int)> {
    if m < |s.members| && s.members[m].run.Returned? && s.members[m].run.result.Failed?
    then Some((m, s.members[m].run.result.error)) else None
  }

  /** The Shutdown calls shutdownExcept makes: one for every component but the skipped one. */
  function CallsExcept(skip: nat, n: nat): (calls: seq<Call>)
    ensures forall c :: c in calls ==> c.member < n && c.member != skip && c.at == Entered && c.fromGroup
    ensures forall m: nat :: m < n && m != skip ==> Call(m, Entered, true) in calls
    ensures |calls| <= n
  {
    if n == 0 then []
    else CallsExcept(skip, n - 1) + (if n - 1 == skip then [] else [Call(n - 1, Entered, true)])
  }

  /** One turn of the receive loop; the first one starts tearing the others down. */
  function Received(s: State): State
    requires s.taken < |s.sends|
  {
    var m := s.sends[s.taken];
    var s' := s.(taken := s.taken + 1, remaining := s.remaining - 1,
                 firstError := if s.firstError == None then ErrorOf(s, m) else s.firstError);
    if s.stoppedOthers then s'
    else s'.(stoppedOthers := true, at := TearingDown, calls := s.calls + CallsExcept(m, |s.members|))
  }

  /** The Shutdown calls Group.Shutdown makes: one for every component, in their order. */
  function CallsToAll(n: nat): (calls: seq<Call>)
    ensures |calls| == n && forall m :: 0 <= m < n ==> calls[m] == Call(m, Entered, false)
  {
    seq(n, m requires 0 <= m => Call(m, Entered, false))
  }

  function Do(s: State, step: Step): State
    requires Enabled(s, step)
  {
    match step
    case StartGroup => s.(at := Receiving, remaining := |s.members|)
    case BeginRun(m) => WithMember(s, m, Began(s.members[m], s.orphaned))
    case LoopReturns(m, outcome) => WithMember(s, m, s.members[m].(run := LoopReturned(outcome)))
    case FinishRun(m) =>
      var w := s.members[m];
      WithMember(s, m, w.(fields := w.fields.FinishRun(), run := MarkedStopped(w.run.result)))
    case CloseDone(m) =>
      var w := s.members[m];
      WithMember(s, m, w.(fields := w.fields.CloseDone(), run := DoneClosed(w.run.result)))
    case ReturnRun(m) =>
      // The deferred cancel runs on the way out.
      var w := s.members[m];
      WithMember(s, m, w.(fields := w.fields.Cancel(), run := Returned(w.run.result)))
    case ParentCanceled =>
      s.(orphaned := true,
         members := seq(|s.members|, i requires 0 <= i < |s.members| => Orphaned(s.members[i])))
    case Send(m) => s.(sends := s.sends + [m])
    case Receive => Received(s)
    case TornDown => s.(at := Receiving)
    case ReturnGroup => s.(at := Finished)
    case CallShutdown(m) => s.(calls := s.calls + [Call(m, Entered, false)])
    case CallGroupShutdown =>
      s.(shutdowns := s.shutdowns + [GroupShutdown(|s.calls|, None)], calls := s.calls + CallsToAll(|s.members|))
    case ReturnGroupShutdown(g) =>
      var errors := set m: nat | m < |s.members| && CallFor(s, g, m).at == TimedOut;
      s.(shutdowns := s.shutdowns[g := s.shutdowns[g].(joined := Some(errors))])
    case LockedSection(c) => Locked(s, c)
    case CancelLoop(c) =>
      var m := s.calls[c].member;
      WithCall(WithMember(s, m, s.members[m].(fields := s.members[m].fields.Cancel())), c, Waiting)
    case SeeDone(c) => WithCall(s, c, ReturnedNil)
    case TimeOut(c) => WithCall(s, c, TimedOut)
  }

  // ----- the invariant -----

  predicate Looping(w: Member) {
    w.run.InLoop? || w.run.LoopReturned?
  }

  predicate GoodMember(w: Member) {
    && Consistent(w.fields)
    && (w.fields.phase == Idle ==> w.run.NotStarted?)
    && (w.fields.phase == Running <==> Looping(w))
    && (w.run.Returned? || w.run.DoneClosed? || w.run.MarkedStopped? ==> w.fields.phase == Stopped)
    && w.starts == (if w.fields.cancelable then 1 else 0)
    && (w.run.NotStarted? ==> !w.fields.cancelable)
    && (w.fields.closes == 1 <==> w.fields.cancelable && (w.run.DoneClosed? || w.run.Returned?))
    && (!w.fields.cancelable ==> w.run.NotStarted? || w.run == Returned(Clean))
  }

  predicate GoodCall(s: State, c: Call) {
    && c.member < |s.members|
    && var f := s.members[c.member].fields;
       match c.at
       case Entered => true
       case HoldsCancel => f.cancelable
       case Waiting => f.cancelable && f.canceled
       case ReturnedNil => f.phase == Stopped
       case TimedOut => f.canceled
  }

  predicate GoodWorkers(s: State) {
    && (forall m :: 0 <= m < |s.members| ==> GoodMember(s.members[m]))
    && (forall c :: 0 <= c < |s.calls| ==> GoodCall(s, s.calls[c]))
    && (s.at == NotRunning ==> forall m :: 0 <= m < |s.members| ==> s.members[m].run.NotStarted?)
  }

  /** Once the parent context is done, every context derived from it is. */
  predicate GoodContexts(s: State) {
    s.orphaned ==> forall m :: 0 <= m < |s.members| && s.members[m].fields.cancelable ==> s.members[m].fields.canceled
  }

  ghost predicate GoodChannel(s: State) {
    && Distinct(s.sends)
    && (forall i :: 0 <= i < |s.sends| ==> s.sends[i] < |s.members| && s.members[s.sends[i]].run.Returned?)
    && s.taken <= |s.sends|
    && (s.at == NotRunning ==> s.sends == [])
    && (s.at != NotRunning ==> s.remaining == |s.members| - s.taken)
    && (s.stoppedOthers <==> s.taken > 0)
    && (s.at == TearingDown ==> s.taken > 0)
    && (s.at == Finished ==> s.remaining <= 0)
  }

  predicate FirstFailure(s: State, i: nat)
    requires i < |s.sends|
  {
    ErrorOf(s, s.sends[i]).Some? && forall k :: 0 <= k < i ==> ErrorOf(s, s.sends[k]) == None
  }

  /** firstError is the error of the earliest taken component that failed, if any did. */
  predicate GoodError(s: State) {
    && s.taken <= |s.sends|
    && match s.firstError
       case None => forall i :: 0 <= i < s.taken ==> ErrorOf(s, s.sends[i]) == None
       case Some(e) => exists i :: 0 <= i < s.taken && FirstFailure(s, i) && ErrorOf(s, s.sends[i]) == s.firstError
  }

  predicate HasGroupCall(s: State, m: nat) {
    exists c :: 0 <= c < |s.calls| && s.calls[c].fromGroup && s.calls[c].member == m
  }

  /** Once tearing down has begun, every component but the first to return has its call. */
  predicate GoodTeardown(s: State) {
    && (s.taken > 0 ==> s.taken <= |s.sends|)
    && (s.taken > 0 ==> forall m: nat :: m < |s.members| && m != s.sends[0] ==> HasGroupCall(s, m))
    && (s.taken > 0 && s.at != TearingDown ==>
          forall c :: 0 <= c < |s.calls| && s.calls[c].fromGroup ==> Settled(s.calls[c]))
  }

  /** A Group.Shutdown has a call to each component, and what it returned is the errors of those calls. */
  ghost predicate GoodShutdown(s: State, g: nat)
    requires g < |s.shutdowns|
  {
    && s.shutdowns[g].first + |s.members| <= |s.calls|
    && (forall m :: 0 <= m < |s.members| ==> CallFor(s, g, m).member == m)
    && match s.shutdowns[g].joined
       case None => true
       case Some(errors) =>
         && (forall m :: 0 <= m < |s.members| ==> Settled(CallFor(s, g, m)))
         && forall m: nat :: m in errors <==> m < |s.members| && CallFor(s, g, m).at == TimedOut
  }

  ghost predicate GoodShutdowns(s: State) {
    forall g :: 0 <= g < |s.shutdowns| ==> GoodShutdown(s, g)
  }

  ghost predicate Inv(s: State) {
    GoodWorkers(s) && GoodContexts(s) && GoodChannel(s) && GoodError(s) && GoodTeardown(s) && GoodShutdowns(s)
  }

  // ----- every step keeps it -----

  /** What no step undoes about one component. */
  predicate Advances(w: Member, w': Member) {
    && (w.fields.phase == Stopped ==> w'.fields.phase == Stopped && w'.starts == w.starts)
    && (w.fields.cancelable ==> w'.fields.cancelable)
    && (w.fields.canceled ==> w'.fields.canceled)
    && (w.run.Returned? ==> w'.run == w.run)
    && (w'.run.NotStarted? ==> w.run.NotStarted?)
  }

  lemma BeganGood(w: Member, orphaned: bool)
    requires GoodMember(w) && w.run == NotStarted
    ensures Advances(w, Began(w, orphaned)) && GoodMember(Began(w, orphaned))
  {
  }

  lemma OrphanedGood(w: Member)
    requires GoodMember(w)
    ensures Advances(w, Orphaned(w)) && GoodMember(Orphaned(w))
  {
  }

  lemma BeganAll(s: State, step: Step, m: nat)
    requires GoodWorkers(s) && Enabled(s, step) && m < |s.members|
    ensures step == BeginRun(m) ==>
              Advances(s.members[m], Began(s.members[m], s.orphaned)) && GoodMember(Began(s.members[m], s.orphaned))
    ensures step == ParentCanceled ==>
              Advances(s.members[m], Orphaned(s.members[m])) && GoodMember(Orphaned(s.members[m]))
  {
    hide Began, Orphaned, GoodMember, Advances;
    if step == BeginRun(m) {
      BeganGood(s.members[m], s.orphaned);
    }
    OrphanedGood(s.members[m]);
  }

  /** The steps that touch a component's state from inside its Run, and those that do from a Shutdown call. */
  predicate FromRun(step: Step) {
    step.BeginRun? || step.LoopReturns? || step.FinishRun? || step.CloseDone? || step.ReturnRun? || step.ParentCanceled?
  }

  predicate FromShutdown(step: Step) {
    step.LockedSection? || step.CancelLoop?
  }

  lemma OthersKeepMembers(s: State, step: Step)
    requires Enabled(s, step) && !FromRun(step) && !FromShutdown(step)
    ensures Do(s, step).members == s.members
  {
  }

  lemma RunStepAdvances(s: State, step: Step, m: nat)
    requires GoodWorkers(s) && Enabled(s, step) && m < |s.members| && FromRun(step)
    ensures |Do(s, step).members| == |s.members|
    ensures Advances(s.members[m], Do(s, step).members[m]) && GoodMember(Do(s, step).members[m])
  {
    assert GoodMember(s.members[m]);
    BeganAll(s, step, m);
    hide Began, Orphaned;
  }

  lemma ShutdownStepAdvances(s: State, step: Step, m: nat)
    requires GoodWorkers(s) && Enabled(s, step) && m < |s.members| && FromShutdown(step)
    ensures |Do(s, step).members| == |s.members|
    ensures Advances(s.members[m], Do(s, step).members[m]) && GoodMember(Do(s, step).members[m])
  {
    assert GoodMember(s.members[m]);
    assert GoodCall(s, s.calls[step.c]);
  }

  lemma MembersAdvance(s: State, step: Step, m: nat)
    requires GoodWorkers(s) && Enabled(s, step) && m < |s.members|
    ensures |Do(s, step).members| == |s.members|
    ensures Advances(s.members[m], Do(s, step).members[m]) && GoodMember(Do(s, step).members[m])
  {
    hide Do;
    if FromRun(step) {
      RunStepAdvances(s, step, m);
    } else if FromShutdown(step) {
      ShutdownStepAdvances(s, step, m);
    } else {
      OthersKeepMembers(s, step);
      assert GoodMember(s.members[m]);
    }
  }

  lemma CallsKeepGood(s: State, step: Step, c: nat)
    requires GoodWorkers(s) && Enabled(s, step) && c < |Do(s, step).calls|
    ensures GoodCall(Do(s, step), Do(s, step).calls[c])
    ensures |s.calls| <= |Do(s, step).calls|
  {
    var s' := Do(s, step);
    if c < |s.calls| {
      assert GoodCall(s, s.calls[c]);
      var m := s.calls[c].member;
      MembersAdvance(s, step, m);
      if step == SeeDone(c) {
        assert GoodMember(s.members[m]);
      }
    }
  }

  lemma StepKeepsWorkers(s: State, step: Step)
    requires GoodWorkers(s) && Enabled(s, step)
    ensures GoodWorkers(Do(s, step)) && |Do(s, step).members| == |s.members|
  {
    var s' := Do(s, step);
    forall m | 0 <= m < |s'.members| ensures GoodMember(s'.members[m]) {
      MembersAdvance(s, step, m);
    }
    forall c | 0 <= c < |s'.calls| ensures GoodCall(s', s'.calls[c]) {
      CallsKeepGood(s, step, c);
    }
  }

  lemma StepKeepsContexts(s: State, step: Step)
    requires GoodContexts(s) && Enabled(s, step)
    ensures GoodContexts(Do(s, step))
  {
  }

  /** What the group has been told about a returned component never changes. */
  lemma ErrorsStable(s: State, step: Step, m: nat)
    requires GoodWorkers(s) && Enabled(s, step) && m < |s.members| && s.members[m].run.Returned?
    ensures |Do(s, step).members| == |s.members|
    ensures Do(s, step).members[m].run == s.members[m].run && ErrorOf(Do(s, step), m) == ErrorOf(s, m)
  {
    MembersAdvance(s, step, m);
  }

  lemma SendsStable(s: State, step: Step)
    requires GoodWorkers(s) && GoodChannel(s) && Enabled(s, step)
    ensures var s' := Do(s, step);
            |s'.members| == |s.members| && s.sends <= s'.sends
            && forall i :: 0 <= i < |s.sends| ==>
                 ErrorOf(s', s.sends[i]) == ErrorOf(s, s.sends[i]) && s'.members[s.sends[i]].run.Returned?
  {
    forall i | 0 <= i < |s.sends|
      ensures |Do(s, step).members| == |s.members|
      ensures ErrorOf(Do(s, step), s.sends[i]) == ErrorOf(s, s.sends[i])
      ensures Do(s, step).members[s.sends[i]].run.Returned?
    {
      ErrorsStable(s, step, s.sends[i]);
    }
  }

  lemma StepKeepsChannel(s: State, step: Step)
    requires GoodWorkers(s) && GoodChannel(s) && Enabled(s, step)
    ensures GoodChannel(Do(s, step))
  {
    SendsStable(s, step);
  }

  lemma FirstFailureKept(s: State, s': State, i: nat)
    requires i < |s.sends| && s.sends <= s'.sends && FirstFailure(s, i)
    requires forall k :: 0 <= k < |s.sends| ==> ErrorOf(s', s.sends[k]) == ErrorOf(s, s.sends[k])
    ensures FirstFailure(s', i) && ErrorOf(s', s'.sends[i]) == ErrorOf(s, s.sends[i])
  {
  }

  lemma StepKeepsError(s: State, step: Step)
    requires GoodWorkers(s) && GoodChannel(s) && GoodError(s) && Enabled(s, step)
    ensures GoodError(Do(s, step))
  {
    var s' := Do(s, step);
    SendsStable(s, step);
    if s.firstError.Some? {
      var i :| 0 <= i < s.taken && FirstFailure(s, i) && ErrorOf(s, s.sends[i]) == s.firstError;
      FirstFailureKept(s, s', i);
    } else if step.Receive? && s'.firstError.Some? {
      assert FirstFailure(s', s.taken);
    }
  }

  lemma CallIdentityKept(s: State, step: Step, c: nat)
    requires Enabled(s, step) && c < |s.calls|
    ensures c < |Do(s, step).calls|
    ensures Do(s, step).calls[c].fromGroup == s.calls[c].fromGroup && Do(s, step).calls[c].member == s.calls[c].member
    ensures Settled(s.calls[c]) ==> Do(s, step).calls[c] == s.calls[c]
  {
  }

  lemma SettledCallsStay(s: State, step: Step)
    requires GoodChannel(s) && GoodTeardown(s) && Enabled(s, step) && s.taken > 0
    ensures var s' := Do(s, step); s'.at != TearingDown ==>
              forall c :: 0 <= c < |s'.calls| && s'.calls[c].fromGroup ==> Settled(s'.calls[c])
  {
    var s' := Do(s, step);
    if s'.at != TearingDown {
      forall c | 0 <= c < |s'.calls| && s'.calls[c].fromGroup ensures Settled(s'.calls[c]) {
        if c < |s.calls| {
          CallIdentityKept(s, step, c);
          assert s.calls[c] in s.calls;
        }
      }
    }
  }

  lemma NewCallsCover(s: State)
    requires GoodChannel(s) && Enabled(s, Receive) && !s.stoppedOthers
    ensures forall m: nat :: m < |s.members| && m != s.sends[0] ==> HasGroupCall(Do(s, Receive), m)
  {
    var s' := Do(s, Receive);
    var added := CallsExcept(s.sends[0], |s.members|);
    forall m: nat | m < |s.members| && m != s.sends[0] ensures HasGroupCall(s', m) {
      assert Call(m, Entered, true) in added;
      var k :| 0 <= k < |added| && added[k] == Call(m, Entered, true);
      assert s'.calls[|s.calls| + k] == added[k];
    }
  }

  lemma StepKeepsTeardown(s: State, step: Step)
    requires GoodChannel(s) && GoodTeardown(s) && Enabled(s, step) && |Do(s, step).members| == |s.members|
    ensures GoodTeardown(Do(s, step))
  {
    var s' := Do(s, step);
    assert s'.taken > 0 ==> s'.sends[0] == s.sends[0];
    if s.taken > 0 {
      forall m: nat | m < |s'.members| && m != s'.sends[0] ensures HasGroupCall(s', m) {
        assert HasGroupCall(s, m);
        var c :| 0 <= c < |s.calls| && s.calls[c].fromGroup && s.calls[c].member == m;
        CallIdentityKept(s, step, c);
      }
      SettledCallsStay(s, step);
    } else if s'.taken > 0 {
      NewCallsCover(s);
    }
  }

  /** A call made, and what it returned, stay what they are. */
  lemma CallForKept(s: State, step: Step, g: nat, m: nat)
    requires GoodShutdowns(s) && Enabled(s, step) && g < |s.shutdowns| && m < |s.members|
    ensures |s.shutdowns| <= |Do(s, step).shutdowns| && Do(s, step).shutdowns[g].first == s.shutdowns[g].first
    ensures CallFor(Do(s, step), g, m).member == CallFor(s, g, m).member
    ensures Settled(CallFor(s, g, m)) ==> CallFor(Do(s, step), g, m) == CallFor(s, g, m)
  {
    assert GoodShutdown(s, g);
    CallIdentityKept(s, step, s.shutdowns[g].first + m);
  }

  lemma ShutdownsOnly(s: State, step: Step, g: nat)
    requires Enabled(s, step) && g < |s.shutdowns|
    ensures |s.shutdowns| <= |Do(s, step).shutdowns| && |s.calls| <= |Do(s, step).calls|
    ensures step != ReturnGroupShutdown(g) ==> Do(s, step).shutdowns[g] == s.shutdowns[g]
    ensures Do(s, step).shutdowns[g].first == s.shutdowns[g].first
  {
  }

  lemma ReturnJoins(s: State, g: nat)
    requires Enabled(s, ReturnGroupShutdown(g))
    ensures forall m :: 0 <= m < |s.members| ==> Settled(CallFor(s, g, m))
    ensures var s' := Do(s, ReturnGroupShutdown(g));
            s'.shutdowns[g].joined.Some?
            && forall m: nat ::
                 m in s'.shutdowns[g].joined.value <==> m < |s.members| && CallFor(s, g, m).at == TimedOut
  {
  }

  lemma OldShutdownKept(s: State, step: Step, g: nat)
    requires GoodShutdowns(s) && Enabled(s, step) && g < |s.shutdowns| && |Do(s, step).members| == |s.members|
    ensures |s.shutdowns| <= |Do(s, step).shutdowns| && GoodShutdown(Do(s, step), g)
  {
    var s' := Do(s, step);
    assert GoodShutdown(s, g);
    ShutdownsOnly(s, step, g);
    hide Do, Enabled, CallFor;
    forall m: nat | m < |s.members|
      ensures CallFor(s', g, m).member == m
      ensures Settled(CallFor(s, g, m)) ==> CallFor(s', g, m) == CallFor(s, g, m)
    {
      CallForKept(s, step, g, m);
    }
    if step == ReturnGroupShutdown(g) {
      ReturnJoins(s, g);
    }
  }

  lemma NewShutdownGood(s: State)
    ensures var s' := Do(s, CallGroupShutdown); GoodShutdown(s', |s.shutdowns|)
  {
    var s' := Do(s, CallGroupShutdown);
    forall m | 0 <= m < |s.members| ensures CallFor(s', |s.shutdowns|, m) == Call(m, Entered, false) {
      assert s'.calls[|s.calls| + m] == CallsToAll(|s.members|)[m];
    }
  }

  lemma StepKeepsShutdowns(s: State, step: Step)
    requires GoodShutdowns(s) && Enabled(s, step) && |Do(s, step).members| == |s.members|
    ensures GoodShutdowns(Do(s, step))
  {
    hide GoodShutdown;
    var s' := Do(s, step);
    forall g | 0 <= g < |s'.shutdowns| ensures GoodShutdown(s', g) {
      if g < |s.shutdowns| {
        OldShutdownKept(s, step, g);
      } else {
        NewShutdownGood(s);
      }
    }
  }

  /** Every step, from any state satisfying the invariant, keeps it. */
  lemma StepKeepsInv(s: State, step: Step)
    requires Inv(s) && Enabled(s, step)
    ensures Inv(Do(s, step)) && |Do(s, step).members| == |s.members|
  {
    StepKeepsWorkers(s, step);
    StepKeepsChannel(s, step);
    StepKeepsError(s, step);
    StepKeepsTeardown(s, step);
    StepKeepsShutdowns(s, step);
    StepKeepsContexts(s, step);
  }

  // ----- runs -----

  ghost predicate Follows(s: State, s': State) {
    exists step :: Enabled(s, step) && s' == Do(s, step)
  }

  /** A finite interleaving of the system, as the states it passes through. */
  ghost predicate IsRun(run: seq<State>, n: nat) {
    && run != [] && run[0] == Initial(n)
    && forall i :: 0 <= i < |run| - 1 ==> Follows(run[i], run[i + 1])
  }

  lemma {:induction false} RunKeepsInv(run: seq<State>, n: nat, i: nat)
    requires IsRun(run, n) && i < |run|
    ensures Inv(run[i]) && |run[i].members| == n
  {
    if i > 0 {
      RunKeepsInv(run, n, i - 1);
      assert Follows(run[i - 1], run[i]);
      var step :| Enabled(run[i - 1], step) && run[i] == Do(run[i - 1], step);
      StepKeepsInv(run[i - 1], step);
    }
  }

  lemma StepAdvances(run: seq<State>, n: nat, i: nat, m: nat)
    requires IsRun(run, n) && i + 1 < |run| && m < n
    ensures |run[i].members| == |run[i + 1].members| == n
    ensures Advances(run[i].members[m], run[i + 1].members[m])
  {
    RunKeepsInv(run, n, i);
    RunKeepsInv(run, n, i + 1);
    assert Follows(run[i], run[i + 1]);
    var step :| Enabled(run[i], step) && run[i + 1] == Do(run[i], step);
    MembersAdvance(run[i], step, m);
  }

  lemma NothingUndone(w: Member)
    ensures Advances(w, w)
  {
  }

  lemma AdvancesTransitive(a: Member, b: Member, c: Member)
    requires Advances(a, b) && Advances(b, c)
    ensures Advances(a, c)
  {
  }

  /** Nothing a component has reached is undone later in the run. */
  lemma {:induction false} RunAdvances(run: seq<State>, n: nat, i: nat, j: nat, m: nat)
    requires IsRun(run, n) && i <= j < |run| && m < n
    ensures |run[i].members| == |run[j].members| == n
    ensures Advances(run[i].members[m], run[j].members[m])
    decreases j
  {
    hide IsRun, Inv, Advances;
    if i < j {
      RunAdvances(run, n, i, j - 1, m);
      StepAdvances(run, n, j - 1, m);
      AdvancesTransitive(run[i].members[m], run[j - 1].members[m], run[j].members[m]);
    } else {
      RunKeepsInv(run, n, i);
      NothingUndone(run[i].members[m]);
    }
  }

  /**
   A nil Shutdown is final: at the moment it returns, and ever after, the component's loop is
   not running, and it is never invoked again.
   */
  lemma NilShutdownIsFinal(run: seq<State>, n: nat, i: nat, j: nat, c: nat)
    requires IsRun(run, n) && i <= j < |run| && c < |run[i].calls| && run[i].calls[c].at == ReturnedNil
    ensures var m := run[i].calls[c].member;
            m < n == |run[i].members| == |run[j].members|
            && !Looping(run[j].members[m]) && run[j].members[m].starts == run[i].members[m].starts
  {
    RunKeepsInv(run, n, i);
    RunKeepsInv(run, n, j);
    var m := run[i].calls[c].member;
    assert GoodCall(run[i], run[i].calls[c]);
    RunAdvances(run, n, i, j, m);
    assert GoodMember(run[j].members[m]);
  }

  /** The done channel is closed at most once, and the loop is invoked at most once. */
  lemma ClosedAndStartedAtMostOnce(run: seq<State>, n: nat, i: nat, m: nat)
    requires IsRun(run, n) && i < |run| && m < n
    ensures |run[i].members| == n
    ensures run[i].members[m].fields.closes <= 1 && run[i].members[m].starts <= 1
    ensures run[i].members[m].run.MarkedStopped? ==> run[i].members[m].fields.closes == 0
  {
    RunKeepsInv(run, n, i);
    assert GoodMember(run[i].members[m]);
  }

  /** When nothing remains to be received, every component's outcome has been. */
  lemma TakenEarlier(s: State, n: nat, m: nat) returns (k: nat)
    requires Inv(s) && s.at == Finished && |s.members| == n && m < n
    ensures k < s.taken <= |s.sends| && s.sends[k] == m && s.members[m].run.Returned?
  {
    AllOccur(s.sends[..s.taken], n, m);
    k :| k < s.taken && s.sends[..s.taken][k] == m;
  }

  /**
   Group.Run returns only after every component's Run has returned; its result is nil exactly
   when all of them returned nil, and otherwise the error of the earliest outcome received
   that was one.
   */
  lemma ReturnsAfterAll(run: seq<State>, n: nat, i: nat)
    requires IsRun(run, n) && i < |run| && run[i].at == Finished
    ensures |run[i].members| == n
    ensures forall m :: 0 <= m < n ==> run[i].members[m].run.Returned?
    ensures run[i].firstError == None <==> forall m :: 0 <= m < n ==> run[i].members[m].run == Returned(Clean)
    ensures run[i].firstError.Some? ==>
              exists k :: 0 <= k < |run[i].sends| && FirstFailure(run[i], k)
                          && ErrorOf(run[i], run[i].sends[k]) == run[i].firstError
  {
    var s := run[i];
    RunKeepsInv(run, n, i);
    forall m | 0 <= m < n
      ensures s.members[m].run.Returned?
      ensures s.firstError == None ==> s.members[m].run == Returned(Clean)
    {
      var k := TakenEarlier(s, n, m);
      assert s.firstError == None ==> ErrorOf(s, s.sends[k]) == None;
    }
  }

  /**
   Once shutdownExcept has returned, every component it awaited is canceled, finished, or
   barred from ever starting.
   */
  lemma TornDownLeavesNoneRunning(run: seq<State>, n: nat, i: nat, m: nat)
    requires IsRun(run, n) && i < |run| && m < n
    requires run[i].stoppedOthers && run[i].at != TearingDown
    ensures |run[i].sends| > 0 && |run[i].members| == n
    ensures m != run[i].sends[0] ==> run[i].members[m].fields.canceled || run[i].members[m].fields.phase == Stopped
    ensures m == run[i].sends[0] ==> run[i].members[m].run.Returned?
  {
    var s := run[i];
    RunKeepsInv(run, n, i);
    if m != s.sends[0] {
      assert HasGroupCall(s, m);
      var c :| 0 <= c < |s.calls| && s.calls[c].fromGroup && s.calls[c].member == m;
      assert GoodCall(s, s.calls[c]);
    }
  }

  /**
   A Group.Shutdown that returned called every component's Shutdown and waited for all of them;
   its error is nil exactly when all of theirs were. From its return on, a component whose
   error is not among the joined ones has no loop running and never starts one, and one whose
   error is has been told to stop.
   */
  lemma GroupShutdownSettles(run: seq<State>, n: nat, i: nat, j: nat, g: nat)
    requires IsRun(run, n) && i <= j < |run| && g < |run[i].shutdowns| && run[i].shutdowns[g].joined.Some?
    ensures |run[i].members| == |run[j].members| == n
    ensures var errors := run[i].shutdowns[g].joined.value;
            && (errors == {} <==> forall m :: 0 <= m < n ==> CallFor(run[i], g, m).at == ReturnedNil)
            && forall m :: 0 <= m < n ==>
                 if m in errors then run[j].members[m].fields.canceled
                 else !Looping(run[j].members[m]) && run[j].members[m].starts == run[i].members[m].starts
  {
    var s, errors := run[i], run[i].shutdowns[g].joined.value;
    RunKeepsInv(run, n, i);
    RunKeepsInv(run, n, j);
    assert GoodShutdown(s, g);
    assert errors != {} ==> exists m :: m in errors;
    forall m | 0 <= m < n
      ensures if m in errors then run[j].members[m].fields.canceled
              else !Looping(run[j].members[m]) && run[j].members[m].starts == run[i].members[m].starts
    {
      var c := s.shutdowns[g].first + m;
      assert s.calls[c] == CallFor(s, g, m) && s.calls[c].member == m;
      if m in errors {
        assert GoodCall(s, s.calls[c]);
        RunAdvances(run, n, i, j, m);
      } else {
        NilShutdownIsFinal(run, n, i, j, c);
      }
    }
  }

  /** A Group.Shutdown that returned nil is final: no component's loop runs or ever starts after it. */
  lemma NilGroupShutdownIsFinal(run: seq<State>, n: nat, i: nat, j: nat, g: nat)
    requires IsRun(run, n) && i <= j < |run| && g < |run[i].shutdowns| && run[i].shutdowns[g].joined == Some({})
    ensures |run[i].members| == |run[j].members| == n
    ensures forall m :: 0 <= m < n ==>
      !Looping(run[j].members[m]) && run[j].members[m].starts == run[i].members[m].starts
  {
    GroupShutdownSettles(run, n, i, j, g);
  }

  lemma {:induction false} OrphanedStays(run: seq<State>, n: nat, i: nat, j: nat)
    requires IsRun(run, n) && i <= j < |run| && run[i].orphaned
    ensures run[j].orphaned
    decreases j
  {
    if i < j {
      OrphanedStays(run, n, i, j - 1);
      assert Follows(run[j - 1], run[j - 1 + 1]);
    }
  }

  /** Canceling the context Group.Run was given reaches every loop, those in progress and those begun later. */
  lemma ParentCancelReachesLoops(run: seq<State>, n: nat, i: nat, j: nat, m: nat)
    requires IsRun(run, n) && i < j < |run| && m < n && run[i + 1] == Do(run[i], ParentCanceled)
    ensures m < |run[j].members| && (run[j].members[m].run.InLoop? ==> run[j].members[m].fields.canceled)
  {
    RunKeepsInv(run, n, j);
    OrphanedStays(run, n, i + 1, j);
    assert GoodMember(run[j].members[m]);
  }

  // ----- what the loops returned -----

  /** A run together with the steps it took. */
  ghost predicate IsRunBy(run: seq<State>, steps: seq<Step>, n: nat) {
    && |run| == |steps| + 1 && run[0] == Initial(n)
    && forall i :: 0 <= i < |steps| ==> Enabled(run[i], steps[i]) && run[i + 1] == Do(run[i], steps[i])
  }

  lemma {:induction false} StepsOfRun(run: seq<State>, n: nat) returns (steps: seq<Step>)
    requires IsRun(run, n)
    ensures IsRunBy(run, steps, n)
  {
    hide Do, Enabled;
    if |run| == 1 {
      steps := [];
    } else {
      var front := run[..|run| - 1];
      assert forall i :: 0 <= i < |front| - 1 ==> Follows(run[i], run[i + 1]);
      var before := StepsOfRun(front, n);
      assert Follows(run[|run| - 2], run[|run| - 2 + 1]);
      var step :| Enabled(run[|run| - 2], step) && run[|run| - 1] == Do(run[|run| - 2], step);
      steps := before + [step];
      forall i | 0 <= i < |steps| ensures Enabled(run[i], steps[i]) && run[i + 1] == Do(run[i], steps[i]) {
        if i < |before| {
          assert front[i] == run[i] && front[i + 1] == run[i + 1] && steps[i] == before[i];
        }
      }
    }
  }

  lemma RunByIsRun(run: seq<State>, steps: seq<Step>, n: nat)
    requires IsRunBy(run, steps, n)
    ensures IsRun(run, n)
  {
    forall i | 0 <= i < |run| - 1 ensures Follows(run[i], run[i + 1]) {
      assert Enabled(run[i], steps[i]) && run[i + 1] == Do(run[i], steps[i]);
    }
  }

  /** The member's loop has returned that, and its Run is on the way to returning it or has. */
  predicate Carries(run: RunAt, outcome: Outcome) {
    match run
    case NotStarted => false
    case InLoop => false
    case LoopReturned(result) => result == outcome
    case MarkedStopped(result) => result == outcome
    case DoneClosed(result) => result == outcome
    case Returned(result) => result == outcome
  }

  lemma StepCarries(s: State, step: Step, m: nat, outcome: Outcome)
    requires GoodWorkers(s) && Enabled(s, step) && m < |s.members| && Carries(s.members[m].run, outcome)
    ensures |Do(s, step).members| == |s.members| && Carries(Do(s, step).members[m].run, outcome)
  {
  }

  lemma LoopReturnCarries(s: State, m: nat, outcome: Outcome)
    requires Enabled(s, LoopReturns(m, outcome))
    ensures m < |s.members| == |Do(s, LoopReturns(m, outcome)).members|
    ensures Carries(Do(s, LoopReturns(m, outcome)).members[m].run, outcome)
  {
  }

  /** What a loop returned is what its Run carries from then on. */
  lemma {:induction false} OutcomeCarried(run: seq<State>, steps: seq<Step>, n: nat, i: nat, j: nat, m: nat,
                                          outcome: Outcome)
    requires IsRunBy(run, steps, n) && i < j < |run| && steps[i] == LoopReturns(m, outcome)
    ensures m < n == |run[j].members| && Carries(run[j].members[m].run, outcome)
    decreases j
  {
    RunByIsRun(run, steps, n);
    RunKeepsInv(run, n, j - 1);
    hide Do, Carries;
    if j == i + 1 {
      LoopReturnCarries(run[i], m, outcome);
    } else {
      OutcomeCarried(run, steps, n, i, j - 1, m, outcome);
      StepCarries(run[j - 1], steps[j - 1], m, outcome);
      assert run[j - 1 + 1] == Do(run[j - 1], steps[j - 1]);
    }
  }

  /** A failure is carried only after the member's own loop returned it. */
  lemma StepBrings(s: State, step: Step, m: nat, outcome: Outcome)
    requires Enabled(s, step) && m < |s.members| && outcome.Failed?
    ensures |Do(s, step).members| == |s.members|
    ensures Carries(Do(s, step).members[m].run, outcome) ==>
            Carries(s.members[m].run, outcome) || step == LoopReturns(m, outcome)
  {
  }

  lemma {:induction false} FailureReturned(run: seq<State>, steps: seq<Step>, n: nat, j: nat, m: nat, outcome: Outcome)
    requires IsRunBy(run, steps, n) && j < |run| && m < n == |run[j].members| && outcome.Failed?
    requires Carries(run[j].members[m].run, outcome)
    ensures exists i :: 0 <= i < j && steps[i] == LoopReturns(m, outcome)
    decreases j
  {
    hide Do;
    if j > 0 {
      RunByIsRun(run, steps, n);
      RunKeepsInv(run, n, j - 1);
      assert run[j - 1 + 1] == Do(run[j - 1], steps[j - 1]);
      StepBrings(run[j - 1], steps[j - 1], m, outcome);
      if Carries(run[j - 1].members[m].run, outcome) {
        FailureReturned(run, steps, n, j - 1, m, outcome);
      }
    }
  }

  /**
   Group.Run answers nil exactly when no loop of the whole run returned an error, and otherwise with an error
   that the loop of the component it names returned.
   */
  lemma AnswersForTheLoops(run: seq<State>, steps: seq<Step>, n: nat, j: nat)
    requires IsRunBy(run, steps, n) && j < |run| && run[j].at == Finished
    ensures run[j].firstError == None
            <==> forall i :: 0 <= i < j && steps[i].LoopReturns? ==> steps[i].outcome == Clean
    ensures run[j].firstError.Some? ==>
              exists i :: 0 <= i < j && steps[i]
                == LoopReturns(run[j].firstError.value.0, Failed(run[j].firstError.value.1))
  {
    RunByIsRun(run, steps, n);
    ReturnsAfterAll(run, n, j);
    RunKeepsInv(run, n, j);
    hide Do, Enabled;
    var s := run[j];
    if s.firstError.Some? {
      var (m, error) := s.firstError.value;
      assert m < n && s.members[m].run == Returned(Failed(error)) by {
        var k :| 0 <= k < |s.sends| && FirstFailure(s, k) && ErrorOf(s, s.sends[k]) == s.firstError;
      }
      FailureReturned(run, steps, n, j, m, Failed(error));
    }
    forall i | 0 <= i < j && steps[i].LoopReturns? && s.firstError == None ensures steps[i].outcome == Clean {
      OutcomeCarried(run, steps, n, i, j, steps[i].m, steps[i].outcome);
    }
  }

  // ----- progress -----

  /** The steps of the code and its loops, as opposed to new calls and cancellations from outside. */
  predicate Inner(step: Step) {
    !step.ParentCanceled? && !step.CallShutdown? && !step.CallGroupShutdown?
  }

  /** The inner steps but those that wait for something to happen outside the code: a loop's return or a deadline. */
  predicate Own(step: Step) {
    Inner(step) && !step.LoopReturns? && !step.TimeOut?
  }

  predicate Ongoing(s: State) {
    s.at == Receiving || s.at == TearingDown
  }

  /** The next own step of a component that has not sent its outcome, unless it is in its loop. */
  function NextOf(s: State, m: nat): Step
    requires m < |s.members|
  {
    match s.members[m].run
    case NotStarted => BeginRun(m)
    case InLoop => LoopReturns(m, Clean)
    case LoopReturned(_) => FinishRun(m)
    case MarkedStopped(_) => CloseDone(m)
    case DoneClosed(_) => ReturnRun(m)
    case Returned(_) => Send(m)
  }

  lemma MemberCanStep(s: State, m: nat)
    requires s.at != NotRunning && m < |s.members| && m !in s.sends
    ensures Enabled(s, NextOf(s, m)) && (Own(NextOf(s, m)) || s.members[m].run.InLoop?)
  {
  }

  /** What an unsettled call waits for. */
  lemma CallCanStep(s: State, c: nat) returns (step: Step)
    requires GoodWorkers(s) && s.at != NotRunning && c < |s.calls| && !Settled(s.calls[c])
    ensures Enabled(s, step) && (Own(step) || s.members[s.calls[c].member].run.InLoop?)
  {
    assert GoodCall(s, s.calls[c]);
    var m := s.calls[c].member;
    assert GoodMember(s.members[m]);
    match s.calls[c].at {
      case Entered => step := LockedSection(c);
      case HoldsCancel => step := CancelLoop(c);
      case Waiting => step := if s.members[m].fields.closes > 0 then SeeDone(c) else NextOf(s, m);
    }
  }

  lemma {:induction false} AllSentCount(sends: seq<nat>, n: nat)
    requires forall m :: 0 <= m < n ==> m in sends
    ensures |sends| >= n
  {
    if n > 0 {
      assert n - 1 in sends;
      var k :| 0 <= k < |sends| && sends[k] == n - 1;
      var others := sends[..k] + sends[k + 1..];
      forall m | 0 <= m < n - 1 ensures m in others {
        assert m in sends;
        var i :| 0 <= i < |sends| && sends[i] == m;
        assert others[if i < k then i else i - 1] == m;
      }
      AllSentCount(others, n - 1);
    }
  }

  /** While the receive loop waits, some component has yet to send. */
  lemma SomeoneUnsent(s: State) returns (m: nat)
    requires GoodChannel(s) && s.at != NotRunning && s.remaining > 0 && s.taken == |s.sends|
    ensures m < |s.members| && m !in s.sends
  {
    if forall m :: 0 <= m < |s.members| ==> m in s.sends {
      AllSentCount(s.sends, |s.members|);
    }
    m :| 0 <= m < |s.members| && m !in s.sends;
  }

  /**
   Group.Run is never stuck: until it has returned, some step of the code itself can be taken,
   or a component is in its loop, which may return.
   */
  lemma NeverStuck(run: seq<State>, n: nat, i: nat) returns (step: Step)
    requires IsRun(run, n) && i < |run| && Ongoing(run[i])
    ensures Enabled(run[i], step)
    ensures Own(step) || exists m :: 0 <= m < |run[i].members| && run[i].members[m].run.InLoop?
  {
    var s := run[i];
    RunKeepsInv(run, n, i);
    if s.at == TearingDown {
      if forall c :: c in s.calls && c.fromGroup ==> Settled(c) {
        step := TornDown;
      } else {
        var c :| 0 <= c < |s.calls| && !Settled(s.calls[c]);
        assert GoodCall(s, s.calls[c]);
        step := CallCanStep(s, c);
      }
    } else if s.remaining <= 0 {
      step := ReturnGroup;
    } else if s.taken < |s.sends| {
      step := Receive;
    } else {
      var m := SomeoneUnsent(s);
      MemberCanStep(s, m);
      step := NextOf(s, m);
    }
  }

  /**
   When the code can only wait for loops, and some component has already returned, every loop
   still running has had its context canceled.
   */
  lemma OnlyCanceledLoopsAwaited(run: seq<State>, n: nat, i: nat, m: nat)
    requires IsRun(run, n) && i < |run| && m < n && run[i].taken > 0
    requires forall step :: Own(step) ==> !Enabled(run[i], step)
    ensures |run[i].members| == n && (run[i].members[m].run.InLoop? ==> run[i].members[m].fields.canceled)
  {
    var s := run[i];
    RunKeepsInv(run, n, i);
    if m != s.sends[0] {
      assert HasGroupCall(s, m);
      var c :| 0 <= c < |s.calls| && s.calls[c].fromGroup && s.calls[c].member == m;
      assert GoodCall(s, s.calls[c]) && GoodMember(s.members[m]);
      assert Own(LockedSection(c)) && Own(CancelLoop(c));
      assert !Enabled(s, LockedSection(c)) && !Enabled(s, CancelLoop(c));
    }
  }

  function Total(ranks: seq<nat>): nat {
    if ranks == [] then 0 else ranks[0] + Total(ranks[1..])
  }

  lemma {:induction false} TotalJoined(a: seq<nat>, b: seq<nat>)
    ensures Total(a + b) == Total(a) + Total(b)
  {
    if a == [] {
      assert a + b == b;
    } else {
      TotalJoined(a[1..], b);
      assert (a + b)[1..] == a[1..] + b;
    }
  }

  /** Lowering one entry lowers the total. */
  lemma {:induction false} TotalLowered(a: seq<nat>, k: nat, v: nat)
    requires k < |a| && v < a[k]
    ensures Total(a[k := v]) < Total(a)
  {
    if k == 0 {
      assert a[k := v][1..] == a[1..];
    } else {
      TotalLowered(a[1..], k - 1, v);
      assert a[k := v][1..] == a[1..][k - 1 := v];
    }
  }

  lemma {:induction false} TotalAtMost(a: seq<nat>, each: nat)
    requires forall k :: 0 <= k < |a| ==> a[k] <= each
    ensures Total(a) <= each * |a|
  {
    if a != [] {
      TotalAtMost(a[1..], each);
    }
  }

  /** How many steps a Run has left, counting the send of its outcome. */
  function RunRank(run: RunAt, sent: bool): nat {
    match run
    case NotStarted => 6
    case InLoop => 5
    case LoopReturned(_) => 4
    case MarkedStopped(_) => 3
    case DoneClosed(_) => 2
    case Returned(_) => if sent then 0 else 1
  }

  function CallRank(at: CallAt): nat {
    match at
    case Entered => 3
    case HoldsCancel => 2
    case Waiting => 1
    case ReturnedNil => 0
    case TimedOut => 0
  }

  function MemberRanks(s: State): (r: seq<nat>)
    ensures |r| == |s.members| && forall m :: 0 <= m < |r| ==> r[m] == RunRank(s.members[m].run, m in s.sends)
  {
    seq(|s.members|, m requires 0 <= m < |s.members| => RunRank(s.members[m].run, m in s.sends))
  }

  function CallRanks(calls: seq<Call>): (r: seq<nat>)
    ensures |r| == |calls| && forall c :: 0 <= c < |r| ==> r[c] == CallRank(calls[c].at)
  {
    seq(|calls|, c requires 0 <= c < |calls| => CallRank(calls[c].at))
  }

  function ShutdownRanks(shutdowns: seq<GroupShutdown>): (r: seq<nat>)
    ensures |r| == |shutdowns| && forall g :: 0 <= g < |r| ==> r[g] == if shutdowns[g].joined == None then 1 else 0
  {
    seq(|shutdowns|, g requires 0 <= g < |shutdowns| => if shutdowns[g].joined == None then 1 else 0)
  }

  /** How many steps the receive loop has left, counting those of the calls it has yet to make. */
  function GroupRank(s: State): nat {
    (if s.at == NotRunning then |s.members| + 1 else if s.remaining > 0 then s.remaining else 0)
    + (if s.stoppedOthers then 0 else 3 * |s.members| + 2)
    + (if s.at == TearingDown then 1 else 0)
    + (if s.at == Finished then 0 else 1)
  }

  /** An upper bound on the inner steps that can follow. */
  function Bound(s: State): nat {
    Total(MemberRanks(s)) + Total(CallRanks(s.calls)) + Total(ShutdownRanks(s.shutdowns)) + GroupRank(s)
  }

  /** The steps of one component's Run, with its send. */
  predicate MemberStep(step: Step) {
    step.BeginRun? || step.LoopReturns? || step.FinishRun? || step.CloseDone? || step.ReturnRun? || step.Send?
  }

  predicate CallStep(step: Step) {
    step.LockedSection? || step.CancelLoop? || step.SeeDone? || step.TimeOut?
  }

  /** A step of one component changes the rank of that component alone, and lowers it. */
  lemma MemberStepLocal(s: State, step: Step)
    requires GoodWorkers(s) && Enabled(s, step) && MemberStep(step)
    ensures var s' := Do(s, step);
            && s'.calls == s.calls && s'.shutdowns == s.shutdowns && s'.at == s.at && s'.remaining == s.remaining
            && s'.stoppedOthers == s.stoppedOthers && |s'.members| == |s.members|
            && RunRank(s'.members[step.m].run, step.m in s'.sends) < RunRank(s.members[step.m].run, step.m in s.sends)
            && forall k: nat :: k < |s.members| && k != step.m ==>
                 s'.members[k] == s.members[k] && (k in s'.sends <==> k in s.sends)
  {
    assert GoodMember(s.members[step.m]);
  }

  lemma MemberRanksLowered(s: State, s': State, m: nat)
    requires |s'.members| == |s.members| && m < |s.members|
    requires RunRank(s'.members[m].run, m in s'.sends) < RunRank(s.members[m].run, m in s.sends)
    requires forall k: nat :: k < |s.members| && k != m ==>
             s'.members[k] == s.members[k] && (k in s'.sends <==> k in s.sends)
    ensures Total(MemberRanks(s')) < Total(MemberRanks(s))
  {
    hide RunRank;
    var rank := RunRank(s'.members[m].run, m in s'.sends);
    assert MemberRanks(s') == MemberRanks(s)[m := rank];
    TotalLowered(MemberRanks(s), m, rank);
  }

  lemma SameMemberRanks(s: State, s': State)
    requires |s'.members| == |s.members| && s'.sends == s.sends
    requires forall k: nat :: k < |s.members| ==> s'.members[k].run == s.members[k].run
    ensures MemberRanks(s') == MemberRanks(s)
  {
    hide RunRank;
  }

  lemma CallRanksLowered(calls: seq<Call>, c: nat, call: Call)
    requires c < |calls| && CallRank(call.at) < CallRank(calls[c].at)
    ensures Total(CallRanks(calls[c := call])) < Total(CallRanks(calls))
  {
    hide CallRank;
    assert CallRanks(calls[c := call]) == CallRanks(calls)[c := CallRank(call.at)];
    TotalLowered(CallRanks(calls), c, CallRank(call.at));
  }

  lemma MemberStepLowers(s: State, step: Step)
    requires GoodWorkers(s) && Enabled(s, step) && MemberStep(step)
    ensures Bound(Do(s, step)) < Bound(s)
  {
    MemberStepLocal(s, step);
    hide Do, Enabled, GoodWorkers, RunRank, MemberRanks, CallRanks, ShutdownRanks;
    MemberRanksLowered(s, Do(s, step), step.m);
  }

  /** A step of one Shutdown call changes the rank of that call alone, and lowers it. */
  lemma CallStepLocal(s: State, step: Step) returns (call: Call)
    requires Enabled(s, step) && CallStep(step)
    ensures step.c < |s.calls|
    ensures var s' := Do(s, step);
            && s'.shutdowns == s.shutdowns && s'.sends == s.sends && s'.at == s.at && s'.remaining == s.remaining
            && s'.stoppedOthers == s.stoppedOthers && |s'.members| == |s.members| && s'.calls == s.calls[step.c := call]
            && CallRank(call.at) < CallRank(s.calls[step.c].at)
            && forall k: nat :: k < |s.members| ==> s'.members[k].run == s.members[k].run
  {
    call := Do(s, step).calls[step.c];
  }

  lemma CallStepLowers(s: State, step: Step)
    requires GoodWorkers(s) && Enabled(s, step) && CallStep(step)
    ensures Bound(Do(s, step)) < Bound(s)
  {
    var call := CallStepLocal(s, step);
    hide Do, Enabled, GoodWorkers, RunRank, CallRank, MemberRanks, CallRanks, ShutdownRanks, Total;
    var s' := Do(s, step);
    SameMemberRanks(s, s');
    CallRanksLowered(s.calls, step.c, call);
  }

  lemma SameRanks(s: State, s': State)
    requires s.members == s'.members && s.sends == s'.sends
    ensures MemberRanks(s') == MemberRanks(s)
  {
  }

  lemma CallsAdded(calls: seq<Call>, added: seq<Call>)
    ensures Total(CallRanks(calls + added)) <= Total(CallRanks(calls)) + 3 * |added|
  {
    hide Total;
    assert CallRanks(calls + added) == CallRanks(calls) + CallRanks(added);
    TotalJoined(CallRanks(calls), CallRanks(added));
    TotalAtMost(CallRanks(added), 3);
  }

  lemma ReceiveLowers(s: State)
    requires GoodChannel(s) && Enabled(s, Receive)
    ensures Bound(Do(s, Receive)) < Bound(s)
  {
    hide Total, CallRanks, MemberRanks, ShutdownRanks;
    var s' := Do(s, Receive);
    SameRanks(s, s');
    if !s.stoppedOthers {
      CallsAdded(s.calls, CallsExcept(s.sends[s.taken], |s.members|));
    }
  }

  lemma JoinLowers(s: State, g: nat)
    requires Enabled(s, ReturnGroupShutdown(g))
    ensures Bound(Do(s, ReturnGroupShutdown(g))) < Bound(s)
  {
    var s' := Do(s, ReturnGroupShutdown(g));
    assert MemberRanks(s') == MemberRanks(s);
    assert ShutdownRanks(s'.shutdowns) == ShutdownRanks(s.shutdowns)[g := 0];
    TotalLowered(ShutdownRanks(s.shutdowns), g, 0);
  }

  lemma InnerLowers(s: State, step: Step)
    requires Inv(s) && Enabled(s, step) && Inner(step)
    ensures Bound(Do(s, step)) < Bound(s)
  {
    if MemberStep(step) {
      MemberStepLowers(s, step);
    } else if CallStep(step) {
      CallStepLowers(s, step);
    } else if step.Receive? {
      ReceiveLowers(s);
    } else if step.ReturnGroupShutdown? {
      JoinLowers(s, step.g);
    } else {
      assert MemberRanks(Do(s, step)) == MemberRanks(s);
    }
  }

  ghost predicate FollowsInside(s: State, s': State) {
    exists step :: Inner(step) && Enabled(s, step) && s' == Do(s, step)
  }

  lemma InnerStepLeft(run: seq<State>, n: nat, i: nat)
    requires IsRun(run, n) && i < |run| && run[i].at != Finished
    ensures exists step :: Inner(step) && Enabled(run[i], step)
  {
    if run[i].at == NotRunning {
      assert Inner(StartGroup) && Enabled(run[i], StartGroup);
    } else {
      var step := NeverStuck(run, n, i);
      if !Own(step) {
        var m :| 0 <= m < |run[i].members| && run[i].members[m].run.InLoop?;
        assert Inner(LoopReturns(m, Clean)) && Enabled(run[i], LoopReturns(m, Clean));
      }
    }
  }

  /**
   Shutting down ends: unless someone calls Shutdown anew or cancels from outside, at most
   Bound(s) steps follow a state s, in any order; and as Group.Run is never stuck before then,
   it has returned when they are over.
   */
  lemma {:induction false} EndsWithin(run: seq<State>, n: nat, i: nat, j: nat)
    requires IsRun(run, n) && i <= j < |run| && forall k :: i <= k < j ==> FollowsInside(run[k], run[k + 1])
    ensures j - i + Bound(run[j]) <= Bound(run[i])
    ensures (forall step :: Inner(step) ==> !Enabled(run[j], step)) ==> run[j].at == Finished
    decreases j
  {
    hide Bound, Do, Enabled, Inv, Inner;
    if i < j {
      EndsWithin(run, n, i, j - 1);
      assert FollowsInside(run[j - 1], run[j]);
      var step :| Inner(step) && Enabled(run[j - 1], step) && run[j] == Do(run[j - 1], step);
      RunKeepsInv(run, n, j - 1);
      InnerLowers(run[j - 1], step);
    }
    if run[j].at != Finished {
      InnerStepLeft(run, n, j);
    }
  }

  // ----- the receive loop itself -----

  /** i is the earliest outcome that is an error. */
  predicate EarliestFailure(outcomes: seq<(nat, Outcome)>, i: nat) {
    && i < |outcomes| && outcomes[i].1.Failed?
    && forall k :: 0 <= k < i ==> outcomes[k].1 == Clean
  }

  /**
   Group.Run's loop over the outcomes in the order they arrive: the error of record, and the
   component passed to shutdownExcept, which happens once, for the first arrival.
   */
  method Collect(outcomes: seq<(nat, Outcome)>) returns (firstError: Option<(nat, int)>, skipped: seq<nat>)
    ensures firstError == None <==> forall k :: 0 <= k < |outcomes| ==> outcomes[k].1 == Clean
    ensures firstError.Some? ==> exists i: nat | i < |outcomes| ::
              EarliestFailure(outcomes, i) && firstError == Some((outcomes[i].0, outcomes[i].1.error))
    ensures skipped == if outcomes == [] then [] else [outcomes[0].0]
  {
    firstError, skipped := None, [];
    var stoppedOthers := false;
    var remaining: nat := |outcomes|;
    ghost var failed: nat := 0;
    while remaining > 0
      invariant remaining <= |outcomes|
      invariant firstError == None ==> forall k :: 0 <= k < |outcomes| - remaining ==> outcomes[k].1 == Clean
      invariant firstError.Some? ==> failed < |outcomes| - remaining && EarliestFailure(outcomes, failed)
                                     && firstError == Some((outcomes[failed].0, outcomes[failed].1.error))
      invariant stoppedOthers <==> remaining < |outcomes|
      invariant skipped == if stoppedOthers then [outcomes[0].0] else []
    {
      var o := outcomes[|outcomes| - remaining];
      remaining := remaining - 1;
      if o.1.Failed? && firstError == None {
        firstError := Some((o.0, o.1.error));
        failed := |outcomes| - remaining - 1;
      }
      if !stoppedOthers {
        stoppedOthers := true;
        skipped := skipped + [o.0];
      }
    }
  }
}
